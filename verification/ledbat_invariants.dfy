/**
 The invariant `Valid` of the estimator: it holds in the constructor's state
 and every acknowledgment preserves it. Its consequences: the noise
 filter's indices and the base history's `min` stay exact, the buffers stay
 within their lengths, the running maximum of the queueing delay never
 decreases, and once a sample has been taken neither `queue_delay` nor
 `spread` wraps around in a reachable state.
 */
module LedbatInvariants {
  import opened FixedWidth
  import opened DelayBuffer
  import opened Ledbat

  /** One acknowledgment event as the estimator sees it. */
  datatype Ack = Ack(tsval: u32, tsecr: u32, rttPositive: bool, nowSec: u64)

  /** The base-history policy keeps `min` at the earliest minimum in all
      three of its branches: the seed and the rollover through `AddDelay`,
      the in-epoch overwrite because it only lowers the newest entry and
      moves `min` there on a strict improvement. */
  lemma UpdateBaseDelayKeepsMin(e: Estimator, owd: u32, nowSec: u64)
    requires Safe(e)
    requires |e.baseHistory.buffer| < e.baseHistoLen as int
    requires MinTracked(e.baseHistory)
    ensures MinTracked(UpdateBaseDelay(e, owd, nowSec).baseHistory)
  {
    var cb := e.baseHistory;
    if cb.buffer == [] || EpochExpired(e, nowSec) {
      AddDelayKeepsExtrema(cb, owd, e.baseHistoLen);
    } else {
      var last := |cb.buffer| - 1;
      if owd < cb.buffer[last] {
        var buf := cb.buffer[last := owd];
        assert Trunc32(last) == last;
        var k := cb.min as nat;
        if owd < buf[k] {
          // the new sample undercuts every other entry
          assert k != last;
          assert IsEarliestMinOf(buf, |buf|, last);
        } else {
          assert IsEarliestMinOf(buf, |buf|, k);
        }
      }
    }
  }

  /** The step behind `Covered`: the noise filter drops `t` samples from its
      front and appends the new sample; the base history drops `s` entries
      from its front, grows by at most one, may lower the surviving entries,
      and ends with an entry no larger than the new sample. */
  lemma {:induction false} CoveredStep(
    n: seq<u32>, b: seq<u32>, n': seq<u32>, b': seq<u32>, owd: u32, t: nat, s: nat)
    requires Covered(n, b)
    requires t <= 1 && t <= |n| && n' == n[t..] + [owd]
    requires s <= 1 && s <= |b| && |b| - s <= |b'| <= |b| - s + 1
    requires s == 1 ==> |n| < |b|
    requires forall j :: s <= j < |b| ==> b'[j - s] <= b[j]
    requires b' != [] && b'[|b'| - 1] <= owd
    ensures Covered(n', b')
  {
    forall i' | 0 <= i' < |n'|
      ensures exists j' :: 0 <= j' < |b'| && |b'| - |n'| + i' <= j' && b'[j'] <= n'[i']
    {
      if i' == |n'| - 1 {
        assert b'[|b'| - 1] <= n'[i'];
      } else {
        var i := i' + t;
        assert n'[i'] == n[i];
        var j :| 0 <= j < |b| && |b| - |n| + i <= j && b[j] <= n[i];
        assert b'[j - s] <= b[j];
      }
    }
  }

  /** `CoveredStep` for a base history that appends the new sample after
      dropping `s` entries from its front. */
  lemma CoveredAppend(n: seq<u32>, b: seq<u32>, n': seq<u32>, owd: u32, t: nat, s: nat)
    requires Covered(n, b)
    requires t <= 1 && t <= |n| && n' == n[t..] + [owd]
    requires s <= 1 && s <= |b|
    requires s == 1 ==> |n| < |b|
    ensures Covered(n', b[s..] + [owd])
  {
    var b' := b[s..] + [owd];
    assert forall j :: s <= j < |b| ==> b'[j - s] == b[j];
    CoveredStep(n, b, n', b', owd, t, s);
  }

  /** The buffer part of `Valid` survives feeding one sample to both
      buffers. */
  lemma FeedKeepsBuffersValid(e: Estimator, owd: u32, nowSec: u64)
    requires Valid(e)
    ensures var r := Feed(e, owd, nowSec);
      && |r.noiseFilter.buffer| < r.noiseFilterLen as int
      && |r.baseHistory.buffer| < r.baseHistoLen as int
      && MinTracked(r.noiseFilter) && MaxTracked(r.noiseFilter)
      && MinTracked(r.baseHistory)
      && Covered(r.noiseFilter.buffer, r.baseHistory.buffer)
  {
    var e2 := UpdateCurrentDelay(e, owd);
    assert Feed(e, owd, nowSec) == UpdateBaseDelay(e2, owd, nowSec);
    AddDelayKeepsExtrema(e.noiseFilter, owd, e.noiseFilterLen);
    UpdateBaseDelayKeepsMin(e2, owd, nowSec);
    CoveredAfterFeed(e, owd, nowSec);
  }

  /** Within an epoch the base history keeps its length and its entries
      can only go down, the newest one to at most the new sample. */
  lemma InEpochOnlyLowers(e: Estimator, owd: u32, nowSec: u64)
    requires Safe(e)
    requires e.baseHistory.buffer != [] && !EpochExpired(e, nowSec)
    ensures var b, b' := e.baseHistory.buffer, UpdateBaseDelay(e, owd, nowSec).baseHistory.buffer;
      && |b'| == |b|
      && (forall j :: 0 <= j < |b| ==> b'[j] <= b[j])
      && b'[|b'| - 1] <= owd
  {
    var b, b' := e.baseHistory.buffer, UpdateBaseDelay(e, owd, nowSec).baseHistory.buffer;
    forall j | 0 <= j < |b| ensures b'[j] <= b[j] {
      if j < |b| - 1 {
        assert b'[j] == b'[..|b| - 1][j];
        assert b[j] == b[..|b| - 1][j];
      }
    }
  }

  /** After an expired epoch the base history is the old one, without its
      oldest entry when full, followed by the new sample. */
  lemma RolloverAppends(e: Estimator, owd: u32, nowSec: u64)
    requires Safe(e)
    requires e.baseHistory.buffer != [] && EpochExpired(e, nowSec)
    ensures var b := e.baseHistory.buffer;
      var s := if |b| + 1 >= e.baseHistoLen as int then 1 else 0;
      UpdateBaseDelay(e, owd, nowSec).baseHistory.buffer == b[s..] + [owd]
  {
    var b := e.baseHistory.buffer;
    if |b| + 1 < e.baseHistoLen as int {
      assert b[0..] == b;
    }
  }

  /** Feeding one sample to both buffers keeps `Covered`: the noise filter
      never outlives the base history's entries because it is the shorter
      of the two. */
  lemma CoveredAfterFeed(e: Estimator, owd: u32, nowSec: u64)
    requires Safe(e)
    requires |e.noiseFilter.buffer| < e.noiseFilterLen as int < e.baseHistoLen as int
    requires |e.baseHistory.buffer| < e.baseHistoLen as int
    requires Covered(e.noiseFilter.buffer, e.baseHistory.buffer)
    ensures var r := Feed(e, owd, nowSec);
      Covered(r.noiseFilter.buffer, r.baseHistory.buffer)
  {
    var e2 := UpdateCurrentDelay(e, owd);
    assert Feed(e, owd, nowSec) == UpdateBaseDelay(e2, owd, nowSec);
    var n := e.noiseFilter.buffer;
    var t := if n != [] && |n| + 1 >= e.noiseFilterLen as int then 1 else 0;
    assert e2.noiseFilter.buffer == n[t..] + [owd];
    if e.baseHistory.buffer != [] && EpochExpired(e2, nowSec) {
      CoveredAfterRollover(e, e2, owd, nowSec, t);
    } else {
      CoveredOtherwise(e, e2, owd, nowSec, t);
    }
  }

  lemma CoveredAfterRollover(e: Estimator, e2: Estimator, owd: u32, nowSec: u64, t: nat)
    requires Safe(e2)
    requires e.noiseFilterLen == e2.noiseFilterLen && e.baseHistoLen == e2.baseHistoLen
    requires |e.noiseFilter.buffer| < e.noiseFilterLen as int < e.baseHistoLen as int
    requires |e.baseHistory.buffer| < e.baseHistoLen as int
    requires Covered(e.noiseFilter.buffer, e.baseHistory.buffer)
    requires e2.baseHistory == e.baseHistory
    requires t <= 1 && t <= |e.noiseFilter.buffer|
    requires e2.noiseFilter.buffer == e.noiseFilter.buffer[t..] + [owd]
    requires e.baseHistory.buffer != [] && EpochExpired(e2, nowSec)
    ensures var r := UpdateBaseDelay(e2, owd, nowSec);
      Covered(r.noiseFilter.buffer, r.baseHistory.buffer)
  {
    var b := e.baseHistory.buffer;
    var s := if |b| + 1 >= e.baseHistoLen as int then 1 else 0;
    RolloverAppends(e2, owd, nowSec);
    CoveredAppend(e.noiseFilter.buffer, b, e2.noiseFilter.buffer, owd, t, s);
  }

  /** A sample in the noise filter needs an entry in the base history. */
  lemma CoveredNeedsBase(n: seq<u32>, b: seq<u32>)
    requires Covered(n, b)
    ensures n != [] ==> b != []
  {
    if n != [] {
      var j :| 0 <= j < |b| && |b| - |n| <= j && b[j] <= n[0];
    }
  }

  lemma CoveredOtherwise(e: Estimator, e2: Estimator, owd: u32, nowSec: u64, t: nat)
    requires Safe(e2)
    requires Covered(e.noiseFilter.buffer, e.baseHistory.buffer)
    requires e2.baseHistory == e.baseHistory
    requires t <= 1 && t <= |e.noiseFilter.buffer|
    requires e2.noiseFilter.buffer == e.noiseFilter.buffer[t..] + [owd]
    requires !(e.baseHistory.buffer != [] && EpochExpired(e2, nowSec))
    ensures var r := UpdateBaseDelay(e2, owd, nowSec);
      Covered(r.noiseFilter.buffer, r.baseHistory.buffer)
  {
    var n, b := e.noiseFilter.buffer, e.baseHistory.buffer;
    var b' := UpdateBaseDelay(e2, owd, nowSec).baseHistory.buffer;
    if b == [] {
      CoveredNeedsBase(n, b);
      assert b' == [owd];
      assert Covered(e2.noiseFilter.buffer, b') by {
        assert e2.noiseFilter.buffer == [owd];
      }
    } else {
      assert |b'| == |b| && b'[|b'| - 1] <= owd && forall j :: 0 <= j < |b| ==> b'[j] <= b[j] by {
        InEpochOnlyLowers(e2, owd, nowSec);
      }
      CoveredStep(n, b, e2.noiseFilter.buffer, b', owd, t, 0);
    }
  }

  /** Every acknowledgment preserves `Valid`. */
  lemma PktsAckedPreservesValid(e: Estimator, tsval: u32, tsecr: u32, rttPositive: bool, nowSec: u64)
    requires Valid(e)
    ensures Valid(PktsAcked(e, tsval, tsecr, rttPositive, nowSec))
  {
    var valid := tsval != 0 && tsecr != 0;
    var e1 := e.(validFlag := valid);
    assert Valid(e1);
    if valid && rttPositive {
      var owd := Sub32(tsval, tsecr);
      FeedKeepsBuffersValid(e1, owd, nowSec);
      assert PktsAcked(e, tsval, tsecr, rttPositive, nowSec) == TakeSample(e1, owd, nowSec);
    }
  }

  /** The estimator's response to one acknowledgment. */
  function Step(e: Estimator, a: Ack): Estimator
    requires Safe(e)
  {
    PktsAcked(e, a.tsval, a.tsecr, a.rttPositive, a.nowSec)
  }

  /** The state after a run of acknowledgments, in order. */
  function Run(e: Estimator, acks: seq<Ack>): (r: Estimator)
    requires Safe(e)
    ensures Safe(r)
    ensures r.baseHistoLen == e.baseHistoLen && r.noiseFilterLen == e.noiseFilterLen
    decreases |acks|
  {
    if acks == [] then e else Run(Step(e, acks[0]), acks[1..])
  }

  /** Along any run, `Valid` is kept and the largest observed queueing delay
      never decreases. */
  lemma {:induction false} RunKeepsValid(e: Estimator, acks: seq<Ack>)
    requires Valid(e)
    ensures Valid(Run(e, acks))
    ensures e.maxObserved <= Run(e, acks).maxObserved
    decreases |acks|
  {
    if acks != [] {
      var a := acks[0];
      var e' := PktsAcked(e, a.tsval, a.tsecr, a.rttPositive, a.nowSec);
      PktsAckedPreservesValid(e, a.tsval, a.tsecr, a.rttPositive, a.nowSec);
      RunKeepsValid(e', acks[1..]);
    }
  }

  /** In a valid state with samples, the base delay is at most every noise
      sample, so the unsigned differences `queue_delay` and `spread` are the
      true, non-negative differences and never wrap; `spread` is at least
      `queue_delay`. */
  lemma NoWrapInValidState(e: Estimator)
    requires Valid(e)
    requires e.noiseFilter.buffer != []
    ensures BaseDelay(e) <= CurrentDelay(e, MinFilter) <= CurrentDelay(e, MaxFilter)
    ensures QueueDelay(e) == CurrentDelay(e, MinFilter) - BaseDelay(e)
    ensures Spread(e) == CurrentDelay(e, MaxFilter) - BaseDelay(e)
    ensures QueueDelay(e) <= Spread(e)
  {
    var n, b := e.noiseFilter.buffer, e.baseHistory.buffer;
    var k := e.noiseFilter.min as nat;
    var j :| 0 <= j < |b| && |b| - |n| + k <= j && b[j] <= n[k];
    assert BaseDelay(e) <= b[j];
    assert CurrentDelay(e, MinFilter) == n[k];
  }

  /** Hence from the constructor's state, after any run: `Valid`, a
      non-decreasing maximum, and, once a sample has been taken, no
      wrap-around in either difference. */
  lemma ReachableStates(validFlag: bool, acks: seq<Ack>)
    ensures Valid(Run(Initial(validFlag), acks))
    ensures var e := Run(Initial(validFlag), acks);
      e.noiseFilter.buffer != [] ==> BaseDelay(e) <= CurrentDelay(e, MinFilter) <= CurrentDelay(e, MaxFilter)
  {
    RunKeepsValid(Initial(validFlag), acks);
    var e := Run(Initial(validFlag), acks);
    if e.noiseFilter.buffer != [] {
      NoWrapInValidState(e);
    }
  }
}
