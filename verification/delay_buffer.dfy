/**
 The bounded delay buffer (`TestOwdCircBuf` / `DuoOwdCircBuf`): an
 insertion-ordered vector of one-way-delay samples together with the index of
 its minimum and of its maximum sample.

 `AddDelay` appends a sample, moves an extremum index to the new sample only
 on a strict improvement, and, once the vector's length reaches `maxlen`,
 erases the oldest sample and recomputes both indices by a linear rescan of
 positions `1 .. maxlen - 2`. The rescan is modelled with that exact bound;
 `AddDelayKeepsExtrema` shows that it covers every position as long as the
 buffer was shorter than `maxlen` before the call.
 */
module DelayBuffer {
  import opened FixedWidth

  datatype OwdCircBuf = OwdCircBuf(buffer: seq<u32>, min: u32, max: u32)

  /** A freshly initialised buffer: empty, with `min` reset to 0. `max` is left
      uninitialised by the source; it is never read before the first
      `AddDelay` overwrites it, so 0 stands in for it. */
  const Empty: OwdCircBuf := OwdCircBuf([], 0, 0)

  /** Both indices point at existing samples whenever there are any: the
      condition under which reading `buffer[min]` and `buffer[max]` is
      defined. */
  predicate InRange(cb: OwdCircBuf) {
    cb.buffer != [] ==> cb.min as int < |cb.buffer| && cb.max as int < |cb.buffer|
  }

  /** `k` is the earliest position of the smallest sample among `s[..n]`. */
  predicate IsEarliestMinOf(s: seq<u32>, n: nat, k: nat) {
    && k < n <= |s|
    && (forall j :: 0 <= j < n ==> s[k] <= s[j])
    && (forall j :: 0 <= j < k ==> s[k] < s[j])
  }

  /** `k` is the earliest position of the largest sample among `s[..n]`. */
  predicate IsEarliestMaxOf(s: seq<u32>, n: nat, k: nat) {
    && k < n <= |s|
    && (forall j :: 0 <= j < n ==> s[j] <= s[k])
    && (forall j :: 0 <= j < k ==> s[j] < s[k])
  }

  /** "The index of minimum value": for a non-empty buffer, `min` is the
      earliest position holding the smallest sample. */
  predicate MinTracked(cb: OwdCircBuf) {
    cb.buffer != [] ==> IsEarliestMinOf(cb.buffer, |cb.buffer|, cb.min as nat)
  }

  /** The same for `max` and the largest sample. */
  predicate MaxTracked(cb: OwdCircBuf) {
    cb.buffer != [] ==> IsEarliestMaxOf(cb.buffer, |cb.buffer|, cb.max as nat)
  }

  /** The minimum delay of the buffer, or `~0` when it holds no sample. */
  function MinCircBuff(cb: OwdCircBuf): (r: u32)
    requires InRange(cb)
    ensures cb.buffer == [] ==> r == MAX_U32
    ensures cb.buffer != [] ==> r in cb.buffer
    ensures MinTracked(cb) ==> forall j :: 0 <= j < |cb.buffer| ==> r <= cb.buffer[j]
  {
    if |cb.buffer| == 0 then MAX_U32 else cb.buffer[cb.min]
  }

  /** The maximum delay of the buffer, or 0 when it holds no sample. */
  function MaxCircBuff(cb: OwdCircBuf): (r: u32)
    requires InRange(cb)
    ensures cb.buffer == [] ==> r == 0
    ensures cb.buffer != [] ==> r in cb.buffer
    ensures MaxTracked(cb) ==> forall j :: 0 <= j < |cb.buffer| ==> cb.buffer[j] <= r
  {
    if |cb.buffer| == 0 then 0 else cb.buffer[cb.max]
  }

  /** The loop `for (i = 1; i < bound; i++)` that recomputes both indices by
      strict comparison, starting from the running indices `mn` and `mx`.
      When `mn`/`mx` are the earliest extrema of `s[..i]`, the results are
      the earliest extrema of `s[..bound]`. */
  function Rescan(s: seq<u32>, i: nat, bound: u32, mn: u32, mx: u32): (r: (u32, u32))
    requires bound as int <= |s|
    requires mn as int < |s| && mx as int < |s|
    ensures r.0 as int < |s| && r.1 as int < |s|
    ensures i <= bound as int && IsEarliestMinOf(s, i, mn as nat) ==> IsEarliestMinOf(s, bound as nat, r.0 as nat)
    ensures i <= bound as int && IsEarliestMaxOf(s, i, mx as nat) ==> IsEarliestMaxOf(s, bound as nat, r.1 as nat)
    decreases bound as int - i
  {
    if i >= bound as int then (mn, mx)
    else
      var mn' := if s[i] < s[mn] then i as u32 else mn;
      var mx' := if s[i] > s[mx] then i as u32 else mx;
      Rescan(s, i + 1, bound, mn', mx')
  }

  /** Appends `owd`; once the length reaches `maxlen`, evicts the oldest
      sample and rescans. The caller must keep the indices in range and,
      for a non-empty buffer, pass `maxlen >= 1` (otherwise `maxlen - 1`
      wraps and the rescan reads past the end). */
  function AddDelay(cb: OwdCircBuf, owd: u32, maxlen: u32): (r: OwdCircBuf)
    requires InRange(cb)
    requires cb.buffer != [] ==> 1 <= maxlen
    // the first sample seeds both indices and never evicts
    ensures cb.buffer == [] ==> r == OwdCircBuf([owd], 0, 0)
    // later samples are appended, and exactly the oldest one is dropped once
    // the length reaches maxlen
    ensures cb.buffer != [] && |cb.buffer| + 1 < maxlen as int ==> r.buffer == cb.buffer + [owd]
    ensures cb.buffer != [] && |cb.buffer| + 1 >= maxlen as int ==> r.buffer == cb.buffer[1..] + [owd]
    ensures InRange(r)
    // "the maximum permitted length" is never exceeded, and for maxlen >= 2
    // the buffer stays strictly shorter than maxlen
    ensures 1 <= maxlen && |cb.buffer| <= maxlen as int ==> |r.buffer| <= maxlen as int
    ensures 2 <= maxlen && |cb.buffer| < maxlen as int ==> |r.buffer| < maxlen as int
  {
    if |cb.buffer| == 0 then
      OwdCircBuf([owd], 0, 0)
    else
      var s := cb.buffer + [owd];
      var last := Trunc32(|s| - 1);
      var mn := if s[cb.min] > owd then last else cb.min;
      var mx := if s[cb.max] < owd then last else cb.max;
      if |s| >= maxlen as int then
        var t := s[1..];
        var (mn', mx') := Rescan(t, 1, maxlen - 1, 0, 0);
        OwdCircBuf(t, mn', mx')
      else
        OwdCircBuf(s, mn, mx)
  }

  /** While the buffer is shorter than `maxlen`, `AddDelay` keeps both
      indices at the earliest minimum and maximum of the contents: by strict
      comparison on a plain append, and by a rescan that covers every
      remaining position on an eviction. */
  lemma AddDelayKeepsExtrema(cb: OwdCircBuf, owd: u32, maxlen: u32)
    requires InRange(cb)
    requires cb.buffer != [] ==> 1 <= maxlen
    requires |cb.buffer| < maxlen as int
    ensures MinTracked(cb) ==> MinTracked(AddDelay(cb, owd, maxlen))
    ensures MaxTracked(cb) ==> MaxTracked(AddDelay(cb, owd, maxlen))
  {
    if cb.buffer != [] {
      var s := cb.buffer + [owd];
      if |s| >= maxlen as int {
        // the length bound pins the rescan bound to the new length
        var t := s[1..];
        assert |t| == maxlen as int - 1;
        assert IsEarliestMinOf(t, 1, 0) && IsEarliestMaxOf(t, 1, 0);
      } else {
        assert Trunc32(|s| - 1) == |s| - 1;
        if MinTracked(cb) {
          assert IsEarliestMinOf(s, |cb.buffer|, cb.min as nat);
        }
        if MaxTracked(cb) {
          assert IsEarliestMaxOf(s, |cb.buffer|, cb.max as nat);
        }
      }
    }
  }

  /** Without the length bound the rescan is incomplete: a buffer already
      two samples over its limit `maxlen = 2` keeps its length, the rescan
      visits no position, and `min` lands on a sample that is not the
      minimum. */
  lemma RescanNeedsLengthBound()
    ensures var r := AddDelay(OwdCircBuf([5, 9, 1], 2, 1), 7, 2);
            r.buffer == [9, 1, 7] && r.min == 0 && !MinTracked(r)
  {
    var r := AddDelay(OwdCircBuf([5, 9, 1], 2, 1), 7, 2);
    assert r.buffer == [9, 1, 7];
    assert r.buffer[1] < r.buffer[r.min];
  }

  /** The last `n` samples of `s` (all of them when there are fewer). */
  function Latest(s: seq<u32>, n: nat): (r: seq<u32>)
    ensures |r| <= n && |r| <= |s|
  {
    if |s| <= n then s else s[|s| - n..]
  }

  /** Inserting the samples `xs` in order. */
  function AddAll(cb: OwdCircBuf, xs: seq<u32>, maxlen: u32): (r: OwdCircBuf)
    requires InRange(cb) && 1 <= maxlen
    ensures InRange(r)
    decreases |xs|
  {
    if xs == [] then cb else AddAll(AddDelay(cb, xs[0], maxlen), xs[1..], maxlen)
  }

  lemma AddAllUnfold(cb: OwdCircBuf, xs: seq<u32>, maxlen: u32)
    requires InRange(cb) && 1 <= maxlen && xs != []
    ensures AddAll(cb, xs, maxlen) == AddAll(AddDelay(cb, xs[0], maxlen), xs[1..], maxlen)
  {
  }

  /** The same step over plain sequences: `c` is the window after the
      first sample and `r` the window of `c` followed by the rest. */
  lemma WindowChain(a: seq<u32>, x: u32, xs: seq<u32>, w: nat, c: seq<u32>, r: seq<u32>)
    requires c == Latest(a + [x], w)
    requires r == Latest(c + xs, w)
    ensures r == Latest(a + ([x] + xs), w)
  {
    LatestOfLatest(a + [x], xs, w);
    assert a + [x] + xs == a + ([x] + xs);
  }

  /** A buffer of length `maxlen >= 2` is a sliding window: it holds exactly
      the latest `maxlen - 1` samples in arrival order. */
  lemma {:induction false} AddAllIsWindow(cb: OwdCircBuf, xs: seq<u32>, maxlen: u32)
    requires InRange(cb) && 2 <= maxlen
    requires |cb.buffer| < maxlen as int
    ensures AddAll(cb, xs, maxlen).buffer == Latest(cb.buffer + xs, maxlen as nat - 1)
    decreases |xs|, 1
  {
    if xs == [] {
      assert cb.buffer + xs == cb.buffer;
    } else {
      AddAllWindowStep(cb, xs, maxlen, maxlen as nat - 1);
    }
  }

  /** The inductive step of `AddAllIsWindow`: one insertion and then the
      rest is the window over all of them; `w` is the window's width. */
  lemma {:induction false} AddAllWindowStep(cb: OwdCircBuf, xs: seq<u32>, maxlen: u32, w: nat)
    requires InRange(cb) && 2 <= maxlen && w + 1 == maxlen as int && xs != []
    requires |cb.buffer| < maxlen as int
    ensures AddAll(cb, xs, maxlen).buffer == Latest(cb.buffer + xs, w)
    decreases |xs|, 0
  {
    var x, rest := xs[0], xs[1..];
    var cb' := AddDelay(cb, x, maxlen);
    var r := AddAll(cb, xs, maxlen).buffer;
    assert cb'.buffer == Latest(cb.buffer + [x], w) by {
      AddDelayIsWindow(cb, x, maxlen);
    }
    assert r == Latest(cb'.buffer + rest, w) by {
      AddAllIsWindow(cb', rest, maxlen);
      AddAllUnfold(cb, xs, maxlen);
    }
    WindowChain(cb.buffer, x, rest, w, cb'.buffer, r);
    assert [x] + rest == xs;
  }

  /** ... and its indices stay at the earliest minimum and maximum. */
  lemma {:induction false} AddAllKeepsExtrema(cb: OwdCircBuf, xs: seq<u32>, maxlen: u32)
    requires InRange(cb) && 2 <= maxlen
    requires |cb.buffer| < maxlen as int
    requires MinTracked(cb) && MaxTracked(cb)
    ensures MinTracked(AddAll(cb, xs, maxlen)) && MaxTracked(AddAll(cb, xs, maxlen))
    decreases |xs|
  {
    if xs != [] {
      var cb' := AddDelay(cb, xs[0], maxlen);
      assert AddAll(cb, xs, maxlen) == AddAll(cb', xs[1..], maxlen);
      AddDelayKeepsExtrema(cb, xs[0], maxlen);
      AddAllKeepsExtrema(cb', xs[1..], maxlen);
    }
  }

  /** The new sample always ends the buffer, and below the length bound
      the buffer is the window of the latest `maxlen - 1` samples. */
  lemma AddDelayEndsWith(cb: OwdCircBuf, x: u32, maxlen: u32)
    requires InRange(cb)
    requires cb.buffer != [] ==> 1 <= maxlen
    ensures var r := AddDelay(cb, x, maxlen);
      && r.buffer != [] && r.buffer[|r.buffer| - 1] == x
      && (2 <= maxlen && |cb.buffer| < maxlen as int ==> r.buffer == Latest(cb.buffer + [x], maxlen as nat - 1))
  {
    if 2 <= maxlen && |cb.buffer| < maxlen as int {
      AddDelayIsWindow(cb, x, maxlen);
    }
  }

  lemma AddDelayIsWindow(cb: OwdCircBuf, x: u32, maxlen: u32)
    requires InRange(cb) && 2 <= maxlen
    requires |cb.buffer| < maxlen as int
    ensures AddDelay(cb, x, maxlen).buffer == Latest(cb.buffer + [x], maxlen as nat - 1)
  {
    var s := cb.buffer + [x];
    if |s| > maxlen as int - 1 {
      assert s[|s| - (maxlen as int - 1)..] == s[1..];
      if cb.buffer != [] {
        assert s[1..] == cb.buffer[1..] + [x];
      }
    }
  }

  lemma LatestOfLatest(s: seq<u32>, t: seq<u32>, n: nat)
    ensures Latest(Latest(s, n) + t, n) == Latest(s + t, n)
  {
    if |s| > n {
      var l := s[|s| - n..];
      if |l + t| > n {
        assert (l + t)[|l + t| - n..] == (s + t)[|s + t| - n..];
      } else {
        assert t == [];
        assert s + t == s;
      }
    }
  }
}
