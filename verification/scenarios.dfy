/**
 Worked examples of the buffer and the estimator on concrete inputs.
 */
module LedbatScenarios {
  import opened FixedWidth
  import opened DelayBuffer
  import opened Ledbat
  import opened LedbatInvariants

  /** After `k >= 7` delays, a noise filter of length 8 holds the latest
      seven of them, and its recorded extrema are theirs. */
  lemma FilterOfEight(xs: seq<u32>)
    requires |xs| >= 7
    ensures AddAll(Empty, xs, 8).buffer == xs[|xs| - 7..]
    ensures MinTracked(AddAll(Empty, xs, 8)) && MaxTracked(AddAll(Empty, xs, 8))
  {
    AddAllIsWindow(Empty, xs, 8);
    AddAllKeepsExtrema(Empty, xs, 8);
    assert [] + xs == xs;
  }

  /** The extrema a tracked buffer holding the seven latest samples of the
      scenario below reports. */
  lemma ScenarioExtrema(cb: OwdCircBuf)
    requires InRange(cb) && MinTracked(cb) && MaxTracked(cb)
    ensures cb.buffer == [30, 80, 20, 60, 40, 90, 10] ==> MinCircBuff(cb) == 10 && MaxCircBuff(cb) == 90
    ensures cb.buffer == [80, 20, 60, 40, 90, 10, 5] ==> MinCircBuff(cb) == 5
  {
    if cb.buffer == [30, 80, 20, 60, 40, 90, 10] {
      assert MinCircBuff(cb) <= cb.buffer[6] && MinCircBuff(cb) in cb.buffer;
      assert MaxCircBuff(cb) >= cb.buffer[5] && MaxCircBuff(cb) in cb.buffer;
    }
    if cb.buffer == [80, 20, 60, 40, 90, 10, 5] {
      assert MinCircBuff(cb) <= cb.buffer[6] && MinCircBuff(cb) in cb.buffer;
    }
  }

  /** Eight delays into a noise filter of length 8: the filter keeps the
      latest seven, so the 50 is already gone, and its minimum and maximum
      are 10 and 90. The delays are a parameter fixed by the precondition,
      not a literal inside the contract, so that the proof goes through the
      general `FilterOfEight` instead of unfolding `AddAll` on the literal
      eight times; the same holds for the next lemma. */
  lemma NoiseFilterScenario(xs: seq<u32>)
    requires xs == [50, 30, 80, 20, 60, 40, 90, 10]
    ensures var cb := AddAll(Empty, xs, 8);
      && cb.buffer == [30, 80, 20, 60, 40, 90, 10]
      && MinCircBuff(cb) == 10 && MaxCircBuff(cb) == 90
  {
    FilterOfEight(xs);
    assert xs[1..] == [30, 80, 20, 60, 40, 90, 10];
    ScenarioExtrema(AddAll(Empty, xs, 8));
  }

  /** A ninth delay 5 evicts the 30, not the 50, which had already gone, and
      becomes the minimum. */
  lemma NoiseFilterNinthScenario(ys: seq<u32>)
    requires ys == [50, 30, 80, 20, 60, 40, 90, 10, 5]
    ensures var cb := AddAll(Empty, ys, 8);
      && cb.buffer == [80, 20, 60, 40, 90, 10, 5]
      && MinCircBuff(cb) == 5
  {
    FilterOfEight(ys);
    assert ys[2..] == [80, 20, 60, 40, 90, 10, 5];
    ScenarioExtrema(AddAll(Empty, ys, 8));
  }

  /** Before any sample the spread wraps around: the empty noise filter's
      maximum is 0 and the empty base history's minimum is `~0`. The wrap
      is harmless, because `m_maxObserved` is still 0 and selects the
      fallback branch of the threshold. */
  lemma BeforeFirstSample(validFlag: bool, flavour: Flavour, segmentSize: u32, ssThresh: u32, bytesInFlight: u32)
    ensures Spread(Initial(validFlag)) == 1
    ensures GetSsThresh(Initial(validFlag), flavour, segmentSize, ssThresh, bytesInFlight)
         == Max(Mul32(2, segmentSize), bytesInFlight / 2)
  {
  }

  /** Without usable timestamps the threshold is half the flight size, here
      `max(2920, 10000)`, whichever bound the flavour would use. */
  lemma FallbackScenario(e: Estimator, flavour: Flavour)
    requires InRange(e.noiseFilter) && InRange(e.baseHistory)
    requires !e.validFlag
    ensures GetSsThresh(e, flavour, 1460, 15000, 20000) == 10000
  {
  }

  /** The state after a first delay of 100: both buffers hold it alone, and
      no epoch has started. */
  function SeededWith100(): Estimator {
    Estimator(10, 8, 0, OwdCircBuf([100], 0, 0), OwdCircBuf([100], 0, 0), true, 0)
  }

  /** The first usable delay seeds both buffers whatever the time. */
  lemma FirstDelay(validFlag: bool, nowSec: u64)
    ensures Step(Initial(validFlag), Ack(101, 1, true, nowSec)) == SeededWith100()
  {
  }

  /** Two delays, 100 then 80, five seconds into the connection: the first
      seeds the base history and the second, inside the first epoch, lowers
      that entry instead of adding one. */
  lemma InEpochScenario(validFlag: bool)
    ensures var e := Step(Step(Initial(validFlag), Ack(101, 1, true, 5)), Ack(81, 1, true, 5));
      && e.baseHistory.buffer == [80]
      && e.noiseFilter.buffer == [100, 80]
      && e.lastRollover == 0
  {
    FirstDelay(validFlag, 5);
    var e := Step(SeededWith100(), Ack(81, 1, true, 5));
    assert e.baseHistory.buffer == [80] && e.lastRollover == 0;
    assert e.noiseFilter.buffer == [100, 80];
  }

  /** Seeding the base history does not start an epoch: the same two delays
      at second 100 give two entries, because the second finds
      `100 - m_lastRollover = 100 > 60` and rolls over. */
  lemma SeedStartsNoEpoch(validFlag: bool)
    ensures var e := Step(Step(Initial(validFlag), Ack(101, 1, true, 100)), Ack(81, 1, true, 100));
      && e.baseHistory.buffer == [100, 80]
      && e.lastRollover == 100
  {
    FirstDelay(validFlag, 100);
    var e := Step(SeededWith100(), Ack(81, 1, true, 100));
    assert [100] + [80] == [100, 80];
    assert e.baseHistory.buffer == [100, 80] && e.lastRollover == 100;
  }

  /** A zero timestamp leaves the buffers alone but clears the flag, which
      switches the threshold back to halving. */
  lemma ZeroTimestampScenario(validFlag: bool)
    ensures var e := Step(Step(Initial(validFlag), Ack(101, 1, true, 5)), Ack(0, 1, true, 6));
      && !e.validFlag
      && e.noiseFilter.buffer == [100] && e.baseHistory.buffer == [100]
      && GetSsThresh(e, TcpDuo, 1000, 7000, 30000) == 15000
  {
    FirstDelay(validFlag, 5);
    var e := Step(SeededWith100(), Ack(0, 1, true, 6));
    assert e == SeededWith100().(validFlag := false);
  }

  /** The in-epoch overwrite never moves `max`, so the base history's `max`
      can stop pointing at its maximum. The base history's `max` is read only
      to update `max` itself in `AddDelay` and never reaches an output, so
      this has no effect on the estimator's outputs. */
  lemma BaseHistoryMaxGoesStale()
    ensures var e := Estimator(10, 8, 0, OwdCircBuf([5, 10], 0, 1), Empty, true, 0);
      var r := UpdateBaseDelay(e, 3, 0);
      && r.baseHistory == OwdCircBuf([5, 3], 1, 1)
      && MinTracked(r.baseHistory)
      && !MaxTracked(r.baseHistory)
  {
    var e := Estimator(10, 8, 0, OwdCircBuf([5, 10], 0, 1), Empty, true, 0);
    var r := UpdateBaseDelay(e, 3, 0);
    assert r.baseHistory.buffer == [5, 3];
    assert r.baseHistory.buffer[0] > r.baseHistory.buffer[1];
  }
}
