/**
 Properties of the threshold and worked scenarios of the estimator.

 `IdealSsThresh` reads the threshold formula over mathematical integers, with
 a non-positive spread meaning "no queueing"; `SsThreshMatchesIdeal` shows
 the fixed-width computation agrees with it in every reachable state that
 holds a sample and whose products do not overflow. The remaining lemmas pin down behaviour on
 concrete inputs, including the corners where the code's arithmetic or
 epoch bookkeeping departs from a naive reading.
 */
module LedbatProperties {
  import opened FixedWidth
  import opened DelayBuffer
  import opened Ledbat
  import opened LedbatInvariants

  /** The threshold over unbounded integers: halve the flight size without a
      signal, keep the bound when the current maximum does not exceed the
      base delay, otherwise scale the flight size by
      `maxObserved / (2 * spread)` and clamp. */
  function IdealSsThresh(valid: bool, maxObserved: int, currentMax: int, baseDelay: int,
                         flavour: Flavour, segmentSize: int, ssThresh: int, bytesInFlight: int): int
  {
    var cap := if flavour == TcpTest then bytesInFlight + segmentSize else ssThresh;
    if !valid || maxObserved == 0 then Max(2 * segmentSize, bytesInFlight / 2)
    else if currentMax - baseDelay <= 0 then cap
    else Max(2 * segmentSize, Min(bytesInFlight * maxObserved / (2 * (currentMax - baseDelay)), cap))
  }

  /** In a reachable state with samples, and as long as the products and sums
      fit in 32 bits, the fixed-width threshold is the integer formula. */
  lemma SsThreshMatchesIdeal(e: Estimator, flavour: Flavour, segmentSize: u32, ssThresh: u32, bytesInFlight: u32)
    requires Valid(e) && e.noiseFilter.buffer != []
    requires 2 * segmentSize < TWO_TO_THE_32
    requires flavour == TcpTest ==> bytesInFlight + segmentSize < TWO_TO_THE_32
    requires bytesInFlight * e.maxObserved < TWO_TO_THE_32
    requires 2 * (CurrentDelay(e, MaxFilter) - BaseDelay(e)) < TWO_TO_THE_32
    ensures GetSsThresh(e, flavour, segmentSize, ssThresh, bytesInFlight)
         == IdealSsThresh(e.validFlag, e.maxObserved, CurrentDelay(e, MaxFilter), BaseDelay(e),
                          flavour, segmentSize, ssThresh, bytesInFlight)
  {
    NoWrapInValidState(e);
    var spread := CurrentDelay(e, MaxFilter) - BaseDelay(e);
    assert Spread(e) == spread;
    assert Mul32(2, segmentSize) == 2 * segmentSize;
    if spread != 0 {
      assert Mul32(2, spread) == 2 * spread;
      assert Mul32(bytesInFlight, e.maxObserved) == bytesInFlight * e.maxObserved;
    }
  }

  /** The formula's premise is needed: in a state where the current maximum
      is below the base delay (not reachable from the constructor once a
      sample has been taken, see `ReachableStates`), the unsigned spread wraps to a large value and the
      scaling branch runs instead of returning the bound. */
  lemma WrappedSpreadScales()
    ensures var e := Estimator(10, 8, 0, OwdCircBuf([100], 0, 0), OwdCircBuf([40], 0, 0), true, 7);
      && Spread(e) == TWO_TO_THE_32 - 60
      && GetSsThresh(e, TcpTest, 1000, 0, 50000) == 2000
      && IdealSsThresh(true, 7, 40, 100, TcpTest, 1000, 0, 50000) == 51000
  {
    var e := Estimator(10, 8, 0, OwdCircBuf([100], 0, 0), OwdCircBuf([40], 0, 0), true, 7);
    assert CurrentDelay(e, MaxFilter) == 40 && BaseDelay(e) == 100;
    assert Mul32(2, Spread(e)) == TWO_TO_THE_32 - 120;
  }

  /** The two classes agree whenever their bounds agree: `TcpDuo` with
      `ssThresh` equal to `bytesInFlight + segmentSize` is `TcpTest`, and
      without a queueing signal the bound is not consulted at all. */
  lemma FlavoursDifferOnlyInCap(e: Estimator, segmentSize: u32, ssThresh: u32, bytesInFlight: u32)
    requires InRange(e.noiseFilter) && InRange(e.baseHistory)
    requires e.validFlag && e.maxObserved != 0 && Spread(e) != 0 ==> Mul32(2, Spread(e)) != 0
    ensures ssThresh == Add32(bytesInFlight, segmentSize) || !e.validFlag || e.maxObserved == 0 ==>
      GetSsThresh(e, TcpDuo, segmentSize, ssThresh, bytesInFlight)
        == GetSsThresh(e, TcpTest, segmentSize, ssThresh, bytesInFlight)
  {
  }

  /** `TcpDuo` never raises the threshold above the larger of two segments
      and the current `ssThresh` once a queueing signal exists. */
  lemma DuoThresholdBounded(e: Estimator, segmentSize: u32, ssThresh: u32, bytesInFlight: u32)
    requires InRange(e.noiseFilter) && InRange(e.baseHistory)
    requires e.validFlag && e.maxObserved != 0
    requires Spread(e) != 0 ==> Mul32(2, Spread(e)) != 0
    ensures GetSsThresh(e, TcpDuo, segmentSize, ssThresh, bytesInFlight) <= Max(Mul32(2, segmentSize), ssThresh)
    ensures Spread(e) == 0 ==> GetSsThresh(e, TcpDuo, segmentSize, ssThresh, bytesInFlight) == ssThresh
  {
  }

  /** `k` copies of the delay 10. */
  function Tens(k: nat): (r: seq<u32>)
    ensures |r| == k && forall i :: 0 <= i < k ==> r[i] == 10
  {
    seq(k, _ => 10)
  }

  /** `k` acknowledgments whose delay is 10, all at time 0. */
  function TenAcks(k: nat): (r: seq<Ack>)
    ensures |r| == k && forall i :: 0 <= i < k ==> r[i] == TEN
  {
    seq(k, _ => TEN)
  }

  const SEED: Ack := Ack(6, 1, true, 0)
  const TEN: Ack := Ack(11, 1, true, 0)
  const HUGE: Ack := Ack(0x8000_0006, 1, true, 0)

  /** A state of the run in `ZeroDivisorReachable`: the base history holds
      the single entry 5 and the epoch never expires. */
  function Seeded(noise: seq<u32>, mx: u32, maxObserved: u32): Estimator {
    Estimator(10, 8, 0, OwdCircBuf([5], 0, 0), OwdCircBuf(noise, 0, mx), true, maxObserved)
  }

  lemma StepSeed()
    ensures Step(Initial(false), SEED) == Mid(0)
  {
    assert [5] + Tens(0) == [5];
  }

  /** The state after the seed and `k` delays of 10. */
  function Mid(k: nat): Estimator {
    Seeded([5] + Tens(k), if k == 0 then 0 else 1, 0)
  }

  /** The acknowledgments still to come at `Mid(k)`. */
  function Tail(k: nat): seq<Ack>
    requires k <= 7
  {
    TenAcks(7 - k) + [HUGE]
  }

  /** The state the run ends in. */
  function Final(): Estimator {
    Seeded(Tens(6) + [0x8000_0005], 6, 5)
  }

  /** While the noise filter has room, a delay of 10 is appended behind the
      5 and the 10s already there, and nothing else changes. */
  lemma StepTen(k: nat)
    requires k <= 5
    ensures Step(Mid(k), TEN) == Mid(k + 1)
  {
    assert [5] + Tens(k) + [10] == [5] + Tens(k + 1);
  }

  /** The seventh delay of 10 fills the noise filter: the 5 is evicted, the
      minimum rises to 10, and the queueing delay 10 - 5 is recorded. */
  lemma StepFlush()
    ensures Step(Mid(6), TEN) == Seeded(Tens(7), 0, 5)
  {
    assert ([5] + Tens(6) + [10])[1..] == Tens(7);
  }

  /** A delay of `2^31 + 5` evicts a 10 and becomes the maximum. */
  lemma StepHuge()
    ensures Step(Seeded(Tens(7), 0, 5), HUGE) == Final()
  {
    assert (Tens(7) + [0x8000_0005])[1..] == Tens(6) + [0x8000_0005];
  }

  lemma RunCons(e: Estimator, a: Ack, rest: seq<Ack>)
    requires Safe(e)
    ensures Run(e, [a] + rest) == Run(Step(e, a), rest)
  {
    assert ([a] + rest)[1..] == rest;
  }

  lemma RunHuge()
    ensures Run(Seeded(Tens(7), 0, 5), [HUGE]) == Final()
  {
    RunCons(Seeded(Tens(7), 0, 5), HUGE, []);
    StepHuge();
    assert [HUGE] + [] == [HUGE];
  }

  lemma RunLastTwo()
    ensures Run(Mid(6), Tail(6)) == Final()
  {
    assert Tail(6) == [TEN] + [HUGE];
    RunCons(Mid(6), TEN, [HUGE]);
    StepFlush();
    RunHuge();
  }

  /** One delay of 10 from the front of the remaining run. */
  lemma RunTensStep(k: nat)
    requires k < 6
    ensures Run(Mid(k), Tail(k)) == Run(Mid(k + 1), Tail(k + 1))
  {
    assert Tail(k) == [TEN] + Tail(k + 1);
    RunCons(Mid(k), TEN, Tail(k + 1));
    StepTen(k);
  }

  lemma {:induction false} RunTens(k: nat)
    requires k <= 6
    ensures Run(Mid(k), Tail(k)) == Final()
    decreases 6 - k
  {
    if k == 6 {
      RunLastTwo();
    } else {
      RunTensStep(k);
      RunTens(k + 1);
    }
  }

  /** The acknowledgments of `ZeroDivisorReachable`. */
  function ZeroDivisorAcks(): seq<Ack> {
    [SEED] + TenAcks(7) + [HUGE]
  }

  lemma RunFromInitial()
    ensures Run(Initial(false), ZeroDivisorAcks()) == Final()
  {
    assert ZeroDivisorAcks() == [SEED] + Tail(0);
    RunCons(Initial(false), SEED, Tail(0));
    StepSeed();
    RunTens(0);
  }

  /** In the final state the base delay is 5 and the current maximum `2^31 + 5`. */
  lemma LastStateSpread()
    ensures Spread(Final()) == 0x8000_0000 && Mul32(2, Spread(Final())) == 0
  {
    var e := Final();
    assert CurrentDelay(e, MaxFilter) == 0x8000_0005;
    assert BaseDelay(e) == 5;
  }

  /** The doubled spread can wrap to zero in a reachable state: with all
      acknowledgments inside the first epoch, a delay of 5 seeds the base
      history, seven delays of 10 flush it from the noise filter (recording a
      queueing delay of 5), and a delay of `2^31 + 5` makes the spread
      exactly `2^31`, for which the threshold's divisor is 0. */
  lemma ZeroDivisorReachable()
    ensures var e := Run(Initial(false), ZeroDivisorAcks());
      && e.validFlag && e.maxObserved == 5
      && Spread(e) == 0x8000_0000
      && Mul32(2, Spread(e)) == 0
  {
    RunFromInitial();
    LastStateSpread();
  }
}
