/**
 The delay estimator shared by `TcpTest` and `TcpDuo`.

 The estimator keeps a short "noise filter" of recent one-way delays and a
 longer "base history" holding one minimum per 60-second epoch. On every
 acknowledgment with usable timestamps it feeds the delay `TSval - TSecr`
 (section 3.2 of RFC 7323) into both buffers and records the largest queueing
 delay seen so far; the slow-start threshold is then scaled by how that
 maximum compares to the current spread between the noise filter's maximum
 and the base delay. The two source classes differ only in the bound used by
 the threshold, which is the `Flavour` parameter here.

 The host's clock is the argument `nowSec` (the simulator time truncated to
 whole seconds); the socket state is reduced to the integers the estimator
 reads.
 */
module Ledbat {
  import opened FixedWidth
  import opened DelayBuffer

  /** Which of the two classes is modelled: `TcpTest` bounds the threshold by
      `bytesInFlight + segmentSize`, `TcpDuo` by the socket's current
      `ssThresh`. */
  datatype Flavour = TcpTest | TcpDuo {
    function Cap(segmentSize: u32, bytesInFlight: u32, ssThresh: u32): u32 {
      match this
      case TcpTest => Add32(bytesInFlight, segmentSize)
      case TcpDuo => ssThresh
    }
  }

  /** The `FilterFunction` handed to `CurrentDelay`. */
  datatype Filter = MinFilter | MaxFilter

  datatype Estimator = Estimator(
    baseHistoLen: u32,
    noiseFilterLen: u32,
    lastRollover: u64,
    baseHistory: OwdCircBuf,
    noiseFilter: OwdCircBuf,
    validFlag: bool,
    maxObserved: u32)

  /** Length of an epoch of the base history, in seconds. */
  const ROLLOVER_SECONDS: int := 60

  /** The state left by the default constructor. `m_validFlag` is never
      initialised there, so its value is a parameter. */
  function Initial(validFlag: bool): (e: Estimator)
    ensures Valid(e)
    ensures e.baseHistory.buffer == [] && e.noiseFilter.buffer == []
    ensures e.validFlag == validFlag
    ensures e.baseHistoLen == 10 && e.noiseFilterLen == 8
    ensures e.lastRollover == 0 && e.maxObserved == 0
  {
    Estimator(10, 8, 0, Empty, Empty, validFlag, 0)
  }

  /** What the source needs to read its buffers without undefined behaviour:
      indices in range, and non-zero configured lengths (a zero `maxlen`
      makes the rescan bound `maxlen - 1` wrap). Each buffer is also within
      its documented maximum length, which keeps `size() - 1` within a
      `uint32_t`. */
  predicate Safe(e: Estimator) {
    && InRange(e.noiseFilter)
    && InRange(e.baseHistory)
    && 1 <= e.noiseFilterLen && 1 <= e.baseHistoLen
    && |e.noiseFilter.buffer| <= e.noiseFilterLen as int
    && |e.baseHistory.buffer| <= e.baseHistoLen as int
  }

  /** Every sample of the noise filter has, among the base-history entries
      recorded no earlier than that sample, one that is no larger: position
      `i` of the noise filter is matched in the last `|noise| - i` entries of
      the base history. */
  predicate Covered(noise: seq<u32>, base: seq<u32>) {
    forall i :: 0 <= i < |noise| ==>
      exists j :: 0 <= j < |base| && |base| - |noise| + i <= j && base[j] <= noise[i]
  }

  /** The invariant of every state reachable from `Initial`. */
  predicate Valid(e: Estimator) {
    && Safe(e)
    && 2 <= e.noiseFilterLen < e.baseHistoLen
    && |e.noiseFilter.buffer| < e.noiseFilterLen as int
    && |e.baseHistory.buffer| < e.baseHistoLen as int
    && MinTracked(e.noiseFilter)
    && MaxTracked(e.noiseFilter)
    && MinTracked(e.baseHistory)
    && Covered(e.noiseFilter.buffer, e.baseHistory.buffer)
    && (e.noiseFilter.buffer != [] ==> QueueDelay(e) <= e.maxObserved)
  }

  /** The noise filter's minimum or maximum. */
  function CurrentDelay(e: Estimator, filter: Filter): (r: u32)
    requires InRange(e.noiseFilter)
    ensures e.noiseFilter.buffer == [] ==> r == (if filter == MinFilter then MAX_U32 else 0)
    ensures e.noiseFilter.buffer != [] ==> r in e.noiseFilter.buffer
    ensures filter == MinFilter && MinTracked(e.noiseFilter) ==>
      forall j :: 0 <= j < |e.noiseFilter.buffer| ==> r <= e.noiseFilter.buffer[j]
    ensures filter == MaxFilter && MaxTracked(e.noiseFilter) ==>
      forall j :: 0 <= j < |e.noiseFilter.buffer| ==> e.noiseFilter.buffer[j] <= r
  {
    match filter
    case MinFilter => MinCircBuff(e.noiseFilter)
    case MaxFilter => MaxCircBuff(e.noiseFilter)
  }

  /** The base delay: the minimum of the base history. */
  function BaseDelay(e: Estimator): (r: u32)
    requires InRange(e.baseHistory)
    ensures e.baseHistory.buffer == [] ==> r == MAX_U32
    ensures e.baseHistory.buffer != [] ==> r in e.baseHistory.buffer
    ensures MinTracked(e.baseHistory) ==>
      forall j :: 0 <= j < |e.baseHistory.buffer| ==> r <= e.baseHistory.buffer[j]
  {
    MinCircBuff(e.baseHistory)
  }

  /** `queue_delay`: current minimum less base delay, as a `uint32_t`. */
  function QueueDelay(e: Estimator): u32
    requires InRange(e.noiseFilter) && InRange(e.baseHistory)
  {
    Sub32(CurrentDelay(e, MinFilter), BaseDelay(e))
  }

  /** `spread`: current maximum less base delay, as a `uint32_t`. */
  function Spread(e: Estimator): u32
    requires InRange(e.noiseFilter) && InRange(e.baseHistory)
  {
    Sub32(CurrentDelay(e, MaxFilter), BaseDelay(e))
  }

  /** Feeds a sample to the noise filter; nothing else changes. Below its
      length bound the filter becomes the latest `noiseFilterLen - 1`
      samples of its old contents followed by the new one. */
  function UpdateCurrentDelay(e: Estimator, owd: u32): (r: Estimator)
    requires Safe(e)
    ensures Safe(r)
    ensures r == e.(noiseFilter := r.noiseFilter)
    ensures r.noiseFilter.buffer != [] && r.noiseFilter.buffer[|r.noiseFilter.buffer| - 1] == owd
    ensures 2 <= e.noiseFilterLen && |e.noiseFilter.buffer| < e.noiseFilterLen as int ==>
      r.noiseFilter.buffer == Latest(e.noiseFilter.buffer + [owd], e.noiseFilterLen as nat - 1)
  {
    AddDelayEndsWith(e.noiseFilter, owd, e.noiseFilterLen);
    e.(noiseFilter := AddDelay(e.noiseFilter, owd, e.noiseFilterLen))
  }

  /** More than 60 seconds have passed since the last rollover, the
      difference taken on `uint64_t`. */
  predicate EpochExpired(e: Estimator, nowSec: u64) {
    Sub64(nowSec, e.lastRollover) > ROLLOVER_SECONDS
  }

  /** The base-history policy: the first sample seeds the history; a sample
      arriving after the epoch expired starts a new entry and restarts the
      epoch; any other sample only lowers the newest entry. */
  function UpdateBaseDelay(e: Estimator, owd: u32, nowSec: u64): (r: Estimator)
    requires Safe(e)
    ensures Safe(r)
    ensures r == e.(baseHistory := r.baseHistory, lastRollover := r.lastRollover)
    // seeding: the sample alone, and the epoch is not restarted
    ensures e.baseHistory.buffer == [] ==>
      r.baseHistory.buffer == [owd] && r.lastRollover == e.lastRollover
    // rollover: a new entry holding the sample, and the epoch restarts now
    ensures e.baseHistory.buffer != [] && EpochExpired(e, nowSec) ==>
      && r.lastRollover == nowSec
      && r.baseHistory == AddDelay(e.baseHistory, owd, e.baseHistoLen)
      && r.baseHistory.buffer[|r.baseHistory.buffer| - 1] == owd
    // within the epoch: same length, only the newest entry may be lowered
    ensures e.baseHistory.buffer != [] && !EpochExpired(e, nowSec) ==>
      var b, b' := e.baseHistory.buffer, r.baseHistory.buffer;
      && r.lastRollover == e.lastRollover
      && |b'| == |b|
      && b'[..|b| - 1] == b[..|b| - 1]
      && b'[|b| - 1] == Min(b[|b| - 1], owd)
      && r.baseHistory.max == e.baseHistory.max
  {
    if |e.baseHistory.buffer| == 0 then
      e.(baseHistory := AddDelay(e.baseHistory, owd, e.baseHistoLen))
    else if EpochExpired(e, nowSec) then
      e.(lastRollover := nowSec, baseHistory := AddDelay(e.baseHistory, owd, e.baseHistoLen))
    else
      var cb := e.baseHistory;
      var last := Trunc32(|cb.buffer| - 1);
      if owd < cb.buffer[last] then
        var buf := cb.buffer[last := owd];
        var mn := if owd < buf[cb.min] then last else cb.min;
        e.(baseHistory := OwdCircBuf(buf, mn, cb.max))
      else
        e
  }

  /** What feeding the sample `owd` at time `nowSec` to both buffers of `e`
      leaves in `r`: the noise filter ends with the sample and, below its
      length bound, is the latest `noiseFilterLen - 1` samples of its old
      contents followed by the sample; the base history is what the epoch
      policy `UpdateBaseDelay` makes of it, so it ends with an entry no
      larger than the sample; the epoch restarts exactly when the base
      history was not empty and the epoch had expired; the configured
      lengths stay. */
  predicate Fed(e: Estimator, r: Estimator, owd: u32, nowSec: u64)
    requires Safe(e)
  {
    && r.baseHistoLen == e.baseHistoLen && r.noiseFilterLen == e.noiseFilterLen
    && r.noiseFilter.buffer != [] && r.noiseFilter.buffer[|r.noiseFilter.buffer| - 1] == owd
    && (2 <= e.noiseFilterLen && |e.noiseFilter.buffer| < e.noiseFilterLen as int ==>
          r.noiseFilter.buffer == Latest(e.noiseFilter.buffer + [owd], e.noiseFilterLen as nat - 1))
    && r.baseHistory == UpdateBaseDelay(e, owd, nowSec).baseHistory
    && r.baseHistory.buffer != [] && r.baseHistory.buffer[|r.baseHistory.buffer| - 1] <= owd
    && r.lastRollover == (if e.baseHistory.buffer != [] && EpochExpired(e, nowSec) then nowSec else e.lastRollover)
  }

  /** The epoch policy reads only the base history, `m_lastRollover` and
      the history's length. */
  lemma UpdateBaseDelayReadsHistoryOnly(e: Estimator, e': Estimator, owd: u32, nowSec: u64)
    requires Safe(e) && Safe(e')
    requires e'.baseHistory == e.baseHistory && e'.lastRollover == e.lastRollover
    requires e'.baseHistoLen == e.baseHistoLen
    ensures UpdateBaseDelay(e', owd, nowSec).baseHistory == UpdateBaseDelay(e, owd, nowSec).baseHistory
    ensures UpdateBaseDelay(e', owd, nowSec).lastRollover == UpdateBaseDelay(e, owd, nowSec).lastRollover
  {
  }

  /** Whatever branch of the epoch policy runs, the base history ends with
      an entry no larger than the sample, and the epoch restarts exactly on
      a rollover. */
  lemma UpdateBaseDelayEndsAtMost(e: Estimator, owd: u32, nowSec: u64)
    requires Safe(e)
    ensures var r := UpdateBaseDelay(e, owd, nowSec);
      && r.baseHistory.buffer != [] && r.baseHistory.buffer[|r.baseHistory.buffer| - 1] <= owd
      && r.lastRollover == (if e.baseHistory.buffer != [] && EpochExpired(e, nowSec) then nowSec else e.lastRollover)
  {
  }

  /** One sample fed to both buffers, the noise filter first; nothing but
      the buffers and the epoch start changes. */
  function Feed(e: Estimator, owd: u32, nowSec: u64): (r: Estimator)
    requires Safe(e)
    ensures Safe(r)
    ensures r == e.(noiseFilter := r.noiseFilter, baseHistory := r.baseHistory, lastRollover := r.lastRollover)
    ensures Fed(e, r, owd, nowSec)
  {
    var e2 := UpdateCurrentDelay(e, owd);
    assert e2.baseHistory == e.baseHistory && e2.lastRollover == e.lastRollover;
    UpdateBaseDelayReadsHistoryOnly(e, e2, owd, nowSec);
    UpdateBaseDelayEndsAtMost(e2, owd, nowSec);
    UpdateBaseDelay(e2, owd, nowSec)
  }

  /** `Fed` does not look at `m_maxObserved`. */
  lemma FedIgnoresMaxObserved(e: Estimator, r: Estimator, owd: u32, nowSec: u64, m: u32)
    requires Safe(e) && Fed(e, r, owd, nowSec)
    ensures Fed(e, r.(maxObserved := m), owd, nowSec)
  {
  }

  /** A usable sample: feed it to both buffers, then fold the new queueing
      delay into the running maximum `m_maxObserved`. */
  function TakeSample(e: Estimator, owd: u32, nowSec: u64): (r: Estimator)
    requires Safe(e)
    ensures Safe(r)
    ensures r == Feed(e, owd, nowSec).(maxObserved := r.maxObserved)
    ensures Fed(e, r, owd, nowSec)
    ensures r.maxObserved == Max(e.maxObserved, QueueDelay(r))
  {
    var e3 := Feed(e, owd, nowSec);
    var m := Max(e3.maxObserved, QueueDelay(e3));
    FedIgnoresMaxObserved(e, e3, owd, nowSec, m);
    assert QueueDelay(e3.(maxObserved := m)) == QueueDelay(e3);
    e3.(maxObserved := m)
  }

  /** The update on an acknowledgment: the timestamps are usable when both
      are non-zero; only a usable pair with a positive RTT feeds the
      buffers. */
  function PktsAcked(e: Estimator, tsval: u32, tsecr: u32, rttPositive: bool, nowSec: u64): (r: Estimator)
    requires Safe(e)
    ensures Safe(r)
    ensures r.validFlag == (tsval != 0 && tsecr != 0)
    ensures r.baseHistoLen == e.baseHistoLen && r.noiseFilterLen == e.noiseFilterLen
    // an unusable sample changes nothing but the flag
    ensures !(r.validFlag && rttPositive) ==> r == e.(validFlag := r.validFlag)
    // a usable one `tsval - tsecr` is fed to both buffers, and the running
    // maximum of the queueing delay takes in the new queueing delay
    ensures r.validFlag && rttPositive ==>
      && Fed(e, r, Sub32(tsval, tsecr), nowSec)
      && r.maxObserved == Max(e.maxObserved, QueueDelay(r))
    ensures e.maxObserved <= r.maxObserved
  {
    var valid := tsval != 0 && tsecr != 0;
    var e1 := e.(validFlag := valid);
    if valid && rttPositive then
      assert EpochExpired(e1, nowSec) == EpochExpired(e, nowSec);
      UpdateBaseDelayReadsHistoryOnly(e, e1, Sub32(tsval, tsecr), nowSec);
      TakeSample(e1, Sub32(tsval, tsecr), nowSec)
    else
      e1
  }

  /** `std::max(floor, std::min(q, cap))`. */
  function Clamp(floor: u32, q: u32, cap: u32): (r: u32)
    ensures floor <= r <= Max(floor, cap)
    ensures Min(q, cap) <= r <= Max(floor, q)
    ensures r == floor || r == q || r == cap
  {
    Max(floor, Min(q, cap))
  }

  /** The slow-start threshold. Without a usable queueing signal it halves
      the flight size; with no spread it returns the flavour's bound; else
      it scales the flight size by `maxObserved / (2 * spread)`, clamped
      between two segments and the bound. The caller must avoid the spread
      `2^31`, whose doubled value wraps to a zero divisor. */
  function GetSsThresh(e: Estimator, flavour: Flavour, segmentSize: u32, ssThresh: u32, bytesInFlight: u32): (r: u32)
    requires InRange(e.noiseFilter) && InRange(e.baseHistory)
    requires e.validFlag && e.maxObserved != 0 && Spread(e) != 0 ==> Mul32(2, Spread(e)) != 0
    ensures !e.validFlag || e.maxObserved == 0 ==>
      && r >= Mul32(2, segmentSize) && r >= bytesInFlight / 2
      && (r == Mul32(2, segmentSize) || r == bytesInFlight / 2)
    ensures e.validFlag && e.maxObserved != 0 && Spread(e) == 0 ==>
      r == flavour.Cap(segmentSize, bytesInFlight, ssThresh)
    ensures e.validFlag && e.maxObserved != 0 && Spread(e) != 0 ==>
      var floor, cap := Mul32(2, segmentSize), flavour.Cap(segmentSize, bytesInFlight, ssThresh);
      var q := Div32(Mul32(bytesInFlight, e.maxObserved), Mul32(2, Spread(e)));
      && floor <= r <= Max(floor, cap)
      && Min(q, cap) <= r <= Max(floor, q)
      && (r == floor || r == q || r == cap)
  {
    var floor := Mul32(2, segmentSize);
    if !e.validFlag || e.maxObserved == 0 then
      Max(floor, bytesInFlight / 2)
    else if Spread(e) == 0 then
      flavour.Cap(segmentSize, bytesInFlight, ssThresh)
    else
      var q := Div32(Mul32(bytesInFlight, e.maxObserved), Mul32(2, Spread(e)));
      Clamp(floor, q, flavour.Cap(segmentSize, bytesInFlight, ssThresh))
  }
}
