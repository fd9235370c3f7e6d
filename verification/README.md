# LEDBAT-style delay estimator of `TcpTest` / `TcpDuo`

A Dafny model of the delay estimator that the ns-3 congestion-control classes
`TcpTest` and `TcpDuo` ("an implementation of LEDBAT") add on top of
`TcpNewReno`, with proofs about it.

On every acknowledgment the estimator reads the one-way delay
`TSval - TSecr` (section 3.2 of RFC 7323). It feeds that delay to two bounded
delay buffers:

- a short **noise filter** (length 8) of recent delays;
- a **base history** (length 10) holding one minimum per 60-second epoch.

It also records `m_maxObserved`, the largest queueing delay seen so far. The
slow-start threshold then scales the flight size by `m_maxObserved` divided by
twice the current *spread*, which is the noise filter's maximum minus the base
delay. The two classes are identical except for the bound in `GetSsThresh`.
Here they are one model, with a `Flavour` parameter.

Files and modules:

- `fixed_width.dfy` (`FixedWidth`): `uint32_t`/`uint64_t` values and wrapping
  subtraction, addition, multiplication and division, written out over
  unbounded integers.
- `delay_buffer.dfy` (`DelayBuffer`): `TestOwdCircBuf`/`DuoOwdCircBuf`,
  `AddDelay` with its eviction rescan, and `MinCircBuff`/`MaxCircBuff`. Also
  the window and extremum-tracking properties of repeated insertion.
- `ledbat.dfy` (`Ledbat`): the estimator state and constructor state,
  `CurrentDelay`, `BaseDelay`, `UpdateCurrentDelay`, the epoch policy
  `UpdateBaseDelay`, `PktsAcked` and `GetSsThresh`. Also the invariant `Valid`.
- `ledbat_invariants.dfy` (`LedbatInvariants`): `Valid` holds from the
  constructor through any run of acknowledgments. Its consequences:
  - once a sample has been taken, both differences `queue_delay` and
    `spread` are exact and neither wraps around (before that the spread is
    `0 - ~0`, which wraps to 1, but `m_maxObserved == 0` then selects the
    fallback branch of `GetSsThresh`: `BeforeFirstSample`);
  - `m_maxObserved` never decreases.
- `ledbat_properties.dfy` (`LedbatProperties`): the threshold against an
  integer reference formula, the two flavours compared, and a reachable
  state in which the threshold's divisor is zero.
- `scenarios.dfy` (`LedbatScenarios`): worked examples on concrete delays.

Points where the code departs from what its documentation suggests. The
model follows the code in each case:

- Eviction fires when the length *reaches* `maxlen`, so a buffer of length
  `maxlen` holds at most `maxlen - 1` samples: 7 in the noise filter and 9 in
  the base history. Inserting `50, 30, 80, 20, 60, 40, 90, 10` into the noise
  filter has already dropped the 50. A ninth delay then evicts the 30, not
  the 50 (`NoiseFilterNinthScenario`).
- The rescan `for (i = 1; i < maxlen - 1; i++)` looks as if it skips the last
  sample. It does not: under the length bound every buffer keeps, the
  buffer after eviction has exactly `maxlen - 1` samples, so the loop visits
  all of them (`AddDelayKeepsExtrema`). The bound matters: without it the
  rescan misses samples (`RescanNeedsLengthBound`).
- The test `spread <= 0` is on an unsigned value and means `spread == 0`.
  The wrapped case this would have caught, a current maximum below the base
  delay, can never happen in a reachable state once a sample has been taken
  (`NoWrapInValidState`).
- `2 * spread` is a 32-bit product. It is zero when `spread == 2^31`, and
  the threshold then divides by zero. That state is reachable
  (`ZeroDivisorReachable`), so `GetSsThresh` requires the divisor to be
  non-zero.
- The copy constructor copies neither `m_maxObserved` nor `m_validFlag`, so
  a forked estimator is not a full copy of its source.
- The seed sample of the base history does not start an epoch. Only a
  rollover sets `m_lastRollover` (`SeedStartsNoEpoch`).
- The in-epoch overwrite of the newest base entry never updates that
  buffer's `max` index, so the index can go stale (`BaseHistoryMaxGoesStale`).
  The base history's `max` is read only to update `max` itself in `AddDelay`
  and never reaches an output.

## Model

| member | source | states |
|---|---|---|
| FixedWidth.Sub32 | src/internet/model/tcp-test.cc:209-211 | the `uint32_t` difference is `a - b` when `b <= a`, `2^32 + a - b` otherwise, and zero exactly when `a == b` |
| FixedWidth.Sub64 | src/internet/model/tcp-test.cc:174-176 | the elapsed time `timestamp - m_lastRollover` is taken modulo `2^64` |
| DelayBuffer.MinCircBuff | src/internet/model/tcp-test.cc:68-78 | `~0` for an empty buffer; otherwise a sample of the buffer, and no larger than any sample when `min` is tracked |
| DelayBuffer.MaxCircBuff | src/internet/model/tcp-test.cc:80-90 | 0 for an empty buffer; otherwise a sample of the buffer, and no smaller than any sample when `max` is tracked |
| DelayBuffer.Rescan | src/internet/model/tcp-test.cc:145-158 | the strict-comparison scan keeps both indices in range and extends earliest-minimum and earliest-maximum positions from `s[..i]` to `s[..bound]` |
| DelayBuffer.AddDelay | src/internet/model/tcp-test.cc:121-160 | the first sample gives `[owd]` with both indices 0; a later sample is appended, and the oldest one is dropped exactly when the new length reaches `maxlen`; indices stay in range; the length never exceeds `maxlen` and stays below it for `maxlen >= 2` |
| DelayBuffer.AddDelayKeepsExtrema | src/internet/model/tcp-test.cc:132-158 | from a buffer shorter than `maxlen`, `min` and `max` stay at the earliest minimum and maximum after the insertion, including after an eviction and rescan |
| DelayBuffer.RescanNeedsLengthBound | src/internet/model/tcp-test.cc:141-158 | for a buffer already over its limit the rescan bound `maxlen - 1` misses samples, and `min` no longer indexes the minimum |
| DelayBuffer.AddDelayEndsWith | src/internet/model/tcp-test.cc:124-147 | the new sample always ends the buffer, and below the length bound the buffer is the window of the latest `maxlen - 1` samples |
| DelayBuffer.AddDelayIsWindow | src/internet/model/tcp-test-duo.cc:124-144 | one insertion into a buffer shorter than `maxlen` leaves the latest `maxlen - 1` samples of old contents followed by the new one |
| DelayBuffer.AddAllIsWindow | src/internet/model/tcp-test.cc:124-144 | any sequence of insertions leaves exactly the latest `maxlen - 1` samples, in arrival order |
| DelayBuffer.AddAllKeepsExtrema | src/internet/model/tcp-test-duo.cc:133-158 | along any sequence of insertions both indices keep pointing at the earliest minimum and maximum |
| Ledbat.Initial | src/internet/model/tcp-test.cc:21-38 | the constructor's state has lengths 10 and 8, empty buffers, `m_lastRollover` and `m_maxObserved` 0, an arbitrary `m_validFlag`, and satisfies the invariant `Valid` |
| Ledbat.CurrentDelay | src/internet/model/tcp-test.cc:92-95 | the filter applies to the noise filter only: `~0` (min) or 0 (max) when it is empty, otherwise a sample of it, no larger (min) or no smaller (max) than any of its samples when the index is tracked |
| Ledbat.BaseDelay | src/internet/model/tcp-test.cc:97-100 | the minimum of the base history, `~0` when it is empty |
| Ledbat.UpdateCurrentDelay | src/internet/model/tcp-test.cc:162-165 | only the noise filter changes; it ends with the new sample, and below its length bound it is the latest `noiseFilterLen - 1` samples of the old contents followed by the new one |
| Ledbat.UpdateBaseDelay | src/internet/model/tcp-test.cc:167-193 | only the base history and `m_lastRollover` change. Seed: the history becomes `[owd]` and the epoch is not restarted. Rollover after more than 60 s: `AddDelay` and `m_lastRollover = now`. Otherwise: same length, unchanged prefix, last entry `min(last, owd)`, `max` unchanged |
| Ledbat.UpdateBaseDelayEndsAtMost | src/internet/model/tcp-test.cc:167-193 | whichever branch runs, the base history ends with an entry no larger than the sample, and `m_lastRollover` becomes `now` exactly when the history was non-empty and the epoch had expired |
| Ledbat.Feed | src/internet/model/tcp-test.cc:209-210 | both buffers receive the sample (`Fed`): the noise filter ends with it and below its length bound is the latest `noiseFilterLen - 1` samples of its old contents followed by it; the base history is exactly what the epoch policy `UpdateBaseDelay` makes of the old one, so it ends with an entry no larger than the sample; the epoch restarts exactly on a rollover; nothing else changes |
| Ledbat.UpdateBaseDelayReadsHistoryOnly | src/internet/model/tcp-test.cc:167-193 | the epoch policy's outcome depends only on the base history, `m_lastRollover` and the history's length |
| Ledbat.TakeSample | src/internet/model/tcp-test.cc:209-215 | a usable sample is fed to both buffers, and `m_maxObserved` becomes the larger of its old value and the resulting queueing delay |
| Ledbat.PktsAcked | src/internet/model/tcp-test.cc:195-217 | the flag is `tsval != 0 && tsecr != 0`; an unusable sample changes nothing else; a usable one feeds `tsval - tsecr` mod `2^32` to both buffers in the sense of `Feed` (noise-filter window, base history as the epoch policy `UpdateBaseDelay` leaves it, epoch restarted exactly on a rollover) and makes `m_maxObserved` the maximum of its old value and the new queueing delay; `m_maxObserved` never decreases |
| Ledbat.Clamp | src/internet/model/tcp-test.cc:116 | the result is one of `floor`, `q`, `cap`, at least `floor` and `min(q, cap)`, and at most `max(floor, cap)` and `max(floor, q)`, which together single out `max(floor, min(q, cap))` |
| Ledbat.GetSsThresh | src/internet/model/tcp-test.cc:102-118 | without a signal: the larger of `2 * segmentSize` and `bytesInFlight / 2`; with zero spread: the flavour's bound; otherwise `q = bytesInFlight * maxObserved / (2 * spread)`, every operation on 32 bits, clamped as `max(2 * segmentSize, min(q, bound))` |
| LedbatInvariants.UpdateBaseDelayKeepsMin | src/internet/model/tcp-test.cc:183-191 | every branch of the epoch policy keeps the base history's `min` at its earliest minimum |
| LedbatInvariants.InEpochOnlyLowers | src/internet/model/tcp-test-duo.cc:181-192 | within an epoch the base history keeps its length, no entry rises, and the newest entry is at most the new sample |
| LedbatInvariants.RolloverAppends | src/internet/model/tcp-test-duo.cc:176-180 | on a rollover the base history is the old one, without its oldest entry when full, followed by the new sample |
| LedbatInvariants.FeedKeepsBuffersValid | src/internet/model/tcp-test.cc:209-210 | feeding one sample to both buffers keeps the length bounds, the tracked indices and `Covered` |
| LedbatInvariants.CoveredAfterFeed | src/internet/model/tcp-test.cc:162-193 | every noise-filter sample keeps a base-history entry no larger than it, recorded no earlier |
| LedbatInvariants.PktsAckedPreservesValid | src/internet/model/tcp-test.cc:195-217 | every acknowledgment preserves `Valid` |
| LedbatInvariants.Run | build/ns3/tcp-test.h:65-77 | a run of acknowledgments through the only mutating entry point keeps the buffer lengths' configuration and the safety of every index |
| LedbatInvariants.RunKeepsValid | src/internet/model/tcp-test.cc:212-215 | along any run `Valid` holds and `m_maxObserved` never decreases |
| LedbatInvariants.NoWrapInValidState | src/internet/model/tcp-test.cc:110-116 | in a valid state with samples, base delay ≤ current minimum ≤ current maximum, so `queue_delay` and `spread` are exact differences and `queue_delay <= spread` |
| LedbatInvariants.ReachableStates | src/internet/model/tcp-test.cc:21-31 | every state reached from the constructor by acknowledgments is valid, and once a sample has been taken has base delay ≤ current minimum ≤ current maximum |
| LedbatProperties.SsThreshMatchesIdeal | src/internet/model/tcp-test.cc:102-118 | in a valid state holding at least one sample whose products fit in 32 bits, the threshold equals the integer formula with a non-positive spread meaning no queueing |
| LedbatProperties.WrappedSpreadScales | src/internet/model/tcp-test.cc:110-116 | with a current maximum below the base delay, the unsigned spread wraps and the scaling branch gives 2000 where the integer formula gives 51000 |
| LedbatProperties.FlavoursDifferOnlyInCap | src/internet/model/tcp-test-duo.cc:106-117 | `TcpDuo` and `TcpTest` agree whenever `ssThresh` equals `bytesInFlight + segmentSize`, or when there is no signal |
| LedbatProperties.DuoThresholdBounded | src/internet/model/tcp-test-duo.cc:110-117 | with a signal, `TcpDuo` returns `ssThresh` for zero spread and never exceeds `max(2 * segmentSize, ssThresh)` |
| LedbatProperties.ZeroDivisorReachable | src/internet/model/tcp-test.cc:116 | delays 5, seven times 10, then `2^31 + 5`, all in the first epoch, reach a state with `m_maxObserved == 5` and `spread == 2^31`, where `2 * spread` wraps to 0 |
| LedbatScenarios.FilterOfEight | src/internet/model/tcp-test.cc:141-158 | after at least seven insertions a noise filter of length 8 holds exactly the latest seven, with tracked extrema |
| LedbatScenarios.NoiseFilterScenario | src/internet/model/tcp-test.cc:121-160 | inserting `50, 30, 80, 20, 60, 40, 90, 10` leaves `[30, 80, 20, 60, 40, 90, 10]` with minimum 10 and maximum 90 |
| LedbatScenarios.NoiseFilterNinthScenario | src/internet/model/tcp-test.cc:141-147 | a ninth delay 5 evicts the 30 and becomes the minimum |
| LedbatScenarios.BeforeFirstSample | src/internet/model/tcp-test.cc:21-31 | in the constructor's state the spread `0 - ~0` wraps to 1, yet the threshold is the fallback `max(2 * segmentSize, bytesInFlight / 2)` because `m_maxObserved` is 0 |
| LedbatScenarios.FallbackScenario | src/internet/model/tcp-test-duo.cc:106-109 | without a usable timestamp, segment 1460 and flight 20000 give 10000 for either flavour |
| LedbatScenarios.FirstDelay | src/internet/model/tcp-test.cc:169-173 | the first usable delay seeds both buffers with itself at any time, without starting an epoch |
| LedbatScenarios.InEpochScenario | src/internet/model/tcp-test.cc:181-191 | delays 100 then 80 within the first epoch give a one-entry base history `[80]` |
| LedbatScenarios.SeedStartsNoEpoch | src/internet/model/tcp-test.cc:169-180 | the same delays at second 100 roll over and give `[100, 80]` with `m_lastRollover == 100` |
| LedbatScenarios.ZeroTimestampScenario | src/internet/model/tcp-test-duo.cc:199-207 | a zero `TSval` clears the flag and leaves the buffers, and `TcpDuo` falls back to half the flight size |
| LedbatScenarios.BaseHistoryMaxGoesStale | src/internet/model/tcp-test.cc:183-191 | an in-epoch overwrite keeps the base history's `min` tracked but leaves `max` pointing at a sample that is no longer the maximum |

## Left out

- GetSsThresh: requires that `2 * spread` does not wrap to 0; the source divides by zero there, and `ZeroDivisorReachable` shows such a state is reachable.
- MaxCircBuff: states that the result is a sample no smaller than any other when `max` is tracked, not that it is read at index `max`; the base history's `max` can go stale (`BaseHistoryMaxGoesStale`), but the base history's `max` is read only to update `max` itself in `AddDelay` and never reaches an output; the noise filter's `max`, which `GetSsThresh` reads, is always tracked.
- MinCircBuff: states that the result is a sample no larger than any other, not that it is read at index `min`; the index itself is what `MinTracked` constrains.
- Object-system glue (`GetTypeId`, registration, logging, `GetName`, the destructor, `Fork`): reflection and logging, with no behaviour.
- The copy constructor: it copies neither `m_maxObserved` nor `m_validFlag`, so there is no clone-equivalence property to state.
- `Simulator::Now().GetSeconds()` and its cast from `double` to `uint64_t`: a foreign call and floating point. The whole number of seconds is the parameter `nowSec`.
- `TcpSocketState`, `Ptr`, `Time` and `TracedValue`: reduced to the integers the estimator reads (`tsval`, `tsecr`, `segmentSize`, `ssThresh`, `bytesInFlight`) and the boolean `rttPositive`; `segmentsAcked` is never read.
- The `TcpNewReno` parent's behaviour: not part of this model.
- scratch/evaluation_tcp_westwoodPlus.cc: a simulation script (topology, traffic, PCAP, throughput printing) with no estimator logic.
- The uninitialised `max` of a freshly initialised buffer: modelled as 0; it is never read before the first `AddDelay` sets it.
