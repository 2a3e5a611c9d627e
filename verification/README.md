# Verified model of yalantinglibs' hard parts

This project models the most intricate logic of yalantinglibs in Dafny and proves
properties of it: the quantile sketch behind the summary metric, the cancellation
handshakes of coroutine I/O and of timers, the load balancer, the striped counter,
the token-bucket rate limiter, and struct_pack: its arithmetic (compile-time MD5, varints,
size calculation), the bytes it writes, reading them back, and exchanging them between
programs before and after an upgrade.

Check everything with `dafny verify dfyconfig.toml`.

## Layout

| file | what it models |
|---|---|
| FloatCodec.dfy | a 32-bit float compressed to a 14-bit bucket index, and back |
| SketchBuffer.dfy | the lazily allocated bucket array, its saturating increment and its listing |
| SketchStat.dfy | merging two listings against cumulative targets |
| SketchAccuracy.dfy | answers against true order statistics, sums against true sums |
| Summary.dfy | the two-buffer window over time, and the whole metric end to end |
| AsyncIoCancel.dfy | starter, signal handler and resumed coroutine sharing one atomic flag |
| TimerCancel.dfy | the one-bit sibling of that protocol in the timer |
| WeightedRoundRobin.dfy | the weighted picker: gcd, schedule, period |
| SendRequest.dfy | the 32-bit round robin counter and the retry loop over dead pools |
| StripedCounter.dfy | lazily installed slots with interleaved inc, dec, update, value |
| RateLimiter.dfy | the bursty token bucket with its two truncations |
| Integers.dfy, Octets.dfy | shared helpers: powers of two, bitwise or, remainders, bytes |
| Md5.dfy | the constexpr MD5 against RFC 1321 |
| Varint.dfy | variable-length integers and zigzag |
| FastVarint.dfy | one shared width for the integers of a struct, its bytes, and reading them |
| StructSize.dfy | the size pass over nested values, the header, and the bytes written |
| StructRead.dfy | reading those bytes back: header, main pass, one pass for each version |
| StructUpgrade.dfy | older data read by newer programs, and newer data by older ones |

State that the program updates in place is a class with `modifies` clauses; concurrent
code is a step relation with one atomic operation a step, and every result about it is
about every state of every run. Floats are bit patterns with a `real` value; permits,
rates and quantile targets are reals; times are nanoseconds.

## What turned out to be false, and exactly when it holds

- The sum of a summary misses what its last loop would add when a negative bucket is
  next, because a signed index is compared with an unsigned size. The loop runs exactly
  when the largest target exceeds the number of negative observations before the last
  ones (`SketchStat.TailRunsIff`, `SketchAccuracy.TailRunsMeans`); otherwise the sum is that
  of what the target asks for. On negative data the threshold is exactly the condition for
  the right sum (`SketchAccuracy.NegativeSumExactIff`); on any data the sum is also right
  when what is left unread adds up to zero (`SketchAccuracy.SumExactIff`). An instance is
  `SketchAccuracy.TailSumMissesNegatives`.
- The `async_io` flag is not 3 after the coroutine returned if the signal came before
  the handler could be registered; it is 3 exactly when the handler was registered
  (`AsyncIoCancel.ReturnedIsFinal`; a run that ends with 0 is
  `AsyncIoCancel.ReturnedWithoutFlag`).
- A weighted retry loop may end on a dead pool although a lighter pool is alive
  (`SendRequest.LighterPoolMissed`). It ends on a live one exactly when one of the next
  2n + 1 picks of the schedule is alive, and always finds a live pool of the largest weight
  (`SendRequest.ChoosePoolWeighted`).
- Stored permits exceed the capacity after a negative request that returns more than
  the room left, and only then (`RateLimiter.OverfullIff`). Above a thousand permits a
  second single permits never wait for one another, in any run (`RateLimiter.FastRateNeverWaits`);
  a request delays later ones exactly when the part of it that is not stored costs a whole
  millisecond (`RateLimiter.DelaysIff`).
- The MD5 bit count is a 32-bit product, so the padding is RFC 1321's exactly for
  messages below 2^29 bytes (`Md5.PaddingIff`).
- A fast-varint reader leaves a target untouched where a zero was written, so reading
  into a used object gives the written values exactly when it held no stale value there
  (`FastVarint.ReadBackIff`).
- The predicted length counts compatible members nested in a compatible member, or
  behind a base-class pointer, that no pass writes. With several arguments the header is
  written as counted only if the first argument needs a metainfo byte like all of them do
  (`StructSize.HeaderIff`; `StructSize.FirstArgumentDecides` is a case where it does not).
  `StructSize.ExactIff` gives the exact condition for the length, including the case where the
  two errors cancel (`StructSize.TwoErrorsCancel`).
- A value is not always read back. It is exactly when no filled compatible member is inside
  another one or behind a base-class pointer, and the first of several arguments does not
  keep the total length out of the header while a later one has compatible members
  (`StructRead.RoundTripIff`; `StructRead.NestedMemberIsLost` and
  `StructRead.SecondArgumentIsLost` are cases where it is not). The next object in a buffer
  is found exactly when the announced length is right (`StructRead.ConsumedIff`).
- Data and programs of different ages are promised to work together in both directions
  (website/docs/en/struct_pack/struct_pack_type_system.md:278-282). Older data is read by an
  upgraded program exactly under the conditions of `StructUpgrade.OlderDataIff`: a compatible
  member that is counted and not written makes the new program look for its member past the
  end of the data (`StructUpgrade.NestingBreaksUpgrade`). `StructUpgrade.NewerDataIff` gives the
  other direction. A single argument without such nesting always meets both.

## Model

| member | source | states |
|---|---|---|
| FloatCodec.IndexConversionsInverse | include/ylt/metric/summary_impl.hpp:123-130 | raw and ordered index are mutually inverse on all 16384 buckets, in spite of the unsigned wrap-around |
| FloatCodec.MaskedExponentSaturates | include/ylt/metric/summary_impl.hpp:74-76 | the branch-free exponent mask is saturating subtraction of 64 over the clamped range |
| FloatCodec.MagnitudeOrder | include/ylt/metric/summary_impl.hpp:66-71 | bit patterns without the sign compare like the numbers they denote |
| FloatCodec.ClampBounds | include/ylt/metric/summary_impl.hpp:68-71 | the clamp applies exactly to NaN and to magnitudes from 2^64 on, keeps the sign, and bounds the exponent by 191 |
| FloatCodec.DecodeEncode | include/ylt/metric/summary_impl.hpp:23-90 | decoding an encoded float truncates it to six fraction bits, to zero below 2^-62 and to 2^64 from there on, for every bit pattern |
| FloatCodec.EncodeDecode | include/ylt/metric/summary_impl.hpp:23-90 | every ordinary bucket encodes back to itself after decoding |
| FloatCodec.QuantizeMonotone | include/ylt/metric/summary_impl.hpp:66-90 | decode(encode(x)) is monotone over all non-NaN floats |
| FloatCodec.DecodeMonotone | include/ylt/metric/summary_impl.hpp:23-45 | decoded values do not decrease with the ordered index |
| FloatCodec.QuantizeAccuracy | include/ylt/metric/summary_impl.hpp:62-90 | same sign and abs(a) <= abs(x) < abs(a)(1 + 2^-6) from 2^-62 up to 2^64, zero below, plus or minus 2^64 above |
| SketchBuffer.EmitIsListing | include/ylt/metric/summary_impl.hpp:131-157 | a listing names used buckets with their positive counts, strictly ascending in ordered index |
| SketchBuffer.SumOfEmitted | include/ylt/metric/summary_impl.hpp:131-166 | the counts of a listing add up to the total of the buffer |
| SketchBuffer.Buffer.FetchAdd | include/ylt/metric/summary_impl.hpp:101-113 | a piece is allocated with zeros on first use and one counter grows, modulo its width; no other counter changes |
| SketchBuffer.Buffer.Probe | include/ylt/metric/summary_impl.hpp:208-212 | a probe adds a unit exactly when the counter was not full, and otherwise leaves every counter as it was |
| SketchBuffer.Buffer.ProbePair | include/ylt/metric/summary_impl.hpp:205-221 | one distance of the probe: the unit lands in the nearest free bucket, upper side first, or both sides are full |
| SketchBuffer.Buffer.Increase | include/ylt/metric/summary_impl.hpp:198-224 | the unit lands in the nearest unsaturated bucket of the sign half, upper on ties, or nothing changes when all are saturated; no counter passes 4290000001; 64-bit counters just count |
| SketchBuffer.IncreaseConservesHalves | include/ylt/metric/summary_impl.hpp:198-224 | the total of the value's sign half grows by exactly one, unless it is full, and the other half keeps its total |
| SketchBuffer.NearestUnique | include/ylt/metric/summary_impl.hpp:203-221 | where the unit lands is determined by the counters |
| SketchBuffer.Buffer.Refresh | include/ylt/metric/summary_impl.hpp:114-122 | every counter is zero afterwards |
| SketchBuffer.Buffer.Stat | include/ylt/metric/summary_impl.hpp:158-166 | the buffer is emitted in value order, negative half backwards and the other forwards, and its total is added to the count |
| SketchStat.DataCopy.constructor | include/ylt/metric/summary_impl.hpp:226-236 | both cursors at the start and the smaller head chosen |
| SketchStat.DataCopy.Inc | include/ylt/metric/summary_impl.hpp:237-245 | exactly the cursor of the smaller head moves, by one, and the smaller head is chosen again |
| SketchStat.CutCounts | include/ylt/metric/summary_impl.hpp:323-333 | while bucket o is being read, the consumed count lies between the cumulative counts before and after o |
| SketchStat.Consume | include/ylt/metric/summary_impl.hpp:237-248 | one merge step reads the least unread entry, keeps the merge order and the cut, and adds that entry to count and weight |
| SketchStat.NotAtEnd | include/ylt/metric/summary_impl.hpp:304-333 | no cursor passes its sentinel while less than the total has been consumed |
| SketchStat.EverythingConsumed | include/ylt/metric/summary_impl.hpp:304-340 | at both sentinels the consumed count is the total of both buffers |
| SketchStat.Advance | include/ylt/metric/summary_impl.hpp:323-333 | the loop stops with the first bucket whose cumulative count reaches the target, with count and sum of what it consumed |
| SketchStat.AnswerRate | include/ylt/metric/summary_impl.hpp:311-334 | a NaN or negative rate repeats the previous answer, a rate above one counts as one, rate zero asks for the first observation |
| SketchStat.AnswerRates | include/ylt/metric/summary_impl.hpp:304-334 | each answer is the first bucket whose cumulative count reaches the largest target so far |
| SketchStat.TailTest | include/ylt/metric/summary_impl.hpp:335 | the comparison is true exactly for an index in [0, 8192): a negative index ends the loop |
| SketchStat.TailSum | include/ylt/metric/summary_impl.hpp:335-339 | the sum becomes the whole weighted sum when no negative bucket is left, and is not changed otherwise |
| SketchStat.TopIsLeft | include/ylt/metric/summary_impl.hpp:226-248 | while a negative bucket is left, the last negative entry in merge order is unread |
| SketchStat.NegativeLeftIff | include/ylt/metric/summary_impl.hpp:319-335 | a negative bucket is left for the tail loop exactly when the largest target is at most the count before the last negative entry |
| SketchStat.StepReads | include/ylt/metric/summary_impl.hpp:323-333 | the step that reaches a target has read everything below its bucket and, of the bucket, the smaller of the two counts if that suffices or both |
| SketchStat.ConsumedIsRead | include/ylt/metric/summary_impl.hpp:328-332 | the sum the loop has built is determined by counters and target, whatever path the cursors took |
| SketchStat.TailRunsIff | include/ylt/metric/summary_impl.hpp:319-335 | the tail loop adds the rest if and only if there is no negative bucket or the largest target exceeds the count before the last negative entry |
| SketchStat.Answers | include/ylt/metric/summary_impl.hpp:304-340 | the read-out: every answer, and the sum in both cases: the whole weighted sum exactly when the tail loop runs, else the weight of what the largest target asks for |
| SketchAccuracy.OrderStatisticOfSorted | include/ylt/metric/summary_impl.hpp:311-334 | the counting definition of an order statistic is the element at that position of a sorted permutation |
| SketchAccuracy.OrderStatisticExists | include/ylt/metric/summary_impl.hpp:311-334 | every rank from 1 to the number of observations has an order statistic, so no accuracy result is vacuous |
| SketchAccuracy.FillIsHistogram | include/ylt/metric/summary_impl.hpp:277-282 | while no bucket received more than its counter holds, inserting any sequence of observations builds their histogram |
| SketchAccuracy.HistogramIff | include/ylt/metric/summary_impl.hpp:196-224 | a buffer is the histogram of its observations if and only if no bucket received more than 4290000001 (or, 64 bits wide, more than 2^64 - 1) |
| SketchAccuracy.SaturatedIff | include/ylt/metric/summary_impl.hpp:203-221 | a sign half is saturated exactly when its total is 8192 * 4290000001 |
| SketchAccuracy.HalfTotals | include/ylt/metric/summary_impl.hpp:198-224 | however full single buckets are, a buffer of 32-bit counters counts every observation of a sign until that half is full, and none after |
| SketchAccuracy.HeldIff | include/ylt/metric/summary_impl.hpp:198-224 | nothing goes uncounted if and only if neither sign has more observations than a half holds |
| SketchAccuracy.BucketIsOrderStatistic | include/ylt/metric/summary_impl.hpp:323-333 | the bucket whose cumulative counts enclose a rank decodes to the quantised order statistic of that rank |
| SketchAccuracy.AnswerIsAccurate | include/ylt/metric/summary_impl.hpp:304-334 | the answer to a target over two buffers is the quantised order statistic of the rank the target rounds up to |
| SketchAccuracy.SortedRatesRank | include/ylt/metric/summary_impl.hpp:311-322 | for ascending rates in [0, 1] the largest rank asked for so far is that of the last rate, max(1, ceil(rate * n)) |
| SketchAccuracy.LargestRankIff | include/ylt/metric/summary_impl.hpp:311-322 | for any rates, some of which ask: the running target rounds up to the largest of the ranks max(1, ceil(min(rate, 1) * n)) of the rates that are not NaN or negative |
| SketchAccuracy.LargestRankExists | include/ylt/metric/summary_impl.hpp:311-322 | that largest rank exists and is the rank of an observation |
| SketchAccuracy.AccurateIsAnswered | include/ylt/metric/summary_impl.hpp:311-334 | so an answer is the quantised order statistic of that rank, or -2^64 while nothing was asked for; stated by rates and observations alone |
| SketchAccuracy.RateOfOneIsLargest | include/ylt/metric/summary_impl.hpp:316-318 | once a rate of one or more was given, the answer is the quantised largest observation |
| SketchAccuracy.WeightIsQuantizedSum | include/ylt/metric/summary_impl.hpp:328-339 | the weighted sum of a buffer is the sum of its quantised observations |
| SketchAccuracy.SpreadBelowIsSum | include/ylt/metric/summary_impl.hpp:328-332 | the weighted sum below a bucket is the sum of the quantised observations below it |
| SketchAccuracy.ViewTotals | include/ylt/metric/summary_impl.hpp:158-166 | the count is the number of observations, and the count below zero the number of negative ones |
| SketchAccuracy.ReadOut | include/ylt/metric/summary_impl.hpp:284-341 | a read-out over two buffers in terms of their observations: count, answers by rank for any list of rates, and the sum on both sides of the exact threshold |
| SketchAccuracy.TailRunsMeans | include/ylt/metric/summary_impl.hpp:319-335 | the threshold in observations: the largest target exceeds the negative observations before the last ones, those the fuller buffer holds of the highest negative bucket |
| SketchAccuracy.ReadSumMeans | include/ylt/metric/summary_impl.hpp:323-333 | what the loop has added up is the quantised sum of the observations the target asks for |
| SketchAccuracy.DescribesSwapped | include/ylt/metric/summary_impl.hpp:290-299 | which buffer is listed first changes nothing |
| SketchAccuracy.QuantileErrorBound | include/ylt/metric/summary_impl.hpp:277-341 | end to end, for any rates (NaN, negative, above one, unsorted): the k-th answer has the sign of the true order statistic x of the largest rank max(1, ceil(min(rate, 1) * n)) among the first k + 1 rates that ask, and abs(a) <= abs(x) < abs(a)(1 + 2^-6); it is zero below 2^-62 and plus or minus 2^64 from 2^64 on |
| SketchAccuracy.TailSumMissesNegatives | include/ylt/metric/summary_impl.hpp:335-339 | every read-out of a single observation of -1 without rates has count 1 and sum 0 |
| SketchAccuracy.NegativeSumExactIff | include/ylt/metric/summary_impl.hpp:319-339 | for every read-out of data whose negative observations decode below zero and whose others decode to zero, the sum is right if and only if the largest target asks for the last negative observations |
| SketchAccuracy.SumExactIff | include/ylt/metric/summary_impl.hpp:319-339 | for every read-out of any data, the sum is right if and only if the largest target asks for the last negative observations or what is left unread, from the bucket that reaches the target on, adds up to zero; that bucket exists |
| SketchAccuracy.CoveringIsEnough | include/ylt/metric/summary_impl.hpp:319-335 | asking for as many observations as are negative is enough for the right sum |
| SummaryWindow.WindowRotate | include/ylt/metric/summary_impl.hpp:267-273 | a rotation after one to two periods keeps the window invariant: the retained part is a suffix of the history |
| SummaryWindow.WindowClear | include/ylt/metric/summary_impl.hpp:260-266 | a double clear after two periods keeps it too, over any idle gap |
| SummaryWindow.WindowAges | include/ylt/metric/summary_impl.hpp:251-287 | what is read is younger than three periods, and everything at most one period old is read |
| SummaryWindow.WholeMilliseconds | include/ylt/metric/summary_impl.hpp:257-260 | comparing whole milliseconds decides like comparing nanoseconds |
| Summary.Summary.constructor | include/ylt/metric/summary_impl.hpp:342-357 | for any refresh time the metric starts with no buffer and an empty history; the period is half the refresh time, and about 2^63 milliseconds for a negative one, since the factor is unsigned |
| Summary.Summary.Refresh | include/ylt/metric/summary_impl.hpp:251-276 | keeps the window invariant for every clock reading and leaves a front buffer younger than one period |
| Summary.Summary.Insert | include/ylt/metric/summary_impl.hpp:277-282 | appends one observation to the history and keeps buffers equal to the logs they stand for |
| Summary.Summary.Stat | include/ylt/metric/summary_impl.hpp:284-341 | over every run: the retained observations are a suffix of the history with the age bounds; with 32-bit counters the count is what the sign halves hold of them; and while no bucket is over-full the result describes exactly them: count, the order statistic of the largest rank asked for so far at every rate, and the sum on both sides of the exact threshold |
| AsyncIoCancel.InvHolds | include/ylt/coro_io/coro_io.hpp:288-368 | the protocol invariant holds in every state of every interleaving |
| AsyncIoCancel.CancelOnlyWhileAlive | include/ylt/coro_io/coro_io.hpp:294-339 | cancel(obj) runs only after the I/O was started and never at or after the coroutine's return |
| AsyncIoCancel.CancelAtMostOnce | include/ylt/coro_io/coro_io.hpp:298-338 | cancel(obj) runs at most once, by the party that arrived second |
| AsyncIoCancel.FlagMoves | include/ylt/coro_io/coro_io.hpp:268-368 | the flag moves only 0-1-2-3, 0-3 or 1-3 |
| AsyncIoCancel.ReturnedIsFinal | include/ylt/coro_io/coro_io.hpp:341-368 | after the return nothing changes; the flag is 3 forever exactly when the handler had been registered |
| AsyncIoCancel.ReturnedWithoutFlag | include/ylt/coro_io/coro_io.hpp:313-319 | an instance: a run that returns with the flag at 0 |
| AsyncIoCancel.NoCancellationLost | include/ylt/coro_io/coro_io.hpp:294-339 | handler and starter finished, exit handshake not begun: cancel(obj) has been performed by the second of them |
| AsyncIoCancel.SignalCancels | include/ylt/coro_io/coro_io.hpp:294-339 | in every run: I/O started, signal given, coroutine not past clearing the slot, starter and handler with no step left: cancel(obj) has been called exactly once, by the second of them, and the flag is 3 |
| AsyncIoCancel.SignalRunsHandler | include/ylt/coro_io/coro_io.hpp:294-311 | a signal given after the I/O was started and before the slot is cleared starts the registered handler |
| AsyncIoCancel.ClearedSlotStartsNoHandler | include/ylt/coro_io/coro_io.hpp:321-325 | once the slot is cleared no handler is started any more |
| AsyncIoCancel.SignalledRun | include/ylt/coro_io/coro_io.hpp:294-339 | an instance: a run in which the signal cancels the I/O of a suspended coroutine |
| AsyncIoCancel.EarlySignalStopsIo | include/ylt/coro_io/coro_io.hpp:294-319 | a signal that came before registration is final: in every later state no I/O is started and nobody cancels |
| AsyncIoCancel.CanceledBeforeStart | include/ylt/coro_io/coro_io.hpp:313-319 | a signal seen before registration: no I/O is started and nobody cancels |
| AsyncIoCancel.StepsAreBounded | include/ylt/coro_io/coro_io.hpp:341-367 | every step but a turn of the wait loop decreases a measure |
| AsyncIoCancel.CoroutineNeverStuck | include/ylt/coro_io/coro_io.hpp:355-363 | while a resumed coroutine has not returned, some actor can take a step that is no turn of the wait loop |
| AsyncIoCancel.WorkIsBounded | include/ylt/coro_io/coro_io.hpp:288-368 | a whole run has a bounded number of steps besides turns of the wait loop |
| TimerCancel.InvHolds | include/ylt/coro_io/io_context_pool.hpp:145-177 | the timer protocol's invariant holds in every state of every interleaving |
| TimerCancel.TimerRendezvous | include/ylt/coro_io/io_context_pool.hpp:156-175 | the timer is cancelled at most once, only after it was armed, and has been cancelled exactly when both sides are through with an armed timer |
| TimerCancel.SignalCancelsTimer | include/ylt/coro_io/io_context_pool.hpp:156-175 | in every run: timer armed, signal given, starter and handler with no step left: the timer has been cancelled |
| TimerCancel.EarlySignalArmsNothing | include/ylt/coro_io/io_context_pool.hpp:156-175 | a signal before registration: the timer is never armed and never cancelled afterwards |
| TimerCancel.SignalledRun | include/ylt/coro_io/io_context_pool.hpp:156-175 | an instance: a run in which the timer is cancelled before it completes |
| TimerCancel.FunctionRunsOnce | include/ylt/coro_io/io_context_pool.hpp:156-170 | the scheduled function runs at most once, exactly when the wait completed or the timer was never armed |
| WeightedRoundRobin.GcdIsGreatest | include/ylt/coro_io/load_balancer.hpp:125 | Euclid's result divides both numbers and every common divisor divides it |
| WeightedRoundRobin.MaxWeightGcd | include/ylt/coro_io/load_balancer.hpp:119-128 | the fold computes the greatest common divisor of all weights |
| WeightedRoundRobin.MaxWeight | include/ylt/coro_io/load_balancer.hpp:130-132 | the largest weight |
| WeightedRoundRobin.AboveCount | include/ylt/coro_io/load_balancer.hpp:100-117 | a host is picked once for each level its weight reaches |
| WeightedRoundRobin.PeriodIsProportional | include/ylt/coro_io/load_balancer.hpp:81-139 | a period has (sum of weights)/g picks and chooses host i exactly w_i/g times |
| WeightedRoundRobin.InspectNext | include/ylt/coro_io/load_balancer.hpp:101-111 | each inspection moves to the next place of the schedule, with a positive level that is a multiple of the gcd and at most the maximum |
| WeightedRoundRobin.PickOrSkip | include/ylt/coro_io/load_balancer.hpp:113-115 | picking or skipping a host keeps the picks so far a prefix of the repeated period |
| WeightedRoundRobin.PicksRepeat | include/ylt/coro_io/load_balancer.hpp:81-139 | in every run the k-th pick is the one the period has at k modulo its length |
| WeightedRoundRobin.FlatNext | include/ylt/coro_io/load_balancer.hpp:102-111 | without a positive weight every wrap resets the level to the largest weight |
| WeightedRoundRobin.FlatCycleCount | include/ylt/coro_io/load_balancer.hpp:89-115 | without a positive weight a cycle picks every heaviest host once and no other, and host 0 as well when the largest weight is zero |
| WeightedRoundRobin.PicksCycle | include/ylt/coro_io/load_balancer.hpp:81-139 | for any weights at all the k-th pick of a run is the one the cycle has at k modulo its length |
| WeightedRoundRobin.Balancer.constructor | include/ylt/coro_io/load_balancer.hpp:82-85 | for any non-empty list of weights: gcd and maximum are right and no pick has been made |
| WeightedRoundRobin.Balancer.Inspect | include/ylt/coro_io/load_balancer.hpp:101-115 | one turn of the loop: the next host in order, a pick exactly when its weight reaches the level, and always for a heaviest host |
| WeightedRoundRobin.Balancer.SelectHost | include/ylt/coro_io/load_balancer.hpp:100-117 | for any weights and from any reachable state the loop ends after at most n inspections; -1 exactly when the largest weight is zero and the list wraps; without a positive weight only heaviest hosts are selected |
| WeightedRoundRobin.Balancer.Pick | include/ylt/coro_io/load_balancer.hpp:87-97 | one pick, with the fall-back to host 0, extends the schedule by one |
| WeightedRoundRobin.TakenInTurn | include/ylt/coro_io/load_balancer.hpp:100-117 | equal weights that are not positive are taken in turn |
| SendRequest.EveryPoolVisited | include/ylt/coro_io/load_balancer.hpp:47-56 | any 2n-1 consecutive picks visit every pool even if the 32-bit counter wraps, n picks if it does not |
| SendRequest.DeadRunIsShort | include/ylt/coro_io/load_balancer.hpp:166-186 | with a pool alive throughout, at most 2n-2 picks in a row are dead |
| SendRequest.RoundRobin.Pick | include/ylt/coro_io/load_balancer.hpp:50-55 | consecutive calls take consecutive pools, starting again at the first one after the last and when the 32-bit counter wraps |
| SendRequest.RoundRobin.ChoosePool | include/ylt/coro_io/load_balancer.hpp:166-186 | at most 2n+1 picks; the loop ends on a live pool if and only if one of those 2n+1 picks is alive, at the first that is; with some pool alive throughout that is within 2n-1 picks |
| SendRequest.ChoosePoolWeighted | include/ylt/coro_io/load_balancer.hpp:166-186 | for any weights the loop ends on a live pool if and only if one of the next 2n+1 scheduled picks is alive; a live pool of the largest weight is found within n picks, and without weights any live pool |
| SendRequest.LighterPoolMissed | include/ylt/coro_io/load_balancer.hpp:100-117 | with weights 6 and 1 and only the light pool alive, none of the five picks of a fresh balancer's loop is alive |
| StripedCounter.Conservation | include/ylt/metric/thread_local_value.hpp:95-126 | in every state of every interleaving: slot total plus everything returned or exchanged out, plus what started calls still have to apply, equals the amounts of the calls made in the run |
| StripedCounter.SlotsNeverReplaced | include/ylt/metric/thread_local_value.hpp:116-126 | an installed slot is never replaced |
| StripedCounter.QuiescentValue | include/ylt/metric/thread_local_value.hpp:95-136 | with no operation running, the total is the increments less the decrements plus the values stored by the calls of the run, less what they returned |
| StripedCounter.UninterruptedCall | include/ylt/metric/thread_local_value.hpp:95-136 | a call whose thread runs alone: inc(v) and dec(v) change the total by exactly v, update(v) returns the former total and leaves v, value() returns the total |
| StripedCounter.ReadsAreBounded | include/ylt/metric/thread_local_value.hpp:111-136 | in increment-only runs every value() lies between the true total at its call and the true total at its return |
| RateLimiter.SmoothBurstyLimiter.constructor | include/ylt/coro_io/rate_limiter.hpp:150-153 | starts empty with the capacity of one second |
| RateLimiter.SmoothBurstyLimiter.DoResync | include/ylt/coro_io/rate_limiter.hpp:81-100 | the free time becomes the later of itself and now; a store in range stays in range and is never lowered; no more is earned than the time that passed, and all of it but less than a millisecond unless the store is full |
| RateLimiter.SmoothBurstyLimiter.DoSetRate | include/ylt/coro_io/rate_limiter.hpp:101-107 | resyncs, then rescales; keeps the store within [0, max] |
| RateLimiter.SmoothBurstyLimiter.DoAcquire | include/ylt/coro_io/rate_limiter.hpp:58-125 | the new state, and a returned wait that ends less than a millisecond before the grant and never after it |
| RateLimiter.ResyncIsSound | include/ylt/coro_io/rate_limiter.hpp:81-100 | resync never lowers a valid store, keeps it in range, and earns no more than the time that passed |
| RateLimiter.ResyncEarns | include/ylt/coro_io/rate_limiter.hpp:81-100 | idle time earns: the store is full, or grew by more than the elapsed milliseconds less one |
| RateLimiter.FullAfterOneSecond | include/ylt/coro_io/rate_limiter.hpp:81-100 | after a thousand idle milliseconds the store is full |
| RateLimiter.ReserveSpends | include/ylt/coro_io/rate_limiter.hpp:108-125 | what is stored is spent first; only the part of a request that is not stored moves the free time, by its truncated cost |
| RateLimiter.StoredIsFree | include/ylt/coro_io/rate_limiter.hpp:108-125 | any number of requests at one instant that the store covers are granted at once, without moving the free time |
| RateLimiter.BurstAfterIdleSecond | include/ylt/coro_io/rate_limiter.hpp:58-125 | after an idle second up to max permits are granted at that instant, and the free time stays there |
| RateLimiter.ReserveIsSound | include/ylt/coro_io/rate_limiter.hpp:108-125 | the free time only moves forward and no grant precedes its request |
| RateLimiter.ChangeRateKeepsFraction | include/ylt/coro_io/rate_limiter.hpp:155-165 | a rate change keeps the stored/max fraction reached after the resync; the capacity is one second of the new rate and the interval its inverse |
| RateLimiter.GrantsNeverDecrease | include/ylt/coro_io/rate_limiter.hpp:58-165 | over every run of acquire and set_rate, at any clock readings: grants never decrease, none precedes its request, and without negative requests the store stays in [0, max] |
| RateLimiter.AdmissionBound | include/ylt/coro_io/rate_limiter.hpp:81-125 | at a fixed rate, I * (total permits) <= I * (initial store) + (free time advanced, ms) + k for every run of k reservations |
| RateLimiter.AllowanceIsExact | include/ylt/coro_io/rate_limiter.hpp:120-121 | no allowance below one millisecond a reservation would make that bound hold |
| RateLimiter.DelayBound | include/ylt/coro_io/rate_limiter.hpp:108-125 | the free time is never later than one interval a permit past the later of its start and the last request |
| RateLimiter.DelaysIff | include/ylt/coro_io/rate_limiter.hpp:108-125 | from any state a request delays later ones exactly when the part of it that is not stored costs at least a millisecond |
| RateLimiter.FastRateNeverWaits | include/ylt/coro_io/rate_limiter.hpp:58-125 | with an interval below a millisecond, in every run of single permits from any state each is granted at the latest clock reading so far or at the free time the run began with |
| RateLimiter.SinglePermitIsFree | include/ylt/coro_io/rate_limiter.hpp:108-125 | at such a rate a single permit never moves the free time past its own grant, whatever is stored |
| RateLimiter.LatestIsOwn | include/ylt/coro_io/rate_limiter.hpp:58-66 | with a clock that does not go back the latest reading is the request's own, so nobody waits |
| RateLimiter.BurstChangesNothing | include/ylt/coro_io/rate_limiter.hpp:117-123 | on an empty store any number of single permits at one instant leaves the limiter as it was |
| RateLimiter.OverfullIff | include/ylt/coro_io/rate_limiter.hpp:114-124 | a reservation keeps the store within its capacity if and only if it returns no more than the room left |
| RateLimiter.NegativePermitsOverfill | include/ylt/coro_io/rate_limiter.hpp:114-124 | an instance: five permits stored where one fits |
| Md5.PaddingIff | include/ylt/struct_pack/md5_constexpr.hpp:133-166 | the byte-wise view is the padding of sections 3.1 and 3.2 of RFC 1321 if and only if the message is shorter than 2^29 bytes, for every 32-bit length |
| Md5.Padding | include/ylt/struct_pack/md5_constexpr.hpp:133-135 | every message has exactly one RFC 1321 padding, a whole number of blocks long |
| Md5.LengthBytes | include/ylt/struct_pack/md5_constexpr.hpp:138-161 | the eight length bytes are those of the 64-bit bit count below 2^29 bytes, and the fifth is wrong from there on |
| Md5.JoinIsLittleEndian | include/ylt/struct_pack/md5_constexpr.hpp:170-185 | shifting and or-ing four bytes reads them low-order byte first |
| Md5.RoundDataIsWords | include/ylt/struct_pack/md5_constexpr.hpp:188-210 | the round data at an offset is the sixteen words of that block of the view |
| Md5.FormsAgree | include/ylt/struct_pack/md5_constexpr.hpp:214-229 | the xor forms compute RFC 1321's F, G, H and I |
| Md5.ReadsAgree | include/ylt/struct_pack/md5_constexpr.hpp:235-249 | the index formulas give the word order of the RFC's four rounds |
| Md5.ShiftsAgree | include/ylt/struct_pack/md5_constexpr.hpp:251-254 | the shift table gives the RFC's shifts |
| Md5.SinesAgree | include/ylt/struct_pack/md5_constexpr.hpp:111-122 | the constants are those of the RFC's rounds |
| Md5.LeftRotateIsRotate | include/ylt/struct_pack/md5_constexpr.hpp:256-260 | two shifts and an or are a circular shift, one bit at a time, for every amount from 1 to 31 |
| Md5.StepIsOperation | include/ylt/struct_pack/md5_constexpr.hpp:262-275 | one tuple-rotating step is one register-named operation [abcd k s i] |
| Md5.StepsAreRounds | include/ylt/struct_pack/md5_constexpr.hpp:262-296 | from any step on, the remaining steps equal the remaining operations of section 3.4, up to the renaming of registers |
| Md5.StepIsBijection | include/ylt/struct_pack/md5_constexpr.hpp:262-275 | for a fixed block each step has a two-sided inverse |
| Md5.StepsAreBijection | include/ylt/struct_pack/md5_constexpr.hpp:291-292 | so have all 64 steps together |
| Md5.StartIsInitial | include/ylt/struct_pack/md5_constexpr.hpp:126-127 | the initial data are the start registers of section 3.3 of RFC 1321, given there as bytes with the low-order byte first |
| Md5.AddIsFinalAddition | include/ylt/struct_pack/md5_constexpr.hpp:277-283 | adding two states is the RFC's final addition of a block to the registers saved before it |
| Md5.ProcessMessage | include/ylt/struct_pack/md5_constexpr.hpp:284-296 | the nested loops compute the RFC's digest state, from the start registers of its section 3.3, of the padded view, hence of the message below 2^29 bytes |
| Md5.SwapIsBigEndian | include/ylt/struct_pack/md5_constexpr.hpp:309-312 | swapping a word reads its output bytes most significant first |
| Md5.Hash32 | include/ylt/struct_pack/md5_constexpr.hpp:320-323 | the first four bytes of the MD5 digest as a big-endian number |
| Md5.Hash64 | include/ylt/struct_pack/md5_constexpr.hpp:315-319 | the first eight bytes of the MD5 digest as two big-endian halves |
| Varint.SerializeVarint | include/ylt/struct_pack/varint.hpp:243-270 | the loop writes the base-128 digits, least significant first, all but the last with the top bit |
| Varint.CalculateVarintSize | include/ylt/struct_pack/varint.hpp:212-240 | the counting loop gives the number of bytes the writer produces |
| Varint.DeserializeVarint | include/ylt/struct_pack/varint.hpp:276-297 | the reading loop, with its two errors, consumes at most ten bytes and never past the end |
| Varint.OrIsSum | include/ylt/struct_pack/varint.hpp:286-291 | at every byte the bits read so far lie below those or-ed in, so the or is a sum that fits 64 bits, also where the shift drops bits |
| Varint.LengthIsLeast | include/ylt/struct_pack/varint.hpp:212-240 | the length is the least number of base-128 digits that holds the value |
| Varint.RoundTrip | include/ylt/struct_pack/varint.hpp:243-297 | every 64-bit value is read back whatever follows it |
| Varint.Truncated | include/ylt/struct_pack/varint.hpp:276-297 | every proper prefix of a coding is reported as too short |
| Varint.ZigzagInverse | include/ylt/struct_pack/varint.hpp:189-210 | zigzag is a bijection that keeps a number within its width |
| Varint.ZigzagBits64Inverse | include/ylt/struct_pack/varint.hpp:189-210 | the shift-and-xor forms are inverse on 64 bits |
| Varint.ZigzagBits32Inverse | include/ylt/struct_pack/varint.hpp:189-210 | a 32-bit value is read back through the 64-bit inverse |
| FastVarint.LosslessIff | include/ylt/struct_pack/packer.hpp:190-198 | cutting an integer to b bytes and extending it again gives it back exactly when it fits, signed or unsigned |
| FastVarint.FitAllIff | include/ylt/struct_pack/calculate_size.hpp:280-361 | a width suits every field exactly when it is at least the one chosen from the two maxima |
| FastVarint.WidthIsLeast | include/ylt/struct_pack/calculate_size.hpp:280-361 | the chosen width fits every signed and unsigned field, and no narrower one does |
| FastVarint.NarrowFields | include/ylt/struct_pack/packer.hpp:221-229 | eight bytes are never chosen for a struct of four-byte fields |
| FastVarint.CalculateFastVarintSize | include/ylt/struct_pack/calculate_size.hpp:280-385 | bitset + width * n64 + min(width, 4) * n32, zero without integer fields |
| FastVarint.BlockSize | include/ylt/struct_pack/packer.hpp:200-235 | the size pass and the writer agree to the byte |
| FastVarint.BitOfPacked | include/ylt/struct_pack/packer.hpp:157-212 | every flag is read back from the packed bitset |
| FastVarint.BlockReadBack | include/ylt/struct_pack/unpacker.hpp:643-742 | a block followed by anything is read whole and gives back every non-zero field; a zero field keeps the target's value |
| FastVarint.ReadBackIff | include/ylt/struct_pack/unpacker.hpp:643-742 | the written values are read back if and only if no target holds a non-zero value where a zero was written |
| FastVarint.StaleTarget | include/ylt/struct_pack/unpacker.hpp:648-651 | an instance: a zero read into a target of 7 is 7 |
| StructSize.AddIsCommutativeMonoid | include/ylt/struct_pack/size_info.hpp:19-32 | sizes can be added in any order and grouping |
| StructSize.CountsMany | include/ylt/struct_pack/calculate_size.hpp:39-189 | over arbitrarily nested values, size_cnt is the number of containers at any depth and max_size their largest size |
| StructSize.GetSerializeRuntimeInfo | include/ylt/struct_pack/calculate_size.hpp:407-474 | the step-by-step construction of length and metainfo |
| StructSize.SizeTypeIsLeast | include/ylt/struct_pack/calculate_size.hpp:418-445 | the one width in bits 3 and 4 holds every container size in the tree, and is the smallest that does |
| StructSize.LengthFieldIsLeast | include/ylt/struct_pack/calculate_size.hpp:446-472 | the field of bits 0 and 1 holds the final length including itself, and no shorter field would |
| StructSize.WriteManySize | include/ylt/struct_pack/packer.hpp:237-452 | the main pass writes exactly what was counted, less the compatible members |
| StructSize.PassesMany | include/ylt/struct_pack/packer.hpp:58-79 | the version passes write every reachable compatible member exactly once |
| StructSize.LostManyIff | include/ylt/struct_pack/packer.hpp:453-524 | bytes are counted and never written exactly when a compatible member is inside another one or behind a base-class pointer |
| StructSize.HeaderIff | include/ylt/struct_pack/packer.hpp:90-140 | the header has the counted length if and only if the first argument decides on the metainfo byte like all arguments do, or the sizes are wide |
| StructSize.HeaderExcess | include/ylt/struct_pack/packer.hpp:90-140 | a header that disagrees has exactly one byte too many when the first argument wants the metainfo byte, and too few otherwise |
| StructSize.FirstArgumentDecides | include/ylt/struct_pack/packer.hpp:90-140 | an instance: a byte and an empty compatible member as two arguments, nothing hidden, and three counted bytes not written |
| StructSize.PackedLength | include/ylt/struct_pack/packer.hpp:67-140 | for every tree: bytes written plus unwritten hidden members make up the predicted length |
| StructSize.ExactIff | include/ylt/struct_pack/calculate_size.hpp:407-474 | for any arguments the predicted length is the number of bytes written if and only if the header agrees and no member is hidden, or the header has one byte too many and exactly one counted byte is hidden; for one argument the prediction is never too small |
| StructSize.TwoErrorsCancel | include/ylt/struct_pack/packer.hpp:90-140 | an instance: a hidden byte and an uncounted metainfo byte cancel out |
| StructSize.HiddenMember | include/ylt/struct_pack/packer.hpp:453-462 | an instance: one byte counted and not written |
| StructRead.OneReadBack | include/ylt/struct_pack/unpacker.hpp:780-1351 | the main pass reads a value of any type back from its bytes, whatever follows, with its compatible members empty |
| StructRead.MembersReadBack | include/ylt/struct_pack/unpacker.hpp:621-631 | so for the members of a struct, with its integers from the shared block or one by one |
| StructRead.VersionReadBack | include/ylt/struct_pack/unpacker.hpp:1352-1548 | a later pass fills exactly the reachable members of its version and reads exactly their bytes |
| StructRead.PassesReadBack | include/ylt/struct_pack/unpacker.hpp:292-366 | after the passes in ascending order every reachable member of those versions is filled |
| StructRead.NothingLeftToPass | include/ylt/struct_pack/unpacker.hpp:1354-1362 | past the end of the data no pass changes or reads anything |
| StructRead.MetainfoBits | include/ylt/struct_pack/calculate_size.hpp:407-474 | bits 0 and 1 tell the width of the length, bit 2 whether the type literal follows, bits 3 and 4 the width of sizes |
| StructRead.HeaderReadBack | include/ylt/struct_pack/unpacker.hpp:548-619 | the header is accepted by the reader, which finds the width of sizes and the total length if it was written |
| StructRead.MainPassRead | include/ylt/struct_pack/unpacker.hpp:101-162 | what a reader has after the main pass, and the bytes left to its later passes |
| StructRead.SerializedIsReadBack | include/ylt/struct_pack/unpacker.hpp:101-162 | for any arguments of any nesting: what deserializing the bytes of serialize gives, followed by anything, and which bytes are left |
| StructRead.RoundTripIff | include/ylt/struct_pack/unpacker.hpp:101-162 | the arguments are read back as they were if and only if no filled compatible member is nested in another or behind a base-class pointer, and the header announces the length or there is no compatible member to reach; a single argument always announces it |
| StructRead.ConsumedIff | include/ylt/struct_pack.hpp:326-384 | the consumed length is that of the object, so the next one is found, if and only if the announced length is exact, or nothing had to be announced |
| StructRead.NestedMemberIsLost | include/ylt/struct_pack/unpacker.hpp:1354-1376 | an instance: a byte in a compatible member inside another one is not read back |
| StructRead.SecondArgumentIsLost | include/ylt/struct_pack/packer.hpp:90-140 | an instance: of a byte and a compatible byte as two arguments the second comes back empty |
| StructUpgrade.SameMainAll | include/ylt/struct_pack/packer.hpp:237-452 | the main pass writes the same bytes before and after members are added, at any depth and between paddings |
| StructUpgrade.SamePasses | include/ylt/struct_pack/packer.hpp:58-79 | so does every pass of an earlier version |
| StructUpgrade.PassesShrink | include/ylt/struct_pack/unpacker.hpp:292-366 | no pass, on any bytes, gives back bytes it has read |
| StructUpgrade.PassesTake | include/ylt/struct_pack/unpacker.hpp:1354-1376 | a pass that meets a member before the end of the data fails or reads at least a byte |
| StructUpgrade.OlderDataIff | include/ylt/struct_pack/unpacker.hpp:101-162 | older data, whatever follows it, gives the upgraded program the older value with every added member empty, and leaves off at its end, if and only if nothing was lost in writing it and the announced length is exact, or no added member is looked for |
| StructUpgrade.NewerDataRead | include/ylt/struct_pack/unpacker.hpp:101-162 | newer data gives the older program the older value as far as it was written, and leaves exactly the bytes of the added members unread |
| StructUpgrade.NewerDataIff | include/ylt/struct_pack/unpacker.hpp:164-226 | it gives the older value whole if and only if no early member was lost, and the object after it is found if and only if the announced length is exact |
| StructUpgrade.NestingBreaksUpgrade | include/ylt/struct_pack/unpacker.hpp:1354-1362 | an instance: an empty compatible member nested in another one, and an upgraded program that cannot read the data |

## Left out

- Sockets, files, SSL, RDMA, CUDA, acceptors, client pools and the rest of coro_io: plumbing over asio.
- easylog, metric managers, dynamic and system metrics, text and JSON output: thin layers that would only add easy members.
- struct_pack's type hashing, alignment computation and reflection: the hash, alignment paddings and type traits are inputs of the model.
- Reading into used objects (beyond fast varints), partial reads of one field, views, maps and sets, whose elements are containers here; errors inside an optional or a compatible member, which the program ignores, end the reading here.
- Several arguments without a hash whose first one decides differently on the metainfo byte: not read back in the model.
- Memory orders: all interleavings are sequentially consistent; a pool is an id with an aliveness that may change at every check.
- Floating-point rounding of quantile targets, sums and permits: these are reals.
- The summary's buffers under concurrent inserts: the sketch is sequential; its atomics are single steps of one thread.
- NaN observations in the accuracy results: they are counted and land in the bucket of plus or minus 2^64, but have no place in an order.
- Overflow of the 64-bit count of a read-out and of 64-bit container totals: counts are unbounded integers.
- Rates given as infinities: an infinite rate is any rate above 1 or below 0.
- The random balancer. Weights and the level are unbounded integers.
- More than 2^30 pools, where the retry loop's int counter would overflow.
- A negative or zero rate of the limiter, and its constructor's first set_rate call, which is the initial state.
- Copying, moving and destroying a striped counter; wrap-around of its values: amounts are unbounded integers.
- `async_io` and `schedule` without a slot; the slot runs its handler at most once.
- The sine definition of RFC 1321's table T: its 64 values are spelled out.
- Finding the end of a C string before hashing it: a message is a sequence of bytes.
- An unknown struct_pack_id behind a base-class pointer, which throws; user-defined serialization is taken to write what it announces.
- Big-endian machines: bytes are those of the little-endian paths.
