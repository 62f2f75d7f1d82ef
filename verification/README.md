# Lancet, verified

A Dafny model of the three cores of the Lancet load and latency tester, with proofs of what they promise:

* the **statistics kernel** of the agents: sample rings and their aggregation, the Kolmogorov-Smirnov merge and the
  verdicts drawn from it, percentiles with confidence bounds, inter-arrival gaps, and the one-pass correlation;
* the **per-connection engine**: the window of 16 outstanding requests, the splitting of the response stream into
  messages, and the ring that matches responses to transmission times;
* the **coordinator and manager**: the adaptive experiment, the byte protocol, and the agent's command loop.

Code that updates state in place is modelled by classes and methods on arrays (`Stats`, `Aggregate`, `Connection`,
`Thread`, `PendingTx`, `Agent`, `Coordinator`, and the sorting and merging loops); each such method is tied by its
`ensures` to a function or a relation about which the lemmas then speak. Whole runs are folds of a step function over
a list of events.

| module | what it covers |
|---|---|
| `Numeric`, `Sorting`, `Comparators` | integer conversions, `qsort`, and when the comparators sort |
| `KsStatistic`, `KsMerge`, `Verdicts` | the two-sample statistic, the merge loops, the convergence test |
| `Rings`, `ThreadStats` | sample rings, per-thread statistics, aggregation |
| `Percentiles`, `InterArrival`, `Pearson` | confidence bounds, inter-arrival compliance, correlation |
| `Framing`, `LoadThread` | receive side of a connection, window and counters of a thread |
| `Timestamping`, `TimestampRuns` | the time-stamp ring, and its runs in both symmetric modes |
| `SymmetricThread` | the send and receive steps of both symmetric modes, composed |
| `Wire`, `WireLayout`, `Manager` | round trips and offsets of the byte protocol, the agent's command loop |
| `AgentStats`, `Coordinator`, `CoordinatorRuns`, `Asymmetric` | aggregation over agents, the experiments |
| `Reporting` | the manager's reports, from the rings of the threads to the numbers sent |
| `EndToEnd` | coordinator and agents together |
| `Counterexamples` | concrete inputs behind the findings |

## Findings

Places where the code does not do what its documentation or the obvious reading promises. Each names the lemma with
the exact condition and, where the condition alone does not show it, the one with a concrete input.

* Commands can abort the agent. An experiment is handled to its end exactly if at every command no load thread has failed
  an assertion, the distribution of the load can be given an average, every latency report finds at least 4 samples and,
  on hardware-timed agents, every report finds times the compliance test can process (`EndToEnd.FixedExperimentServed`,
  `InterArrival.ComplianceRunsIff`). An empty measurement fails (`Counterexamples.EmptyMeasurementAborts`), and so do more
  than 16 hardware-timed threads with full rings, whose times do not fit the test's array (`Manager.FullRingsFitIff`,
  `Counterexamples.FullRingsAbort`).
* The confidence bounds stay within the samples for all four percentiles exactly from 726 samples on
  (`Percentiles.AllBoundsInRangeIff`). Below, the upper bound of the 99th percentile reads a cleared slot, the zero
  shown at README.md:43 (`Percentiles.IntervalsSoundIff`), and the coordinator's check of the interval then passes
  (`EndToEnd.ShortMeasurementsPass`).
* The comparators truncate a 64-bit difference: exact below 2^31 (`Comparators.LongCompareRightIff`), and cyclic beyond
  (`Comparators.SampleCmpLatencyCycles`).
* The merge loop is the exact statistic for samples of equal length; otherwise it can over-estimate, exactly when a tie
  gap exceeds every true gap (`KsStatistic.MergeKsAgainstKs`, `KsStatistic.MergeKsOverestimates`). Requests spaced
  exactly like a constant reference pass the compliance test only if there are at most 3 gaps or about as many as the
  8192 values of the reference (`Counterexamples.EqualGapsVerdict` gives the condition); 100 gaps fail it
  (`Counterexamples.EqualGapsRejected`).
* The check announced as convergence looks at the correlations (lancet/coordinator/coordinator.go:267-279); the
  agents' convergence verdicts have no influence (`CoordinatorRuns.ConvergenceIgnored`).
* The sums of squares of the correlation wrap around (`Pearson.VariancesRightIff`); a variance that becomes negative
  makes it undefined (`Pearson.NegativeVariance`), and an undefined one passes the coordinator's check
  (`CoordinatorRuns.AcceptedIff`).
* Together: from seven latencies of 100 microseconds followed by seven of two seconds a hardware-timed agent reports, as
  it can (`Counterexamples.SlowedReportable`), that they did not converge and an undefined correlation, although their
  coefficient exceeds the limit; the coordinator accepts, and the whole experiment succeeds (`Counterexamples.SlowedAccepted`, `Counterexamples.SlowedCorrelated`,
  `Counterexamples.SuccessWithoutConvergence`).
* An agent with a single thread accepts up to 129774 samples, with 2 to 64 threads all the adaptive experiment asks for
  (`Manager.CapAcceptedIff`); an experiment whose interval stays wide comes to ask for 200000, and a single-threaded
  agent then aborts (`Counterexamples.SingleThreadAborts`).
* The ring keeps the byte ends of all requests that wait for the card's time exactly while fewer than 16 wait
  (`TimestampRuns.SendKeepsEndsIff`). The window does not ensure that: in a run that respects it a sample takes the time
  of a later report (`TimestampRuns.WrongSampleWithinWindow`).
* Any reply of at most eight bytes is taken for an acknowledgement (`Wire.IsAckIff`).
* The stepped experiment ends by itself with a positive step (`Asymmetric.StepsEnd`) and goes on without one
  (`Asymmetric.StepsGoOn`).
* Valid intervals of n agents with upper bounds up to b aggregate to valid ones exactly if n * b is below 2^64
  (`AgentStats.IntervalsKeptIff`). A negative latency travels as a number just below 2^64 and inverts the interval
  (`AgentStats.OverflowInverts`, `Counterexamples.NegativeLatencyInverts`).

## Model

| member | source | states |
|---|---|---|
| Sorting.Qsort | lancet/agents/stats.c:139-140 | the in-place sort leaves the sorted sequence in the range and nothing else changed |
| Sorting.SortByOrdered | lancet/agents/stats.c:139-140 | the sequence is in order for every comparator that agrees with a total preorder on the values present |
| Sorting.SortedStays | lancet/agents/stats.c:139-140 | a sequence in order stays as it is |
| Comparators.LongCompareRightIff | lancet/agents/stats.c:98-101 | the truncated difference has the right sign for all pairs within a width exactly if the width is below 2^31 |
| Comparators.SampleCmpLatencyCycles | lancet/agents/stats.c:103-111 | three latencies that the comparator orders in a cycle |
| Comparators.LongCompareSorts | lancet/agents/stats.c:98-101 | values within 2^31 of each other end up ascending |
| Comparators.SampleCmpLatencySorts | lancet/agents/stats.c:103-111 | latencies within 2^31 of each other end up ascending |
| Comparators.SampleCmpTxSorts | lancet/agents/stats.c:113-124 | although it never answers negative, samples end up in order of transmission, given a sort that only asks whether an earlier element exceeds a later one |
| Comparators.TimespecCmpSorts | lancet/agents/stats.c:322-333 | normalised times that lie close together end up in order |
| KsMerge.MergeKs | lancet/agents/stats.c:142-160 | on ascending inputs the loop returns the least upper bound of the gaps and tie gaps, though it stops when one input is exhausted |
| KsMerge.VisitedWithin | lancet/agents/stats.c:146-153 | every point the loop visits lies between points that belong to the supremum |
| KsMerge.TailCovered | lancet/agents/stats.c:143 | the part not scanned holds no larger difference |
| KsMerge.MergeStep | lancet/agents/stats.c:143-159 | one iteration extends the covered part of both samples |
| KsMerge.LeastBoundIsMergeKs | lancet/agents/stats.c:142-160 | the integer bound the loop maintains is the real statistic |
| KsStatistic.MergeKsAgainstKs | lancet/agents/stats.c:129-161 | never below the true statistic, and equal exactly if no tie gap exceeds it |
| KsStatistic.MergeKsExactForEqualLengths | lancet/agents/stats.c:163-203 | for equal lengths the loop is the exact supremum of the distances of the empirical distributions, whatever the ties |
| KsStatistic.MergeKsExactForBalancedTies | lancet/agents/stats.c:129-161 | exact if every shared value occurs equally often in both, as when it occurs once in each |
| KsStatistic.EqualValues | lancet/agents/stats.c:142-160 | for a single value throughout both samples the statistic is 0 and the loop yields exactly the relative excess of the lengths |
| KsStatistic.MergeKsOverestimates | lancet/agents/stats.c:376 | so for any two different lengths it over-estimates |
| KsStatistic.SamePermutationSameGaps | lancet/agents/stats.c:138-140 | the statistic of the sorted arrays is that of the arrays |
| KsStatistic.CountLePermutation | lancet/agents/stats.c:138-140 | the empirical distribution does not depend on the order |
| Verdicts.Ks | lancet/agents/stats.c:129-161 | sorts both arrays and returns the merge statistic of what they held |
| Verdicts.KsLts | lancet/agents/stats.c:163-195 | the same for the halves of the sample array |
| Verdicts.SortedMergeIsKs | lancet/agents/stats.c:138-160 | merging the sorted copies measures the originals |
| Verdicts.HalvesInOrder | lancet/agents/stats.c:200-203 | every sample of the early half was sent no later than every sample of the late half |
| Verdicts.CompareHalves | lancet/agents/stats.c:203 | the statistic of the two halves, an odd last sample left out |
| Verdicts.ComputeConvergence | lancet/agents/stats.c:197-217 | the verdict is whether the exact statistic of the early and late halves is below the critical value |
| Verdicts.CriticalValue | lancet/agents/stats.c:204-205 | comparing with the root is comparing the squares, cross-multiplied |
| Verdicts.Decide | lancet/agents/stats.c:204-216 | the verdict without the square root |
| Rings.RingAppend | lancet/agents/stats.c:479 | writing the next slot appends to what the ring remembers |
| Rings.RingHoldsLast | lancet/agents/stats.c:479-483 | the live slots are as a multiset exactly the last `cap` values ever written |
| ThreadStats.Stats.Clear | lancet/agents/stats.c:71-97 | forgets all samples and counters, for every later cap |
| ThreadStats.Stats.AddThroughputTx | lancet/agents/stats.c:443-452 | adds bytes and requests exactly while measuring |
| ThreadStats.Stats.AddThroughputRx | lancet/agents/stats.c:454-462 | adds bytes and requests exactly while measuring |
| ThreadStats.Stats.AddLatencySample | lancet/agents/stats.c:473-486 | appends to the history exactly if measuring and drawn; ring, `count` and `size` follow the history |
| ThreadStats.TxSamples.AddTxTimestamp | lancet/agents/stats.c:464-471 | appends the time exactly while measuring |
| ThreadStats.LiveSamplesAreLast | lancet/agents/stats.c:479-483 | a thread's live samples are the last `cap` recorded since the clear |
| ThreadStats.LiveTimesAreLast | lancet/agents/stats.c:464-471 | a thread's live times are the last 2048 recorded since the clear |
| ThreadStats.JoinedRetains | lancet/agents/stats.c:310-318 | concatenating live samples gives the multiset union of what each thread retains |
| ThreadStats.ContributionsRetained | lancet/agents/stats.c:310-319 | the union holds exactly the last `cap` samples of each thread, at most threads times `cap` |
| ThreadStats.Aggregate.AggregateThroughput | lancet/agents/stats.c:290-301 | each of the four counters is the sum of the threads' counters |
| ThreadStats.JoinedTotals | lancet/agents/stats.c:295-300 | joining the threads one after the other gives those sums |
| ThreadStats.Aggregate.Accumulate | lancet/agents/stats.c:311-317 | one thread's samples are copied behind those already there |
| ThreadStats.Aggregate.AggregateLatency | lancet/agents/stats.c:303-320 | counters summed, live samples concatenated, `size` their number, the rest of the buffer zero |
| Percentiles.BoundsIff | lancet/agents/stats.c:237-249 | the lower position is the last integer at least 1.96 standard deviations below the mean, the upper one follows the first integer as far above it, both told by squared inequalities without the root |
| Percentiles.BoundsOfThousand | lancet/agents/stats.c:237-249 | of a thousand samples the bounds of the median are at 469 and 532, of the 99th percentile at 983 and 998 |
| Percentiles.EstimateIs | lancet/agents/stats.c:265-287 | on sorted samples percentile, lower and upper bound have the ranks of their positions; an upper position past the samples reads zero |
| Percentiles.AllBoundsInRangeIff | lancet/agents/stats.c:237-249 | all bounds lie within the samples exactly from 726 samples on |
| Percentiles.ComputePercentilesCi | lancet/agents/stats.c:251-288 | sorts in place and returns what the sorted samples hold at the computed positions; none if the assertion or an index fails |
| Percentiles.SumLatencies | lancet/agents/stats.c:259-260 | the sum modulo 2^64 |
| Percentiles.RankDeterminesValue | lancet/agents/stats.c:265-287 | the value at a rank does not depend on the order of the samples |
| Percentiles.SummarySound | lancet/agents/stats.c:251-288 | from 726 samples on: intervals bracket, percentiles ascend, percentiles and bounds have their ranks, the mean lies between the extremes |
| Percentiles.SummaryRanked | lancet/agents/stats.c:265-287 | from 726 sorted samples on, whatever their values, intervals bracket, and percentiles and bounds have their ranks |
| Percentiles.EstimatesMeet | lancet/agents/stats.c:265-287 | from 4 sorted samples on, in a cleared buffer, percentiles and bounds have their ranks, and an upper bound past the samples is zero |
| Percentiles.MeanReported | lancet/agents/stats.c:259-263 | the reported mean is the sum of the samples modulo 2^64, in whatever order, over their number |
| Percentiles.SummarisesIff | lancet/agents/stats.c:262-287 | the assertion holds and all indexes are defined exactly from 4 samples on |
| Percentiles.SummaryBelow726 | lancet/agents/stats.c:284-287 | below 726 samples the last upper bound is read past them and the lower one is a sample |
| Percentiles.SummaryExistsIff | lancet/agents/stats.c:251-288 | something can be reported exactly from 4 samples on |
| Percentiles.IntervalsSoundIff | lancet/agents/stats.c:284-287 | reported intervals bracket exactly from 726 samples on; below, the last upper bound is zero |
| InterArrival.TimespecDiffExact | lancet/agents/timestamping.c:259-279 | the difference is exact in nanoseconds and normalised for ordered normalised times |
| InterArrival.GapsTelescope | lancet/agents/stats.c:359-368 | gaps add up to the last time minus the first |
| InterArrival.GapsSmallIff | lancet/agents/stats.c:366 | the assertion holds for all gaps exactly if neighbours are less than a second apart |
| InterArrival.ComplianceRunsIff | lancet/agents/stats.c:357-368 | no assertion fails exactly if all seconds are non-zero and neighbours close |
| InterArrival.CollectGaps | lancet/agents/stats.c:360-368 | returns the gaps of the sorted times, or the failed assertion |
| InterArrival.ConcatBound | lancet/agents/stats.c:349-355 | all threads together contribute at most threads times the ring size, so up to 16 threads fit the buffer |
| InterArrival.CollectTimes | lancet/agents/stats.c:349-354 | the live times of all threads, one after the other |
| InterArrival.CollectedAreLast | lancet/agents/stats.c:350-354 | the collected times are the last 2048 each thread recorded |
| InterArrival.SortedTimes | lancet/agents/stats.c:357 | the same times in order |
| InterArrival.TestGaps | lancet/agents/stats.c:376-380 | the verdict on the gaps against the reference sample |
| InterArrival.CheckIa | lancet/agents/stats.c:341-388 | the verdict says whether the merge statistic of reference and gaps is below the critical value |
| InterArrival.PassIsSound | lancet/agents/stats.c:376-380 | since the merge never under-estimates, passing implies passing with the true statistic |
| Pearson.SumsOfMiddle | lancet/agents/stats.c:399-404 | the sum and the sum of squares of all but the end values, modulo 2^64 |
| Pearson.CovarianceLoop | lancet/agents/stats.c:416-418 | the dot product of the centred lagged series |
| Pearson.OnePassVariance | lancet/agents/stats.c:405-413 | mean of squares minus squared mean is the mean squared deviation |
| Pearson.CauchySchwarz | lancet/agents/stats.c:412-421 | the square of a dot product is at most the product of the squared lengths |
| Pearson.CovarianceBound | lancet/agents/stats.c:420 | squared covariance at most the product of the variances |
| Pearson.QuotientIsCorrelation | lancet/agents/stats.c:412-421 | with positive variances the coefficient is in [-1, 1] |
| Pearson.SharedSumsWrap | lancet/agents/stats.c:399-410 | shared sums plus one end value are the sums of the lagged series, modulo 2^64 |
| Pearson.VariancesRightIff | lancet/agents/stats.c:399-413 | the computed variances are right exactly if both sums of squares fit 64 bits |
| Pearson.NegativeVariance | lancet/agents/stats.c:412-421 | a computed variance below zero makes the coefficient not a number |
| Pearson.OnePassCorrect | lancet/agents/stats.c:399-421 | without overflow the coefficient is the two-pass correlation of the lagged series |
| Pearson.Correlate | lancet/agents/stats.c:399-424 | the computation as a whole, wrap-around included; without overflow in [-1, 1] and the correlation, or not a number for a constant series |
| Pearson.CheckIid | lancet/agents/stats.c:390-425 | the same on the samples sorted by transmission time |
| Framing.AsciiConsume | lancet/agents/app_proto.c:168-189 | the loop counts whole messages; its assertion fails exactly below one message |
| Framing.ConsumeResponse | lancet/agents/app_proto.c:51-61 | all protocols consume the whole messages and nothing of the next: messages of the echo length, of 8 bytes, or of 40 bytes, of which the last needs one |
| Framing.WholeMessages | lancet/agents/app_proto.c:110-118 | bytes are the largest multiple of the message length in the buffer |
| Framing.Connection.Receive | lancet/agents/tp_tcp.c:290-318 | aborts exactly if no message is complete or, in the symmetric modes, one is split; otherwise counts them and keeps the trailing bytes |
| Framing.Connection.MoveRest | lancet/agents/tp_tcp.c:310-312 | the rest moves to the front; called only where source and destination do not overlap |
| Framing.WholeMessagesSplit | lancet/agents/tp_tcp.c:305-312 | the rest is shorter than what was consumed |
| Framing.ResidueExtends | lancet/agents/tp_tcp.c:292-312 | what is buffered after one more chunk is the residue of the whole stream |
| Framing.FeedTotals | lancet/agents/tp_tcp.c:290-318 | over any chunking, requests counted are the whole messages of the stream and the buffer is its residue |
| Framing.FeedSurvivesIff | lancet/agents/tp_tcp.c:316 | the thread survives a chunking exactly if each chunk completes a message |
| Framing.ReceiveAll | lancet/agents/tp_tcp.c:284-318 | the receives of a connection, one after the other, give these totals and this buffer, or abort at the same chunk |
| LoadThread.StepConserves | lancet/agents/tp_tcp.c:257-321 | sends, responses and closes keep free plus used slots equal to connections times 16 |
| LoadThread.NoSlotsIffAllFull | lancet/agents/tp_tcp.c:272-273 | no slot is free exactly when every connection is full |
| LoadThread.RunConserves | lancet/agents/tp_tcp.c:252-328 | conservation in every run |
| LoadThread.AccountingHolds | lancet/agents/tp_tcp.c:275-321 | while measuring, sent minus received is the change of outstanding requests |
| LoadThread.MeasurementAccounting | lancet/agents/tp_tcp.c:275-321 | the same from the clear on, and kept when measuring stops |
| LoadThread.AggregateAccounting | lancet/agents/stats.c:290-301 | the law summed over all threads, each with its own run |
| LoadThread.CountersCount | lancet/agents/stats.c:443-462 | from the clear on, byte and request counters are exactly those of the sends and of the response batches |
| LoadThread.AggregateCounters | lancet/agents/stats.c:290-301 | in the aggregate, whenever it is taken after the stop, bytes and requests are those of all sends and response batches of the measurement; requests sent minus answered is what was outstanding at the stop minus what was at the clear |
| LoadThread.CountersFrozen | lancet/agents/stats.c:443-462 | between a stop and the next start no send, response or close touches the counters, bytes included |
| LoadThread.Thread.StartMeasuring | lancet/agents/stats.c:87-97 | the clear is the start of a measurement in the window machine |
| LoadThread.Thread.PickConn | lancet/agents/tp_tcp.c:50-63 | the picked connection is the first of ten drawn that is open and below its window; none is picked only if all ten are closed or full |
| LoadThread.Thread.SendOn | lancet/agents/tp_tcp.c:272-278 | connection, free slots and counters change as one send of the window machine, no other connection does |
| LoadThread.Thread.ReceiveOn | lancet/agents/tp_tcp.c:298-321 | an empty receive closes the connection; otherwise all changes are one batch of the whole messages buffered, at least one, unless the thread aborts |
| Timestamping.ExtractTimestamps | lancet/agents/timestamping.c:78-113 | the verdict is that of the last relevant message, time and byte those of the last that carry one; the assertion holds exactly if before each hardware time the verdict was that there is none |
| Timestamping.ExtractMeaning | lancet/agents/timestamping.c:84-111 | the same of the recursive specification |
| Timestamping.PendingTx.Add | lancet/agents/timestamping.c:224-229 | the structure becomes what the run proofs call sending: the end byte in the slot of `head`, which advances |
| Timestamping.PendingTx.PopTimestamp | lancet/agents/timestamping.c:231-244 | below `tail` the time of the next request, which is consumed; else nothing changes |
| Timestamping.PendingTx.Push | lancet/agents/timestamping.c:246-257 | the time goes to the slot of `tail`, both cursors advance, and the same time is recorded |
| Timestamping.PendingTx.Skip | lancet/inc/lancet/timestamping.h:56-61 | consumes without reading a time; a count that is not positive changes nothing |
| Timestamping.PendingTx.GetTxTimestamp | lancet/agents/timestamping.c:178-222 | the loop resolves what the recursive specification resolves, and records as many times |
| Timestamping.NotifyAndRecord | lancet/agents/timestamping.c:204-216 | while measuring, every resolved request is recorded with its time in the thread's ring |
| TimestampRuns.CoalesceResolves | lancet/agents/timestamping.c:209-217 | a report resolves exactly the pending requests it covers, all with its time |
| TimestampRuns.NotifyKeepsTrack | lancet/agents/timestamping.c:178-222 | after a report `tail` is the number of requests whose last byte is reported |
| TimestampRuns.AddKeepsTrack | lancet/agents/timestamping.c:224-229 | sending keeps the ring a window on the history while fewer than 16 wait |
| TimestampRuns.SendKeepsEndsIff | lancet/agents/timestamping.c:224-229 | sending keeps the byte end of every waiting request exactly if fewer than 16 wait |
| TimestampRuns.WrongSampleWithinWindow | lancet/agents/tp_tcp.c:426-520 | a run within the window, with whole ordered reports and responses in order, in which a sample takes a wrong time |
| TimestampRuns.AddBeyondWindowOverwrites | lancet/agents/timestamping.c:224-229 | with 16 waiting, sending overwrites the byte end of the oldest |
| TimestampRuns.AnsweredKeepsTrack | lancet/agents/tp_tcp.c:500-522 | a batch yields the time of exactly its last request if a report covers it, and no sample otherwise |
| TimestampRuns.NicRunRefines | lancet/agents/tp_tcp.c:425-528 | in every run that sends only while fewer than 16 wait, every sample uses the time of the first report that covers the last byte of its request |
| TimestampRuns.NicReceive | lancet/agents/tp_tcp.c:504-517 | the receive step, on the structure |
| TimestampRuns.UserStepRefines | lancet/agents/tp_tcp.c:588-658 | each step agrees with an unbounded queue; no live slot is overwritten and a pop always finds its time |
| TimestampRuns.UserRunRefinesFifo | lancet/agents/tp_tcp.c:573-658 | in every run the ring of 16 answers exactly like the queue |
| TimestampRuns.UserReceive | lancet/agents/tp_tcp.c:647-658 | the receive step, on the structure |
| SymmetricThread.TakeSample | lancet/agents/tp_tcp.c:518-522 | a sample is the exact difference of the two times, recorded with its transmission time if both are known; in user space a second or more aborts |
| SymmetricThread.UserSend | lancet/agents/tp_tcp.c:588-602 | window, ring and queue of times advance together, on one count of outstanding requests |
| SymmetricThread.UserReceive | lancet/agents/tp_tcp.c:614-661 | the sample is the time from the transmission of exactly the last request answered; window, ring and queue advance together |
| SymmetricThread.NicSend | lancet/agents/tp_tcp.c:440-453 | window and ring advance together while fewer than 16 requests wait for their time |
| SymmetricThread.NicReceive | lancet/agents/tp_tcp.c:473-525 | the sample is the time from the first report that covers the last request answered, and none is taken without one |
| Wire.FromToBytes | lancet/coordinator/proto.go:219-243 | little-endian decoding inverts encoding |
| Wire.ToFromBytes | lancet/coordinator/proto.go:219-243 | and encoding inverts decoding |
| Wire.DecodeInvertsEncode | lancet/inc/lancet/coord_proto.h:61-70 | packed structs are read back and what follows is left |
| Wire.ParseInvertsEncode | lancet/agents/manager.c:294-330 | the manager's reads recover each encoded command, whatever follows |
| Wire.ParseCases | lancet/agents/manager.c:294-353 | what any bytes lead to: the end, an unknown type, bytes that run out, or a command of 12 or 20 bytes |
| Wire.ThroughputRoundTrip | lancet/coordinator/proto.go:74-113 | the coordinator reads back a throughput reply, with and without the compliance flag |
| Wire.LatencyRoundTrip | lancet/coordinator/proto.go:115-186 | the coordinator reads back a latency reply, with and without the trailer |
| Wire.TrailerRoundTrip | lancet/agents/manager.c:218-256 | convergence, correlation and compliance are read back |
| WireLayout.ByteAt | lancet/coordinator/proto.go:228-229 | byte i of a number is its i-th from the lowest |
| WireLayout.CommandLayout | lancet/inc/lancet/coord_proto.h:61-69 | type, payload length and payload of each command at their offsets |
| WireLayout.AckLayout | lancet/inc/lancet/coord_proto.h:51-69 | an acknowledgement is the reply type, length 4 and kind 0 |
| WireLayout.ThroughputLayout | lancet/inc/lancet/coord_proto.h:78-83 | bytes received at 12, sent at 20, requests at 28, duration at 36; the compliance flag at 56 |
| WireLayout.LatencyLayout | lancet/inc/lancet/coord_proto.h:85-100 | throughput from 12, mean at 44, then lower bound, value and upper bound of the four percentiles up to 148, and the trailer |
| WireLayout.TrailerLayout | lancet/agents/manager.c:228-252 | convergence flag at 12, bits of the correlation at 28, compliance flag at 48 of the trailer |
| Wire.AckRoundTrip | lancet/agents/manager.c:263-278 | the acknowledgement is accepted, and a throughput reply in its place is not |
| Wire.IsAckIff | lancet/coordinator/proto.go:51-72 | an acknowledgement is whatever brings no non-zero byte for the third word |
| Wire.CollectAcks | lancet/coordinator/proto.go:51-72 | succeeds exactly if every agent acknowledged |
| Wire.CollectThroughput | lancet/coordinator/proto.go:74-113 | succeeds exactly if every reply parses; replies in order, flags of those that sent one |
| Wire.CollectLatency | lancet/coordinator/proto.go:115-186 | succeeds exactly if every reply parses; replies in order, trailers of those that sent one |
| Manager.BytesDriveLikeCommands | lancet/agents/manager.c:294-354 | the encoded bytes of any commands drive the agent like the commands themselves |
| Manager.Agent.HandleCommand | lancet/agents/manager.c:306-353 | the new state and answer of every command, and the aborts: a dead thread, a load that cannot be set, a share outside the limits, a report whose statistics fail |
| Manager.Agent.Run | lancet/agents/manager.c:294-355 | the loop on the bytes of a connection is the recursive specification; bytes that end within a command abort, an unknown type stops |
| Manager.CapInRange | lancet/agents/manager.c:322 | with 2 to 64 threads the share of 10000 to 200000 samples is accepted and all shares fit the aggregate |
| Manager.CapAcceptedIff | lancet/agents/stats.c:62-69 | for the thread counts that can start, 1 to 64, such a request is accepted exactly with two threads or up to 129774 samples |
| Manager.ReportableIff | lancet/agents/manager.c:336-339 | the statistics of a report are computed exactly if a latency report has 4 samples and a hardware-timed agent times it can process |
| Manager.FullRingsFitIff | lancet/agents/stats.c:349-355 | full rings fit the test exactly for up to 16 threads |
| Manager.LoadingStays | lancet/agents/manager.c:306-353 | no command stops the load |
| Manager.RoundsServed | lancet/agents/manager.c:294-354 | a conversation is handled exactly up to the first command the agent cannot get past; until then it measures only with an accepted cap and each report is the time since the start right before it |
| Manager.SettingsFollow | lancet/agents/manager.c:306-353 | after any commands the load is that of the last load command handled, sampling rate and share are those of the last measurement, each the initial one if there was none; the agent loads once told to and measures exactly if the last command did not set a load |
| AgentStats.AccumulatedSums | lancet/coordinator/stats.go:45-62 | the accumulator holds the wrapped sum of every field |
| AgentStats.ComputeStatsLatency | lancet/coordinator/stats.go:45-79 | every latency field is the wrapped sum of that field over the number of agents |
| AgentStats.ComputeStatsThroughput | lancet/coordinator/stats.go:33-43 | each counter is the sum over the agents modulo 2^64, the duration the first agent's |
| AgentStats.MeanOrdered | lancet/coordinator/stats.go:45-79 | means keep the order of two fields |
| AgentStats.MeanBetween | lancet/coordinator/stats.go:45-79 | without overflow a mean lies between the smallest and the largest reply |
| AgentStats.IntervalsKept | lancet/coordinator/stats.go:45-79 | valid intervals of all agents give a valid aggregated interval if the upper sum fits |
| AgentStats.IntervalsKeptIff | lancet/coordinator/stats.go:45-79 | all valid intervals of n agents, bounded by b, give valid aggregated ones exactly if n times b is below 2^64 |
| AgentStats.OverflowInverts | lancet/coordinator/stats.go:45-79 | a negative upper bound and its opposite average to zero, below the lower bound |
| AgentStats.CiCheckIsSigned | lancet/coordinator/coordinator.go:296 | for bounds within 2^63 of each other the unsigned subtraction and the conversion compare the true signed width |
| AgentStats.CiCheckCases | lancet/coordinator/coordinator.go:296 | for a valid interval the subtraction does not wrap; an inverted one always passes |
| Coordinator.OnTargetIff | lancet/coordinator/coordinator.go:199-208 | the throughput check as an inequality of integers; a measurement of no time passes exactly if it counted nothing |
| Coordinator.Coordinator.HasCorrelation | lancet/coordinator/coordinator.go:252-260 | whether some correlation exceeds a quarter |
| Coordinator.Coordinator.HasZero | lancet/coordinator/coordinator.go:267-275 | whether some correlation is zero |
| Coordinator.Coordinator.TryThroughput | lancet/coordinator/coordinator.go:186-231 | the state after a throughput round |
| Coordinator.Coordinator.TryLatency | lancet/coordinator/coordinator.go:233-304 | a correlation over a quarter halves the rate; otherwise a zero one or a wide interval asks for 10000 samples more; otherwise the experiment ends |
| Coordinator.Coordinator.FixedSymPattern | lancet/coordinator/coordinator.go:169-313 | commands sent and result are those of the recursive run |
| Coordinator.Coordinator.RunFixed | lancet/coordinator/coordinator.go:328-342 | experiments start from 10000 samples at rate 20 and need agents |
| CoordinatorRuns.ResultIff | lancet/coordinator/coordinator.go:183-312 | success, giving up and failed communication, each exactly for the round sequences that end so: success needs an accepted throughput round, then an accepted latency round within the tries |
| CoordinatorRuns.RunTold | lancet/coordinator/coordinator.go:183-312 | a run sends the load and two commands in each of its rounds, and in the last one no report if the measurement was not acknowledged |
| CoordinatorRuns.VerdictIff | lancet/coordinator/coordinator.go:250-300 | the verdict on a latency round, told by its correlations and its interval |
| CoordinatorRuns.MeasurementsFollowVerdicts | lancet/coordinator/coordinator.go:171-305 | every agent is sent its share of the load; the n-th measurement asks for 10000 samples, and 10000 more per latency round so far with no correlation over a quarter but a zero one or a wide interval, at 20 times the number of agents, halved per latency round with a correlation over a quarter; its report is of throughput until that was met, then of latency |
| CoordinatorRuns.TriesAccounted | lancet/coordinator/coordinator.go:201-298 | tries are throughput failures, rounds with a high correlation and inconclusive rounds, each counted once |
| CoordinatorRuns.StateBounds | lancet/coordinator/coordinator.go:183-298 | at most 200000 samples, at most 19 halvings |
| CoordinatorRuns.RunLength | lancet/coordinator/coordinator.go:183 | every run stops, after at most 21 rounds |
| CoordinatorRuns.SentIsConversation | lancet/coordinator/coordinator.go:169-313 | whatever the agents reply, what they are sent is a load followed by measurements, each reported once |
| CoordinatorRuns.RunFits | lancet/coordinator/proto.go:219-313 | every command fits its fields |
| CoordinatorRuns.AcceptedIff | lancet/coordinator/coordinator.go:250-300 | a latency round is accepted exactly if each correlation is undefined or at most a quarter and not zero, and the interval is narrow |
| CoordinatorRuns.ConvergenceIgnored | lancet/coordinator/coordinator.go:266-280 | the convergence verdicts do not influence the run |
| Asymmetric.SampledShare | lancet/coordinator/coordinator.go:75-82 | latency agents sample the wanted share of all requests, or all of their own if those are fewer |
| Asymmetric.StepPattern | lancet/coordinator/coordinator.go:315-326 | the loop sends what the recursive specification sends |
| Asymmetric.RoundCommands | lancet/coordinator/coordinator.go:57-116 | the commands of one round to both kinds of agents, position by position, how many are sent when a step fails, and when all succeed |
| Asymmetric.StepsCommands | lancet/coordinator/coordinator.go:317-324 | the commands by position: round j runs with the load start + j * step, shared among the throughput agents, and samples at the rate for that load |
| Asymmetric.StepsEnd | lancet/coordinator/coordinator.go:317-324 | with a positive step the loop ends within the distance to the end |
| Asymmetric.StepsGoOn | lancet/coordinator/coordinator.go:317-324 | without one it goes on for as long as all rounds succeed |
| Asymmetric.StepsAreConversations | lancet/coordinator/coordinator.go:57-100 | in any number of steps every agent is sent a conversation with the given number of samples |
| EndToEnd.FixedExperimentServed | lancet/coordinator/coordinator.go:169-313 | whatever the agents reply and however far the commands get, an agent with 2 to 64 threads handles all bytes exactly if every command is possible, aborts at the first that is not, before that reports the time of the measurement right before, and is left with the load and the sampling last set |
| EndToEnd.StepExperimentServed | lancet/coordinator/coordinator.go:315-326 | the same for the stepped experiment |
| EndToEnd.SamplesFitAggregate | lancet/agents/stats.c:316-319 | in every reachable round the copies fit the aggregation buffer |
| EndToEnd.UntilServed | lancet/agents/manager.c:294-354 | the same for any conversation and thread count: served until the first command the agent cannot get past |
| Reporting.CollectLatencyStats | lancet/agents/manager.c:126-132 | nothing below 4 samples; from there on the mean of the last samples of all threads, a zero last upper bound below 726, and, if the latencies lie within 2^31 ns, percentiles and bounds with the ranks of their positions among them; the counters are the threads' sums |
| Reporting.ReplyLatencyStats | lancet/agents/manager.c:174-226 | percentiles, convergence and correlation are all about the last samples of all threads, the latter two by their order of transmission, although each step sorts the same buffer anew |
| Reporting.Report | lancet/agents/manager.c:134-261 | on the threads' data a report is computed to the end exactly if the command loop's condition holds |
| Reporting.LatencyInBytes | lancet/agents/manager.c:191-217 | the bytes of a latency reply hold counters, duration, mean and percentiles with their bounds, each at its place, and the coordinator reads them back |
| EndToEnd.ShortMeasurementsPass | lancet/coordinator/coordinator.go:291-300 | if all agents report such a zero bound, the interval check passes |
| Counterexamples.EqualGapsVerdict | lancet/agents/stats.c:376-380 | for a constant reference and n equal gaps, the exact condition on n to pass |
| Counterexamples.EqualGapsRejected | lancet/agents/stats.c:341-388 | 101 requests exactly a microsecond apart pass all assertions and fail against a reference of exactly a microsecond |
| Counterexamples.SlowedReportable | lancet/agents/manager.c:174-251 | fourteen samples, sent half a second apart, that a hardware-timed agent can report on |
| Counterexamples.SlowedNotConverged | lancet/agents/stats.c:197-217 | the convergence test tells their halves apart |
| Counterexamples.SlowedNotANumber | lancet/agents/stats.c:390-425 | on them the computed correlation is not a number |
| Counterexamples.SlowedCorrelated | lancet/coordinator/coordinator.go:254-260 | while any correlation coefficient of theirs is over a quarter |
| Counterexamples.SlowedAccepted | lancet/coordinator/coordinator.go:250-300 | whatever an agent holding them reports, the coordinator accepts the round |
| Counterexamples.SuccessWithoutConvergence | lancet/coordinator/coordinator.go:266-280 | and the whole experiment succeeds |
| Counterexamples.SingleThreadAborts | lancet/agents/stats.c:62-69 | an experiment that asks a single-threaded agent for more than it accepts |
| Counterexamples.EmptyMeasurementAborts | lancet/agents/stats.c:262 | a latency report without samples ends the agent |
| Counterexamples.FullRingsAbort | lancet/agents/stats.c:349-355 | either report of a hardware-timed agent with more than 16 threads and full rings ends it |
| Counterexamples.NegativeLatencyInverts | lancet/coordinator/stats.go:45-79 | two agents with valid intervals, one with a latency of minus a microsecond, whose aggregate is inverted |

## Left out

- Sockets, epoll, `recvmsg` and control-message decoding: receives, closes and kernel messages are events or arguments.
- Deployment over SSH, configuration, argument parsing, thread launch, the servers, the analysis scripts.
- `rand_gen.c` and `cpp_rand.cc`: drawn values and reference inter-arrival times are arguments.
- `latency_tcp_main`: a blocking closed loop without a window.
- `compute_latency_percentiles`: dead code behind a failing assertion.
- Request creation in `app_proto.c`: only the consuming side has an effect on the window and the framing.
- Rounding of doubles: they are reals, with undefined and infinite results where the code divides; `sqrt` is a
  parameter assumed to be exact.
- Printing, logging, sleeping and read deadlines; a read that fails or times out is an absent one.
- Data races: each `add_*`, `clear_*` and manager command is one step.
- The byte and request counters, `head`, `tail`, `consumed` and sample counts do not wrap around at 32 bits.
- A receive that returns -1 with EWOULDBLOCK, which would be added to the buffer index: readiness means data or a close.
- Reads that return less than is asked for although more bytes follow: each field of a command, and each reply, arrives
  whole in one read. A stream that ends within a command is modelled.
- The symmetric "test" and "corr" patterns, whose number of samples the user chooses: the agent accepts one exactly if
  its share passes the two assertions of `set_per_thread_samples`.
- What the answers of the command loop contain: `Manager` gives kind and duration; statistics and bytes are those of
  `Reporting`.
- Sorting.Qsort: `qsort` is a stable insertion sort that looks only at whether the comparator's answer is positive, as
  merge-based C libraries do; the results for comparators that are not orders depend on it.
- TimestampRuns.AddKeepsTrack: fewer than 16 requests wait for the card's time; `TimestampRuns.SendKeepsEndsIff` shows
  that this is exactly what the ring needs.
- TimestampRuns.NicRunRefines: sends only while fewer than 16 requests wait, without which it fails
  (`TimestampRuns.WrongSampleWithinWindow`); reports are whole and ordered, responses in order and at most one per request.
- TimestampRuns.UserRunRefinesFifo: assumes at most one response per request, in order.
- LoadThread.RunConserves: a batch answers at most the outstanding requests.
- Asymmetric.StepPattern: the loop is watched for a number of rounds, because a step that is not positive need not end it;
  loads do not wrap around at 64 bits.
- AgentStats.IntervalsKept: the sum of the upper bounds fits 64 bits; `AgentStats.IntervalsKeptIff` shows what that means
  for the number of agents and their bounds.
- When a load thread fails an assertion or a generator lacks an average is an input of the command loop, not derived
  from the runs of the threads; a load thread that returns on a socket error leaves the process alive.
- SymmetricThread.UserReceive: at most one response per request; nothing is said after an abort.
- SymmetricThread.NicReceive: at most one response per request, reports whole and ordered; what the error queue hands to
  `add_tx_timestamp` is in `Timestamping.NotifyAndRecord`.
- SymmetricThread.NicSend: fewer than 16 requests wait for their time, as in `TimestampRuns.AddKeepsTrack`.
- EndToEnd.FixedExperimentServed: the samples held at a report are within the caps of the threads, as
  `ThreadStats.ContributionsRetained` shows; the coordinator's view of an agent that has aborted is a failed round.
- Reporting.CollectLatencyStats: the ranks are stated for latencies within 2^31 ns of each other, because beyond that the
  comparator is cyclic.
- Reporting.ReplyLatencyStats: the convergence verdict under the same condition; the correlation is the computed one,
  which is the coefficient if the sums of squares fit 64 bits.
