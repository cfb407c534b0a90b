# Verified model of an NTPv4 daemon

This project models the algorithms of the DNTPD daemon in Dafny and proves what they guarantee. It
covers the outlier filter over the shared sample pool, peer selection and the majority vote, the
packet layout and the on-wire calculation, the rate limiter, the access-control list, the
extension-field walker, the frequency discipline, poll adaptation and clock stepping, leap events,
and the two halves of the daemon that put these together: a sync with a server and the handling of
a request.

## How it is built

| file | what it models |
|---|---|
| `Words.dfy` | machine words as subset types: an operation that could wrap is an error unless the wrap is written out |
| `OrderStatistics.dfy` | ranks by counting, sorting, medians, robustness |
| `MarxMedian.dfy`, `MarxFilter.dfy` | bubble sort, saturating threshold, the sample pool and the in-place filter |
| `FilterTheorems.dfy`, `LiveFilter.dfy` | what the filter guarantees on a copy and on the live pool |
| `PeerSelection.dfy` | falsetickers, selection, vote, combined offset |
| `Wire.dfy`, `NtpPacket.dfy` | bytes, the 48-byte header, parsing, requests |
| `OnWire.dfy` | timestamps, delay and offset |
| `RateLimit.dfy` | the bounded table and its unbounded reference |
| `AddressMasks.dfy`, `AccessControl.dfy` | masks, first-match list |
| `ExtensionFields.dfy` | the walk over extension fields |
| `FrequencyDiscipline.dfy` | NSET, FSET, SYNC, loop filter |
| `ClockAdjustment.dfy` | poll exponent, step or slew, precision |
| `LeapSecond.dfy` | leap events |
| `Synchronization.dfy`, `Daemon.dfy` | gates, system state, responses, the two operations |
| `DaemonRuns.dfy` | whole runs of replies and requests |

Code that changes state step by step is a class whose methods are proved equal to a function on
values; the theorems are lemmas about those functions, over all inputs or all runs. Each operation
is one atomic step. Time, clock readings, the frequency file, the kernel's answers and the outcome
of a send are parameters. `double` is `real`. Addresses and flags are bit vectors; bytes and words
are integers in range, and `Wire.LiMaskIsQuotient`, `Wire.VnMaskIsDigit`, `Wire.ModeMaskIsRemainder`
and `Wire.ShiftsArePack` tie the integer form of the packed first byte to the masks and shifts of
the C code.

## What the proofs found

Where code and documentation differ, the model follows the code.

- The sample pool holds 64 samples (`ntpd.h:67`), not 8 as the comment at `filter.c:12` says, and
  for an even count the median is the lower middle value, not the average (`filter.c:54`); the two
  agree exactly when the middle values differ by at most one
  (`OrderStatistics.LowerMedianIsNotAverage`).
- The daemon filters the pool in place while each rejection shifts the pool under the running index
  (`time_sync.c:774`), so a good sample behind an outlier is skipped (`LiveFilter.SkippedIsLost`).
  What the daemon uses of the call is the count it returns and the pool it leaves. For every pool,
  repeated samples included, `LiveFilter.PassInClosedForm` gives both outright,
  `LiveFilter.CountsAgree` says exactly when the count is the size of that pool,
  `LiveFilter.PrefixCondition` says exactly when the returned prefix, and
  `LiveFilter.PoolCondition` exactly when the pool that is left, holds the samples within the cutoff
  and no others, each once and in order. Both do exactly when there is at most one outlier, among
  the last two samples (`LiveFilter.LiveFilterExact`). The pool alone also comes out right when good
  samples are followed by an alternation of outlier and good sample that ends with an outlier
  (`LiveFilter.PoolCanBeExactAlone`): then too few are counted as kept. In every other case samples
  are lost, repeated, or outliers stay. What holds in spite of that is
  `FilterTheorems.LiveFilterNeverEmpties`. Filtering any other buffer also deletes pool entries by
  the buffer's indices (`filter.c:143`): `FilterTheorems.PurgedExactly` says which, and
  `FilterTheorems.PurgedLeavesPool` exactly when none.
- A full pool without outliers never takes another sample (`Synchronization.FullPoolIsFrozen`), and
  no other full pool is stuck (`Synchronization.FullPoolStep`).
- `majority_vote` is documented to return the offset of more than half of the peers, or the median
  if there is none (`ntp_algorithms.c:294-297`). A majority value is the median, so this asks for the
  median in every case; the code returns the last offset near it whenever more than half are near.
  `PeerSelection.VoteIsDocumented` says exactly when the result is the documented one. Both halves
  fail: the vote is the majority's offset exactly when no later peer reports a different one closer
  than 250 ms to it (`PeerSelection.VoteReturnsMajorityValue`), and without a majority it need not be
  the median (`PeerSelection.MedianLost`). Two peers that differ are averaged.
- `compute_system_offset` documents a result of 0 to 15, or 16 on error; it returns a clamped offset
  as a byte, so 16 is also an ordinary result (`PeerSelection.SixteenIsOrdinary`), and its error exit
  after counting is dead.
- The frequency formulas yield seconds per second where PPM is expected. Offsets that pass the
  one-second gate therefore never leave the 0.001 PPM deadband
  (`FrequencyDiscipline.GatedMeasurementsAreInert`). A saved frequency that is not negligible stays
  in force exactly until the first measurement that comes at least the spacing after the one before,
  is cut to 15/16 by that one, and is zero exactly from the second on
  (`FrequencyDiscipline.LoadedFrequencyInForce`).
- When the kernel refuses a frequency, the slew asked for instead is lopsided: 100 us at once for
  any frequency of -1 PPM or less, the frequency itself up to 100 us for a positive one
  (`FrequencyDiscipline.AdjtimeDelta`).
- The panic test compares microseconds with the threshold times 10^9, so the default of 1000 stands
  for 10^6 seconds, not 1000 seconds (`ClockAdjustment.PanicUnit`).
- A leap event asks for 60 s, not 1 s, and is never due 60 s before the end of the minute: that
  moment has always passed, so it is due one minute after it (`LeapSecond.AcceptedTime`).
- The leap indicator of a reply is acted on before its mode, origin and transmit timestamps are
  looked at. A reply that those gates refuse leaves the daemon unchanged exactly when it announces
  no leap, an event is already pending, or the clock gives no end of the minute
  (`Daemon.RefusedReplyIsInert`). A request that is served, sent with leap indicator 1 or 2,
  schedules an event in the same way (`Daemon.IndicatorSchedules`).
- The local poll exponent follows the peer's below the daemon's own minimum
  (`ClockAdjustment.AdjustmentInRange`).
- A parsed packet is never a Kiss-o'-Death, so the tests for one after parsing are dead
  (`NtpPacket.ParsedIsNeverKod`). A list entry for 0.0.0.0/0 is refused, because the address zero
  stands for a parse error (`AccessControl.ZeroNetworkRefused`).

## Model

| member | source | states |
|---|---|---|
| MarxMedian.Median | filter.c:58-72 | sorts the first count entries in place, leaves the others, and returns their lower median |
| OrderStatistics.LowerMedianRank | filter.c:71 | the median obtained by sorting is the one value with at most (n-1)/2 entries below it and more at or below it, and it is an entry |
| OrderStatistics.LowerMedianIsNotAverage | filter.c:71 | for an even count the median is the average of the two middle entries exactly when these differ by at most one |
| OrderStatistics.MedianBreakdown | filter.c:58-72 | replacing fewer than half of the entries arbitrarily leaves the median between the bounds of the untouched ones |
| OrderStatistics.HalfReplacedBreaks | filter.c:71 | that bound is tight: replacing exactly half of an even number can put the median at any value below all others |
| OrderStatistics.BelowPermutation | filter.c:61-69 | the counts that define a rank do not depend on the order of the entries |
| MarxMedian.ThresholdSaturates | filter.c:104-130 | the cascade is min(2^64-1, median + k*MAD) with no intermediate wrap, for every int k, a negative one counting as its unsigned image |
| FilterTheorems.DeviationByCounting | filter.c:96-102 | the median deviation is the one v such that at most (n-1)/2 delays lie strictly within v of the median, on either side, and more than (n-1)/2 lie within v |
| FilterTheorems.CutoffByCounting | filter.c:91-130 | with m the lower median and v the median deviation, both given by counting alone, the cutoff is min(2^64-1, m + k*v) |
| MarxFilter.SamplePool.AddSample | filter.c:15-28 | appends to the pool, and drops the sample when the pool is full |
| FilterTheorems.StoredBehind | filter.c:15-28 | the live samples after an append are those before and the new one last; without room nothing changes |
| MarxFilter.SamplePool.RemoveSample | filter.c:37-46 | shifts the live tail down by one and leaves a stale copy; other indices change nothing |
| MarxFilter.SamplePool.FilterOutliers | filter.c:86-148 | fewer than three samples: nothing happens; on a separate buffer exactly the samples within the cutoff remain, the rest of the buffer is untouched and the pool is purged, which `FilterTheorems.PurgedExactly` spells out; on the pool itself the result is the live pass |
| FilterTheorems.PurgedExactly | filter.c:137-145 | what filtering a separate buffer leaves of the pool: in order, exactly the entries at positions other than the index of a rejected sample plus the number rejected before it |
| FilterTheorems.PurgedLeavesPool | filter.c:37-46 | filtering a separate buffer leaves the pool alone exactly when every rejected sample has an index beyond the live part; otherwise the pool shrinks |
| FilterTheorems.KeptIsStable | filter.c:132-136 | the kept samples are the input at ascending indices, and an index is kept exactly when its delay is within the threshold |
| FilterTheorems.KeepsHalf | filter.c:86-148 | at least half of the samples, rounded up, are kept whatever the multiplier |
| FilterTheorems.KeepsMinimum | filter.c:86-148 | a sample of least delay is always kept |
| FilterTheorems.KeptGrowsWithMultiplier | filter.c:104-136 | for 0 <= k <= k' the cutoff grows and filtering with k after k' equals filtering with k |
| FilterTheorems.PassKeepsSomething | filter.c:132-145 | the pass over the live pool keeps at least one sample when half of the pool is within the threshold |
| FilterTheorems.LiveFilterNeverEmpties | time_sync.c:774-783 | filtering the live pool returns at least one, only input samples within the cutoff, and the pool ends no smaller than the returned count |
| FilterTheorems.LivePassIdentity | filter.c:132-147 | the pass returns the full count exactly when there is no outlier, and then leaves the pool unchanged |
| LiveFilter.TraceIsPass | filter.c:132-145 | after every step of the pass each slot of the pool holds the sample, of the pool before the call, that the trace of positions names |
| LiveFilter.SkippedIsLost | filter.c:143 | at any step that examines an outlier with at least two samples behind it, the next sample, however good, is never kept by the end of the pass |
| LiveFilter.PrefixCondition | filter.c:132-147 | for every pool the kept prefix is exactly the good samples, each once and in order, exactly when the first outlier is among the last two samples or absent, or the outliers from there on come in adjacent pairs up to a last sample that is an outlier |
| LiveFilter.PoolCondition | filter.c:37-46 | for every pool the live part that is left is exactly the good samples, each once and in order, exactly when there is no outlier, or only the last sample but one is an outlier, or from the first outlier on every other sample is one, the last included |
| LiveFilter.PassInClosedForm | filter.c:132-147 | for every pool, the result outright: examining steps by one over a good sample and by two over an outlier, each examined outlier costs a slot, the good examined ones are kept in order, then copies of a good last sample up to the end of the pool, and each other slot holds the sample examined there or, behind an outlier, the next one |
| LiveFilter.CountsAgree | time_sync.c:774-783 | the returned count is the size of the pool that is left exactly when the last sample is good or is the only outlier |
| LiveFilter.LiveFilterExact | time_sync.c:774 | both are right exactly when there is at most one outlier, among the last two samples; right on positions is what filtering a copy gives, and the converse holds when no two samples are equal |
| LiveFilter.LiveFilterTraced | time_sync.c:774 | what the call returns and leaves, read off the positions; the pool keeps at least as many slots as there were good samples |
| LiveFilter.LivePassCanDiffer | time_sync.c:774 | a three-sample pool where one good sample is lost and the other is left twice |
| LiveFilter.PoolCanBeExactAlone | time_sync.c:774-783 | a four-sample pool with two outliers that is left exactly right while the returned count is too small |
| PeerSelection.SelectBestPeers | ntp_algorithms.c:239-287 | the output array holds the near and steady peers among the first eight, the stale rest and the untouched tail are as stated, and the return codes |
| PeerSelection.SelectedExactly | ntp_algorithms.c:254-283 | a peer is selected exactly when it is near the median and its jitter is within bounds |
| PeerSelection.MajorityVote | ntp_algorithms.c:299-322 | the result is the vote, for every peer count up to eight |
| PeerSelection.MajorityPassesOffsetStep | ntp_algorithms.c:239-265 | if a strict majority lies in an interval narrower than 250 ms, each of its peers passes the offset step whatever the others report |
| PeerSelection.VoteIsNearMajority | ntp_algorithms.c:308-321 | with three or more peers the vote is a reported offset less than 250 ms plus the interval's width from each peer of the majority |
| PeerSelection.VoteReturnsMajorityValue | ntp_algorithms.c:294-322 | for every number of peers the documented majority value is returned exactly when some peer reports it and every peer behind that one is at least 250 ms away from it |
| PeerSelection.VoteIsDocumented | ntp_algorithms.c:294-322 | the documented result, the majority value or else the median, is returned exactly when there is one peer, or two equal or neighbouring non-positive offsets, or with three or more at most half of the peers are near the median or every peer behind the last one reporting the median is at least 250 ms away from it |
| PeerSelection.VoteOutright | ntp_algorithms.c:299-322 | with three or more peers the vote is the last offset closer than 250 ms to the median if more than half are that close, else the median |
| PeerSelection.MajorityValueIsMedian | ntp_algorithms.c:297 | a majority value is the median, so the documented result is the median in every case |
| PeerSelection.MedianLost | ntp_algorithms.c:315-320 | three offsets without a majority value whose vote is not the median |
| PeerSelection.MajorityValueLost | ntp_algorithms.c:315-320 | three offsets with a majority value that the vote does not return |
| PeerSelection.TwoPeersVoteBetween | ntp_algorithms.c:302-307 | with two peers the vote lies between them |
| PeerSelection.NearIsNotFalse | ntp_algorithms.c:337-348 | the falseticker test and the offset step disagree exactly at a distance of 250 ms |
| PeerSelection.SixteenIsOrdinary | ntp_algorithms.c:184-220 | the documented error value 16 is also returned exactly for a vote of 16, and the documented range exactly for votes of 0 to 15 |
| PeerSelection.ComputeSystemOffset | ntp_algorithms.c:184-220 | no peers give 16; otherwise the byte is the vote clamped to a signed byte |
| Wire.WriteU32be | ntpd.c:13-18 | writes four bytes big-endian and nothing else |
| Wire.ReadWritten | ntpd.c:8-18 | a written word is read back |
| Wire.DecodeEncode | socket.c:336-359 | decoding a written header recovers every field, whatever follows it |
| Wire.EncodeDecode | ntp_packet.c:523-538 | encoding a decoded header gives back the same 48 bytes |
| Wire.DecodeLayout | ntp_packet.c:523-538 | which byte of a packet belongs to which field, and in which order and sign |
| Wire.EncodeLayout | socket.c:336-359 | the same for the bytes of a written header |
| NtpPacket.Packet.Parse | ntp_packet.c:499-572 | which buffers are refused, that the record is filled from the 48 bytes and from the bytes of a code even when the header is refused, and what a prior Kiss-o'-Death record does |
| NtpPacket.ParsedIsNeverKod | ntp_packet.c:490-497 | a header that parsing accepts is never a Kiss-o'-Death |
| NtpPacket.ParsedByBytes | ntp_packet.c:490-570 | which first bytes parsing accepts: version 4, mode not 0, stratum at most 16; and which count as a Kiss-o'-Death |
| NtpPacket.MacByBytes | ntp_packet.c:541-544 | where key identifier and digest come from, and when they are left alone |
| NtpPacket.RequestBytes | ntp_packet.c:574-593 | the 48 bytes of a request, one by one |
| NtpPacket.CreateNtpRequest | ntp_packet.c:574-593 | the first 48 bytes are a client request carrying the transmit time, the rest is untouched |
| OnWire.ToNsExact | ntp_algorithms.c:53-70 | the overflow clamps are never reached for any timestamp |
| OnWire.ToNsMonotone | ntp_algorithms.c:53-70 | the conversion to nanoseconds is monotone |
| OnWire.MeasuredExactly | ntp_algorithms.c:87-112 | for any four timestamps: no measurement exactly when the holding time exceeds the round trip; otherwise delay and offset as functions of the four times, with both roundings |
| OnWire.StampLosesOneAtMost | time_sync.c:449-467 | reading the clock as a timestamp and converting back loses at most one nanosecond within the era from 1900 to 2036, and only its first instant reads as zero |
| OnWire.StampExact | time_sync.c:456-465 | seconds since 1900 and the binary fraction, rounded down, of every reading in the era |
| OnWire.StampSaturates | time_sync.c:456-461 | outside the era every reading gives the largest timestamp |
| OnWire.OffsetWithinHalfDelay | ntp_algorithms.c:87-112 | for any path delays and clock difference the measured offset is within half the measured delay plus 1.501 microseconds of the true difference |
| OnWire.DelayIsPathDelay | ntp_algorithms.c:101-110 | the measured delay is the true path delay up to two nanoseconds and rounding down, and rejection needs paths shorter than two nanoseconds |
| OnWire.U16_16Saturates | ntp_algorithms.c:359-365 | the short format is min(2^32-1, floor(us*65536/10^6)) for every 64-bit input |
| RateLimit.RateLimiter.Update | mode_handler.c:353-363 | the client's entry is stamped and counted, made first if missing, with the oldest evicted when full |
| RateLimit.RateLimiter.Check | mode_handler.c:333-351 | a request is refused exactly when the client has an entry stamped less than the interval ago |
| RateLimit.TableIsRecentLog | mode_handler.c:89-113 | in every run the table is the last 1024 insertions in order, without duplicates, each stamped with its client's last service |
| RateLimit.EntryCountsServices | mode_handler.c:353-363 | in every run each entry counts its client's services since its insertion, modulo 256 |
| RateLimit.LimitedByLog | mode_handler.c:333-351 | the bounded table refuses exactly what the unbounded log would refuse for its last 1024 insertions |
| RateLimit.PassedOnlyAfterInterval | mode_handler.c:333-363 | under any interleaving of checks and updates, a client that passes was last served at least the interval ago, unless 1024 further insertions followed its own |
| RateLimit.OwnInsertion | mode_handler.c:353-362 | right after a service the client is among the last 1024 insertions |
| RateLimit.GrantsAreApart | socket.c:245-250 | with the check and the record of each request at their own times, and a record only for a delivered response, any two services recorded for one client are the interval apart, with the same exception |
| AddressMasks.MaskSelectsPrefix | mode_handler.c:61-72 | a mask selects exactly the addresses that share the prefix bits |
| AccessControl.AccessControlList.AddEntry | mode_handler.c:173-205 | full table, bad network, or the entry appended with its mask |
| AccessControl.ZeroNetworkRefused | mode_handler.c:173-205 | no entry can be made for the address zero |
| AccessControl.AccessControlList.RemoveEntry | mode_handler.c:207-232 | removes the first entry for exactly this network, or reports that there is none |
| AccessControl.AccessControlList.CheckClient | mode_handler.c:250-307 | allowed exactly when the address is not zero, the mode is enabled and the flags of the first match do not forbid it |
| AccessControl.AllowedByMode | mode_handler.c:250-307 | mode by mode, the switch, the flag bit and the address that decide |
| AccessControl.FlagsOutright | mode_handler.c:270-285 | the flags of the first entry whose masked address is the client's, else the default |
| AccessControl.SingleFlags | mode_handler.c:286-300 | what an entry with one flag alone leaves its clients |
| AccessControl.AccessControlList.GetClientFlags | mode_handler.c:309-331 | the flags of the first match, or the default policy |
| AccessControl.AddAffectsUnmatchedOnly | mode_handler.c:195-198 | an add changes only clients in the new network that no earlier entry matches |
| AccessControl.RemoveSparesOthers | mode_handler.c:219-224 | a removal changes nothing for clients with another first match |
| AccessControl.RemoveExposesRest | mode_handler.c:219-224 | the removed entry's clients fall to the entries behind it |
| AccessControl.AddThenRemove | mode_handler.c:173-232 | adding and removing a network restores the list exactly when it held no entry for that network or ends in a run of the very entry added |
| ExtensionFields.ValidatePacketAuthentication | mode_handler.c:547-584 | the loop stays in bounds, terminates and computes the recursive walk |
| ExtensionFields.FieldLayout | mode_handler.c:557-577 | the bytes of an extension field: type, length, value and padding |
| ExtensionFields.PacketReportsMac | mode_handler.c:557-580 | on any well-formed fields a code is reported exactly when a MAC field comes before the first end marker |
| ExtensionFields.ReportSurvivesAppending | mode_handler.c:559-577 | a report is unchanged by appending bytes |
| ExtensionFields.MalformedEndsWalk | mode_handler.c:557-584 | fields that are neither a code nor an end marker, followed by bytes that do not start a field, hold no code |
| ExtensionFields.NothingBehindEndMarker | mode_handler.c:579 | nothing behind the end marker is looked at |
| FrequencyDiscipline.Discipline.Load | time_sync.c:78-90 | a frequency inside 128 PPM is taken over into FSET, anything else leaves NSET |
| FrequencyDiscipline.AdjtimeDelta | time_sync.c:165-186 | the slew asked of adjtime: the whole microseconds up to 100, but 100 backwards for every frequency of -1 PPM or less |
| FrequencyDiscipline.Discipline.Update | time_sync.c:304-377 | the whole state after a measurement, what is handed to the kernel and, when it refuses, to adjtime, and the return code |
| FrequencyDiscipline.FllOutright | time_sync.c:238-260 | the frequency-lock estimate has the sign of the offset and is offset/(max(elapsed,1500)*max(18-poll,4)), limited to 128 |
| FrequencyDiscipline.PllOutright | time_sync.c:266-285 | the phase-lock estimate has the sign of the offset and is offset*min(elapsed,2^poll)/(262144*4^poll), limited to 128 |
| FrequencyDiscipline.DueUpdateOutright | time_sync.c:304-377 | what a due measurement makes of frequency, filter and phase, phase by phase |
| FrequencyDiscipline.EarlyUpdateOutright | time_sync.c:304-374 | a measurement that is not due changes only the time and offset remembered |
| FrequencyDiscipline.AppliedOutright | time_sync.c:213-225 | the new frequency goes to the kernel exactly from 0.001 PPM on, and when refused to adjtime, whose answer is returned |
| FrequencyDiscipline.LoadedOutright | time_sync.c:78-90 | which file is taken over, and what any other leaves |
| FrequencyDiscipline.GainsFollowJitter | time_sync.c:145-157 | the gains for jitter above 200 ms, below 50 ms and between |
| FrequencyDiscipline.RunBounded | time_sync.c:212-216 | over every run of init, load and measurements frequency and filter stay within 128 PPM |
| FrequencyDiscipline.PhaseCountsDueCalls | time_sync.c:304-338 | the phase after a run is the number of calls at least max(64, 2^poll) seconds after the call before, up to SYNC |
| FrequencyDiscipline.CloseCallsFreeze | time_sync.c:306-374 | calls always closer than that leave phase, frequency and filter frozen |
| FrequencyDiscipline.FilterConverges | time_sync.c:128-143 | with a constant target outside the deadband the error after n updates is exactly 0.99^n of the first |
| FrequencyDiscipline.FilterNeverOvershoots | time_sync.c:128-143 | the filter stays between its start and the target |
| FrequencyDiscipline.GatedMeasurementsAreInert | time_sync.c:218-377 | from a fresh start measurements within one second never leave the deadband and hand nothing to the kernel |
| FrequencyDiscipline.LoadedFrequencyInForce | time_sync.c:78-90 | after loading a frequency of at least 0.001 PPM, gated measurements leave it in force exactly while none was due, and zero exactly from the second due one on; after exactly one it is 15/16 of the value to within a 16th of the deadband |
| FrequencyDiscipline.LoadedFrequencyIsForgotten | time_sync.c:334-372 | from any start with an empty filter the frequency is exactly zero after the first counted measurement in SYNC |
| ClockAdjustment.AdjustmentInRange | time_sync.c:540-557 | one adjustment stays in 4 to 12 exactly when the peer polls at 4 or more, or at 3 while the measurement is bad |
| ClockAdjustment.AdjustmentOutright | time_sync.c:540-557 | from the smaller exponent one up for a bad measurement below 12, one down for a good one above 4, and nowhere otherwise |
| ClockAdjustment.PollStaysInRange | time_sync.c:540-557 | with peer polls of at least 4 the exponent stays in 4 to 12 on every run |
| ClockAdjustment.BadRunClimbs | time_sync.c:546-549 | always bad measurements raise it by one per call up to min(12, p+1), where it stays |
| ClockAdjustment.GoodRunFalls | time_sync.c:550-554 | always good measurements lower it by one per call to 4, within eight calls |
| ClockAdjustment.ApplyTimeCorrection | time_sync.c:398-447 | exactly when a correction is refused; otherwise a normalised step or slew that adds up exactly, with no overflow |
| ClockAdjustment.PanicUnit | mode_handler.c:586-603 | with the default threshold only offsets above a million seconds are refused |
| ClockAdjustment.GetSystemPrecision | time_sync.c:469-492 | the exponent from the resolution, below and above a second |
| LeapSecond.LeapSeconds.ScheduleEvent | leap_second.c:259-311 | when a request is accepted, and the whole new state |
| LeapSecond.LeapSeconds.ApplyCorrection | leap_second.c:327-374 | when the pending offset is handed over, and that it is cleared whatever the clock answers |
| LeapSecond.LeapSeconds.CheckFile | leap_second.c:148-247 | the leap file is looked at at most once in 300 s; when that fails, what it schedules, and the next time it is due |
| LeapSecond.FileLookedAtRarely | leap_second.c:148-247 | exactly which files announce which leap, fail, or are not looked at for 300 s after the last look |
| LeapSecond.LeapSeconds.CheckAndApply | leap_second.c:384-409 | the periodic check hands over exactly an event that is due at both readings of the clock |
| LeapSecond.HandedOnceAndOnTime | leap_second.c:259-409 | in every run each accepted event is handed over at most once, in order, unchanged and not before its time |
| LeapSecond.OffsetsConserved | leap_second.c:294-369 | handed offsets plus the pending one are the sum of the accepted ones |
| LeapSecond.SignReachesClock | leap_second.c:294-369 | in every run the i-th hand-over is +60000000 exactly when the i-th accepted request had direction 1, else -60000000 |
| LeapSecond.MinutesConserved | leap_second.c:294-369 | handed plus pending is 60000000 times the accepted requests of direction 1 less the others |
| LeapSecond.AcceptedAtMinuteBoundaries | leap_second.c:259-311 | in every run each accepted event is for 60 s one way or the other, due at a minute boundary, 61 to 120 s after the clock reading of the request of that run that asked for it |
| LeapSecond.AcceptedTime | leap_second.c:272-292 | an event is due at a minute boundary 61 to 120 s after it was scheduled |
| Synchronization.OtherOriginIsRejected | time_sync.c:674-680 | a reply with any other origin timestamp is not accepted and changes neither system state nor pool |
| Synchronization.JudgedByBytes | time_sync.c:642-741 | exactly which reply bytes get as far as a measurement, and which measurement is refused for stratum, offset or delay, or accepted |
| Synchronization.HeldTooLongIsRefused | ntp_algorithms.c:104-107 | a reply that claims a longer holding time than the round trip is never accepted and changes neither system state nor pool |
| Synchronization.SyncedOutright | time_sync.c:700-839 | the system state after any sync: what an accepted reply sets, what each refusal ends |
| Synchronization.PoolAfterSync | time_sync.c:766-775 | an accepted measurement is stored last with its delay and offset, and three or more samples are filtered with multiplier 3 |
| Synchronization.LastReplySetsStratum | ntp_algorithms.c:150-165 | over a run the stratum is min(15, that of the last accepted reply + 1), or 16 if a later one was refused for stratum or offset |
| Synchronization.LastReplyDecides | time_sync.c:694-830 | over a run synchronisation, stratum, leap indicator and reference time are those of the last reply that was accepted or refused on its measurement |
| Synchronization.AlarmUntilAccepted | socket.c:326-334 | until a reply is accepted a started daemon announces the alarm and stratum 16 |
| Synchronization.AnsweredModes | socket.c:252-275 | mode 3 is answered in 4, modes 1 and 2 in 2, mode 5 in 5 when broadcast is on; modes 0, 4, 6 and 7 get no answer |
| Synchronization.AnswerOutright | socket.c:308-359 | every field of a response, synchronised or not |
| Synchronization.AnswerAfterSync | time_sync.c:700-839 | the next response announces one stratum more than the accepted server's, or the alarm after a reply refused on its measurement or for lack of samples |
| Synchronization.AnswerPassesGates | socket.c:252-359 | the response to any request of mode 3 is in mode 4 and passes the requester's gates up to the measurement |
| Synchronization.NoSamplesOnlyWhenEmpty | time_sync.c:763-783 | the exit for lack of samples is taken exactly when the pool is empty and the wall clock could not be read |
| Synchronization.FullPoolIsFrozen | filter.c:18-21 | once the pool is full and holds no outlier, no run of syncs ever changes it again |
| Synchronization.FullPoolStep | filter.c:18-46 | an accepted measurement leaves a full pool as it is exactly when none of its samples is an outlier; otherwise the pool falls below 64 samples |
| Synchronization.RunStaysConsistent | time_sync.c:694-741 | over every run of syncs, synchronised implies stratum 2 to 15 and leap indicator 0 to 2 |
| Synchronization.ResponsesAreConsistent | socket.c:316-340 | every response after every run has leap indicator 3 exactly when its stratum is 16, else 0 to 2 and stratum 2 to 15 |
| Synchronization.SyncsNeverSteerFrequency | time_sync.c:714-810 | whatever the servers answer, the offsets accepted over any run, fed to a fresh discipline, leave the frequency in the deadband and the filter at zero, and none hands anything to the kernel |
| Synchronization.RunKeepsPollInRange | time_sync.c:788-789 | over every run of syncs with servers polling at 4 or more the local poll exponent stays in 4 to 12 |
| Synchronization.ExchangePassesGates | time_sync.c:644-692 | a request, parsed and answered by a synchronised server and parsed back, passes the mode, origin, transmit and Kiss-o'-Death gates, unless it was sent at the first instant of the era |
| Synchronization.AcceptedOffsetIsAccurate | time_sync.c:642-772 | through the bytes of both packets, an accepted offset is within half the delay plus 1.501 microseconds of the true clock difference |
| Synchronization.UnsyncedServerIsIgnored | socket.c:326-334 | a client never believes a server that is not synchronised |
| Daemon.Daemon.LeapIntegrationCheck | time_sync.c:35-43 | the file, then the pending event; a failed look at the file ends the check; what is handed to the clock |
| Daemon.Daemon.ProcessReply | time_sync.c:642-857 | outcome, system state, pool, leap events, file check and the leap offset handed to the clock after any reply |
| Daemon.CheckOutright | time_sync.c:35-43 | nothing happens without initialisation; between two looks at the file a pending event is handed over and cleared exactly when due at both readings |
| Daemon.IndicatorSchedules | ntp_algorithms.c:130-150 | a leap indicator leaves the leap events alone exactly when it announces no leap, or an event is pending, or the clock gives no end of the minute |
| Daemon.RefusedReplyIsInert | time_sync.c:649-690 | a reply refused at the mode, origin, transmit or delay gate changes nothing exactly when it announces no leap, or an event is pending, or the clock gives no end of the minute |
| Daemon.ReplyExtendsLeapRun | time_sync.c:849 | one reply extends a run of leap events by its warning, its file and its hand-over, and hands to the clock what that run does |
| Daemon.Daemon.HandleRequest | socket.c:186-397 | which requests are served, the exact 48 bytes of the response, the leap events, and that the rate table records exactly the delivered ones |
| Daemon.AnsweredByBytes | socket.c:196-302 | exactly which request bytes are answered |
| DaemonRuns.RunIsLeapRun | time_sync.c:642-857 | over any interleaving of replies and requests since start-up the leap state and the hand-overs are those of the leap model on the events of the run |
| DaemonRuns.DaemonHandsOnceAndOnTime | leap_second.c:259-409 | over any interleaving of replies and requests each accepted leap event is handed to the clock at most once, in order, unchanged and not before its time, and all but the pending one have been |
| DaemonRuns.LeapSignsReachClock | ntp_algorithms.c:130-147 | over any interleaving a leap indicator of 1, or a file holding 1, ends as +60000000 at the clock and 2 as -60000000, in the order of the accepted requests |
| DaemonRuns.RunIsRateRun | socket.c:245-397 | over any interleaving, with changing access rules, the rate table is the one made by the delivered responses, and these are what the limiter grants |
| DaemonRuns.AnswersAreApart | socket.c:245-250 | any two responses delivered to one client in such a run are the interval apart, unless 1024 insertions came between |
| DaemonRuns.WorldIsSyncRun | socket.c:316-340 | system state and pool after any interleaving are those after its syncs alone |
| DaemonRuns.DaemonStaysConsistent | time_sync.c:694-741 | over any interleaving synchronised implies stratum 2 to 15 and leap indicator 0 to 2 |
| DaemonRuns.LastReplyIsAnnounced | socket.c:308-334 | after any interleaving a response announces the indicator and one stratum more of the last accepted reply, or the alarm and stratum 16 if the last decisive reply was refused |

## Left out

- Sockets, address parsing and formatting, the TCP status protocol, logging, file reading, signals and the command line: input and output.
- Threads and mutexes: each operation is one atomic step; several functions take a lock they already hold.
- NULL arguments: pointers are taken to be valid, except the buffer of the extension-field walker.
- The extension-field dispatch of skip_extension_fields, I-DO and Autokey: never reached from parsing, because its header reader refuses every position from 48 on.
- The reference clock, jitter, Allan variance, clock precision estimate and root dispersion: floating point with no algorithm to speak of; the root dispersion is an input.
- The call of compute_system_offset inside a sync: its result is discarded there.
- A sync does not call the frequency discipline or the time correction of this model: both are modelled on their own, and take the accepted offset as input.
- The last broadcast time and the broadcast copy of a response: input and output.
- FrequencyDiscipline.Discipline.Update: models double as real, so rounding is not captured, and it takes a poll exponent of at least zero, because the code shifts by it and a shift by a negative exponent is undefined.
- PeerSelection.MajorityVote: asks that differences of offsets, and the sum of two, fit 64 bits, and that there are at most eight peers, because the code is undefined otherwise.
