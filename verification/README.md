# GeoPilot: verified models of the measurement and control core

GeoPilot records heat-pump measurements, corrects and reports them, and operates a few relays over a shared RS485
segment. This project models five of its kernels and two smaller ones in Dafny and proves what they promise.

- **Streaming reports** (`Pairing`, `StateGate`, `Summaries`, `Pooling`, `Runs`, `Coverage`, `Buckets`, `BucketLaws`):
  one-pass loops over stored rows, each proved against a declarative meaning: a maximum matching, a nearest-observation
  search, the unique segmentation, the grouping both bucket paths compute.
- **Command guard and audit journal** (`Control`, `ControlProtocol`, `BusSpacing`): the guard as a class over a journal, and the same
  guard cut into atomic steps of any number of threads, with crashes and restarts on one durable journal.
- **Modbus RTU** (`BitRegister`, `Crc`, `ErrorDetection`, `RtuCodec`, `RtuExchange`): the CRC of section 6.2.2 of the MODBUS
  over Serial Line Specification and Implementation Guide V1.02 as a register over bits, what damage it catches, and the
  frames of sections 6.1 to 6.5 of the MODBUS Application Protocol Specification V1.1b3.
- **Provenance** (`Provenance`, `ProvenanceJournal`, `ProvenanceLimits`): an append-only history of configurations, and what its silence means.
- **Historian and current state** (`Measurements`, `Historian`, `SqliteHistorian`): a list with an index and a table that no
  caller can tell apart, and the snapshot fold.
- **Port lock** (`PortLock`, `BusProtocol`) and **connectivity** (`Connectivity`).

`Basics`, `Statistics`, `Division`, `Sorting` and `TextOrder` hold what several of them share.

Instants, offsets and intervals are integers in microseconds (seconds where the tables keep seconds), values are reals with
exact arithmetic, SQL tables are sequences of rows. An answer of the database is any answer its query allows: any
arrangement ORDER BY permits, any row LIMIT 1 may pick. Clocks, the lock, the device, the transport and the serial port are
parameters or steps that may go either way. `dafny verify dfyconfig.toml` checks everything, with or without `--warn-contradictory-assumptions`.

## What the proofs found

- The pairing walk consumes as it goes. It reaches the largest one-to-one matching against every left series exactly when
  consecutive `minus` readings are at least two tolerances apart; one smaller gap and a left series exists on which it
  loses a pair (`Pairing.MaximumExactlyWhenSpaced`).
- The gate's walk stops on two equal instants; its answers are those of a global search exactly when none repeats before the
  end of the series (`StateGates.GateIsExactWhenStallFree`, `Summaries.GatingIsExactWhenStallFree`).
- The SQL and the Python buckets start alike exactly when alignment is UTC or each bucket's first row has its smallest
  offset; their statistics always agree (`Buckets.PathsAgree`).
- The durable journal takes a repeated command id for a retry. An operation under a used id is therefore not recorded, and a
  restart forgets it (`ControlProtocol.RecordedExactlyWhenNameIsNew`, `ControlProtocol.UnrecordedOperationIsForgotten`). The
  protocol theorems assume fresh ids that do not end in `/issued`.
- The rest between operations is only as good as the journal. A process that dies after the bus confirmed a write and before
  the outcome is on disk leaves an intent, and the guard of the next process does not read intents: the relay can be moved
  again at once, with fresh ids (`BusSpacing.CrashDefeatsTheRest`). A confirmed write holds back later ones exactly when an
  operation at or after it is on record (`BusSpacing.RestHoldsExactlyWhenRecorded`).
- A comparison of configurations keys sensors by id and keeps the last entry, while an epoch answers with the first. The two
  agree, and silence can be trusted, exactly when the sensor is listed at most once
  (`ProvenanceLimits.AnswersAgreeExactlyWhenListedOnce`, `ProvenanceLimits.SilenceKeepsExactlyWhenListedOnce`).
- Silence always means that nothing moved. That every report is of something that moved is so exactly when stamps rise: after
  a clock stepped back, or stood still, an epoch that is in effect at no moment is reported all the same
  (`ProvenanceLimits.ReportsAreExactExactlyWhenStampsRise`).
- The epochs a window touches are listed with the one in effect at its opening first. After a clock stepped back that is out of
  writing order exactly when something written before the opening epoch is stamped inside the window
  (`ProvenanceJournal.SpanningInOrderExactlyWhenOpeningIsOldest`).
- The port lock keeps answers with their requests only together with a punctual device: a late answer is read by whoever asks
  next, even by the same process (`BusProtocol.AnswersAreOwnExactlyWhenCoordinated`).
- Exactly half of the gaps does not bound the cadence; a majority does (`Connectivity.SilentExactlyWithMajority`).

## Model

| member | source | states |
|---|---|---|
| `Pairing.Pairs` | backend/src/geopilot/reporting.py:967-1016 | the consuming loop over two forward cursors refuses a negative tolerance and otherwise yields exactly the differences along the walk the lemmas below are about |
| `Pairing.WalkIsSound` | backend/src/geopilot/reporting.py:1003-1016 | for any two series at all, emitted pairs increase strictly in both series, so no reading is used twice, and stay within tolerance |
| `Pairing.WalkIsMatching` | backend/src/geopilot/reporting.py:981-990 | the emitted pairs are a one-to-one matching within tolerance, no larger than either series |
| `Pairing.NoMatchingIsLarger` | backend/src/geopilot/reporting.py:981-1016 | on strictly increasing series whose right gaps are at least two tolerances, no one-to-one matching within tolerance is larger than what the walk emits |
| `Pairing.SmallGapLosesAPair` | backend/src/geopilot/reporting.py:1003-1016 | a single right gap below two tolerances is enough: a left series is constructed on which the walk emits fewer pairs than a matching has |
| `Pairing.MaximumExactlyWhenSpaced` | backend/src/geopilot/reporting.py:981-990 | the walk is a maximum matching against every strictly increasing left series if and only if consecutive right readings are at least two tolerances apart |
| `Pairing.EmitsEveryPairWhenBothSpaced` | backend/src/geopilot/reporting.py:981-1016 | when both series keep more than two tolerances between readings, the emitted set is exactly all pairs within tolerance |
| `Pairing.PairedExactlyWithNearestInReach` | backend/src/geopilot/reporting.py:1003-1016 | a left reading is paired with a right one if and only if that is the nearest, ties to the earlier, of the right readings no earlier left reading took or passed by, and it is within tolerance |
| `Pairing.UnpairedHadNothingInReach` | backend/src/geopilot/reporting.py:1003-1016 | a left reading that stays unpaired had no right reading within tolerance left to it |
| `Pairing.DifferencesAreLeftMinusRight` | backend/src/geopilot/reporting.py:1003-1016 | each difference is the left value minus the right one, at the instant and offset of the left reading |
| `StateGates.StateGate.Admits` | backend/src/geopilot/reporting.py:861-901 | the two-field gate, which keeps only a current and an upcoming observation, answers as the position it has sought to |
| `StateGates.GateAnswersAsGlobalSearch` | backend/src/geopilot/reporting.py:861-901 | for any ascending questions the forward-only gate answers whether the nearest observation of the whole series, ties to the earlier, is within tolerance and has the expected value |
| `StateGates.SeekIsExactWhenStallFree` | backend/src/geopilot/reporting.py:891-901 | the forward walk finds the nearest observation of every instant if and only if no instant repeats before the end of the series |
| `StateGates.GateIsExactWhenStallFree` | backend/src/geopilot/reporting.py:891-901 | a fresh gate answers every question as the global search would, for every tolerance and expected value, if and only if no instant repeats before the end of the series |
| `StateGates.MomentsPartition` | backend/src/geopilot/reporting.py:932-936 | every moment of any 0/1 signal is asserted, not asserted or unobserved, and only one of them |
| `Summaries.Admitted` | backend/src/geopilot/reporting.py:288-325 | for any samples and any signal, the values kept are those for which one gate, asked about each sample in turn, answers yes |
| `Summaries.GatingIsExactWhenStallFree` | backend/src/geopilot/reporting.py:861-901 | what one gate keeps of ascending samples is what a global search would keep, for every series, tolerance and sense, if and only if the signal repeats no instant before its end |
| `Summaries.StrictSignalsAreReadExactly` | backend/src/geopilot/reporting.py:861-901 | a strictly increasing signal is always read exactly |
| `Summaries.Summarize` | backend/src/geopilot/reporting.py:244-336 | count, minimum, maximum and mean of the kept values, the rest counted as excluded, and nothing at all exactly when none is kept |
| `Summaries.UngatedKeepsEverything` | backend/src/geopilot/reporting.py:278-298 | without a gate every sample is kept, in order, so nothing is excluded |
| `Summaries.GatesPartition` | backend/src/geopilot/reporting.py:928-936 | for any 0/1 signal, however recorded, the values kept while asserted, kept while not asserted and never seen are together exactly all values, none twice |
| `Summaries.UnseenIsUnobserved` | backend/src/geopilot/reporting.py:891-901 | on a signal that repeats no instant before its end, never seen means that nothing was recorded within tolerance |
| `Summaries.Delta` | backend/src/geopilot/reporting.py:429-483 | the paired difference balances: count + excluded + unpaired is the left series, count + excluded + unpaired_minus the right, and no part is negative; the statistics are those of the pairs the gate lets through |
| `Summaries.PairsAreGatedGlobally` | backend/src/geopilot/reporting.py:429-483 | pairs ascend with the left series, so gating them keeps what a global search would under the same condition on the signal |
| `Statistics.MeanBetweenExtremes` | backend/src/geopilot/reporting.py:318-327 | a reported mean lies between the reported minimum and maximum |
| `Pooling.PoolingAveragesEveryReading` | backend/src/geopilot/reporting.py:819-829 | the pooled mean of any summaries is the mean of every reading behind them |
| `Runs.DetectRuns` | backend/src/geopilot/reporting.py:667-690 | the streaming loop returns the segmentation into maximal stretches of one value without an internal gap above the break; read off the readings, each run carries its first and last instant, value and sample count, and is not truncated if and only if both its edges are transitions observed within the break |
| `Runs.SegmentationIsUnique` | backend/src/geopilot/reporting.py:667-690 | a history has one such segmentation, hence one list of runs |
| `Runs.RunsCoverEveryReading` | backend/src/geopilot/reporting.py:671-732 | the sample counts of the runs add up to the readings |
| `Runs.NarrowRunsAgreeWithWide` | backend/src/geopilot/reporting.py:115-118 | each run of a slice has its run in the whole series: the same one when it is not truncated, one of the same sense that contains it and is at least as long when it is |
| `Runs.TruncationIsHonest` | backend/src/geopilot/reporting.py:115-118 | the same between any two windows of one history, the first inside the second |
| `Coverage.EdgesAndGap` | backend/src/geopilot/reporting.py:1161-1191 | one pass finds both edges and the largest gap, and the span is at most (count - 1) gaps |
| `Coverage.LargestGapIsTight` | backend/src/geopilot/reporting.py:1176-1191 | no half-open window of a width inside the recorded span can miss every reading if and only if the width is at least the largest gap |
| `Coverage.SpanBoundedByGaps` | backend/src/geopilot/reporting.py:1176-1191 | any n + 1 readings span at most n gaps |
| `Buckets.AcceptedIntervalsKeepMidnight` | backend/src/geopilot/reporting.py:1085-1103 | a positive interval is accepted as it is if and only if every midnight is a bucket boundary or every boundary a midnight, and refused as drifting otherwise |
| `Division.DivisionsAgree` | backend/src/geopilot/reporting.py:1115-1140 | truncating and flooring division part exactly on negative operands that are no multiple |
| `Division.QuotientIsTruncated` | backend/src/geopilot/reporting.py:1115-1140 | the multiple a truncating division finds lies between zero and the operand, less than one divisor from it |
| `Buckets.SameKeysAfterEpoch` | backend/src/geopilot/reporting.py:1115-1140 | refusing rows before the epoch makes the SQL bucket index of every row the Python one |
| `Buckets.GroupsAreUnique` | backend/src/geopilot/reporting.py:527-562 | the keys and statistics of a grouping are determined by the rows |
| `Buckets.AggregateBuckets` | backend/src/geopilot/reporting.py:527-562 | the dictionary-filling loop refuses the rows if and only if one lies before the epoch, and otherwise returns one bucket per occurring index, in order, with the statistics of that index and the offset of its first row |
| `Buckets.BucketedInSql` | backend/src/geopilot/reporting.py:401-426 | the SQL path refuses the same rows and otherwise renders whatever grouping GROUP BY returned |
| `Buckets.PythonIsTrue` | backend/src/geopilot/reporting.py:527-562 | of the Python buckets, on instants and offsets alone: starts ascend and lie on interval boundaries of the clock they are shown in, every row falls in exactly the bucket whose span of that clock holds it, each bucket holds the statistics of exactly those rows, and a local bucket is shown in the offset of its first row |
| `Buckets.SqlIsTrue` | backend/src/geopilot/reporting.py:401-426 | the same of the SQL buckets, shown in the smallest offset of their rows |
| `Buckets.OffsetsAgree` | backend/src/geopilot/reporting.py:408-411 | first-row offsets and smallest offsets give one grouping if and only if each bucket has its smallest offset first |
| `Buckets.PathsAgree` | backend/src/geopilot/reporting.py:401-426 | the two paths give equally many buckets with equal statistics in the same order, and identical buckets if and only if alignment is UTC or each bucket has its smallest offset first |
| `BucketLaws.BucketsConserve` | backend/src/geopilot/reporting.py:527-562 | counts add up to the rows, count-weighted means to their sum, and the pooled mean of the buckets is the overall mean |
| `BucketLaws.CoarserKeys` | backend/src/geopilot/reporting.py:1106-1124 | an interval c times as long gives every row the quotient of its finer index by c |
| `BucketLaws.CoarseBucketMergesFine` | backend/src/geopilot/reporting.py:527-562 | when one interval divides another, a coarse bucket's count is the sum, its minimum the smallest minimum, its maximum the largest maximum and its mean the count-weighted mean of the fine buckets inside it |
| `BucketLaws.CoarseKeysAreTheQuotients` | backend/src/geopilot/reporting.py:527-562 | the coarse buckets are exactly those some fine bucket lies in |
| `Control.CommandJournal.Append` | backend/src/geopilot/sqlite_journal.py:121-146 | a record is stored unless its id is already there, in which case nothing changes |
| `Control.CommandJournal.LastAppliedAt` | backend/src/geopilot/sqlite_journal.py:186-202 | the stamp of the latest APPLIED record of a relay in journal order |
| `Control.CommandJournal.Recent` | backend/src/geopilot/sqlite_journal.py:157-174 | the last records in the order they were written, every one without a limit, an error for a negative limit |
| `Control.ControlService.Remember` | backend/src/geopilot/control.py:300-328 | the cached stamp, else the journal's, which is then cached |
| `Control.ProceedsExactlyWhenAllowed` | backend/src/geopilot/control.py:231-259 | a command reaches the bus if and only if control is enabled, its relay is an entry of the whitelist, a transport is there, and at least that entry's interval has passed since the relay was last operated |
| `Control.RefusalsAreOrdered` | backend/src/geopilot/control.py:231-259 | which refusal a command meets: control disabled, then unknown relay, then no transport, then too early, with the time remaining |
| `Control.ControlService.Execute` | backend/src/geopilot/control.py:231-298 | one command leaves journal and cache as the step-by-step specification says for every transport outcome, and returns the record it wrote; the transport is asked once, for that relay's unit and address, exactly when the command proceeds; for a relay no whitelist entry names nothing is asked, no intent is written and the cache stays as it was; another exception escapes after the intent |
| `Control.ProceedingIsRecorded` | backend/src/geopilot/control.py:262-298 | a command that proceeds under new names leaves an ISSUED record with the suffixed id, then an APPLIED or a FAILED one with its own id, all stamped alike, or the intent alone when another exception escapes |
| `Control.CacheHoldsOperations` | backend/src/geopilot/control.py:294-328 | what the cache holds for a relay afterwards is the moment it was last operated, this command included |
| `ControlProtocol.InvKept` | backend/src/geopilot/control.py:217-298 | every single step of any thread, and every crash and restart, keeps the whole invariant |
| `ControlProtocol.OperationsAreSpaced` | backend/src/geopilot/control.py:245-259 | in every reachable state of any number of threads, with refusals, bus failures, journal faults, crashes, restarts and a clock that may step back, a relay's APPLIED records are at least its minimum apart in journal order, so no span holds more of them than its length allows |
| `ControlProtocol.AppliedRecordsAreApart` | backend/src/geopilot/control.py:245-259 | any two APPLIED records of one relay, however far apart in the journal, are at least that relay's minimum apart |
| `BusSpacing.OnlyListedRelaysAreWritten` | backend/src/geopilot/control.py:231-245 | in every reachable state each write on the bus is for a relay that is an entry of the whitelist |
| `BusSpacing.ConfirmedWritesAreSpaced` | backend/src/geopilot/control.py:300-328 | confirmed writes of a relay, on record or not, are at least its minimum apart unless the earlier execution was interrupted |
| `BusSpacing.CompletedWritesAreRecorded` | backend/src/geopilot/control.py:294-298 | a confirmed write whose execution was neither interrupted nor is under way has an APPLIED record at or after its stamp |
| `BusSpacing.RestHoldsExactlyWhenRecorded` | backend/src/geopilot/control.py:300-328 | a confirmed write holds back every later one of its relay, in every continuation with any number of crashes, if and only if an APPLIED record at or after it is in the journal |
| `BusSpacing.CrashDefeatsTheRest` | backend/src/geopilot/control.py:300-328 | for any relay that must rest and any moment, two writes confirmed at that one moment are reachable with fresh ids, the process dying between them, with only two ISSUED records in the journal |
| `ControlProtocol.IntentPrecedesWrite` | backend/src/geopilot/control.py:262-293 | every write that reached the bus had its ISSUED record in the journal before it |
| `ControlProtocol.UnmatchedIntentsAreInterruptions` | backend/src/geopilot/control.py:262-298 | an intent has no outcome on record if and only if its execution was interrupted or is under way; otherwise the outcome is the very next record with the same stamp |
| `ControlProtocol.InterruptionsLeaveIntents` | backend/src/geopilot/control.py:262-268 | an interrupted execution always leaves its intent, and never an outcome |
| `ControlProtocol.RecordedExactlyWhenNameIsNew` | backend/src/geopilot/sqlite_journal.py:121-146 | an operation gets its APPLIED record if and only if the command id is new to the journal |
| `ControlProtocol.UnrecordedOperationIsForgotten` | backend/src/geopilot/control.py:300-328 | after a restart an operation left unrecorded changes no verdict: every later command is judged as if the relay had not moved |
| `ControlProtocol.PassIsExecute` | backend/src/geopilot/control.py:217-229 | an uninterrupted pass is a run of the step machine, and does to journal and cache exactly what one sequential call does |
| `Crc.CalculateCrc` | backend/src/geopilot/modbus_pyserial_transport.py:324-335 | the nested loops compute the CRC register of the frame |
| `Crc.RegisterIsBitSerial` | backend/src/geopilot/modbus_pyserial_transport.py:324-335 | the byte-wise register is the bit-serial one fed each byte least significant bit first |
| `Crc.RegisterInNumbers` | backend/src/geopilot/modbus_pyserial_transport.py:324-335 | the register starts as sixteen ones; each byte flips the low bits it has set and is followed by eight shifts |
| `Crc.ShiftOnceInNumbers` | backend/src/geopilot/modbus_pyserial_transport.py:330-334 | a shift halves the register and, when a one falls out, raises bit 15 and flips bits 13 and 0 |
| `Crc.OnlyItsOwnTrailer` | backend/src/geopilot/modbus_pyserial_transport.py:302-321 | two bytes extend a body to a frame that passes the check if and only if they are its CRC, low byte first |
| `Crc.ValidMeansZeroRegister` | backend/src/geopilot/modbus_pyserial_transport.py:307-321 | a frame of three bytes or more, the least the check accepts, passes if and only if the CRC of the whole frame, trailer included, is zero |
| `BitRegister.FeedAllIsLinear` | backend/src/geopilot/modbus_pyserial_transport.py:329-334 | the register after a sum of two bit streams is the sum of the registers |
| `BitRegister.BurstLeavesTrace` | backend/src/geopilot/modbus_pyserial_transport.py:329-334 | an error pattern confined to sixteen consecutive bits leaves a non-zero register, however long the frame |
| `BitRegister.StepKeepsParity` | backend/src/geopilot/modbus_pyserial_transport.py:329-334 | every one-bit step keeps the parity of the register |
| `BitRegister.OddErrorLeavesTrace` | backend/src/geopilot/modbus_pyserial_transport.py:329-334 | an odd number of flipped bits leaves a non-zero register |
| `ErrorDetection.DamageDecides` | backend/src/geopilot/modbus_pyserial_transport.py:307-335 | a damaged valid frame passes if and only if the damage alone leaves the register clear |
| `ErrorDetection.BurstsAreDetected` | backend/src/geopilot/modbus_pyserial_transport.py:307-335 | any non-empty damage of a valid frame within sixteen consecutive transmitted bits, trailer included, fails the check |
| `ErrorDetection.OddFlipsAreDetected` | backend/src/geopilot/modbus_pyserial_transport.py:307-335 | any odd number of flipped bits of a valid frame fails the check |
| `RtuCodec.ReadFrameIsInjective` | backend/src/geopilot/modbus_pyserial_transport.py:105-117 | two read requests with one frame are one request |
| `RtuCodec.WriteCoilFrameIsInjective` | backend/src/geopilot/modbus_pyserial_write.py:156-170 | two coil writes with one frame are one write |
| `RtuCodec.ReadFrameSpelled` | backend/src/geopilot/modbus_pyserial_transport.py:105-117 | byte by byte: unit, function, address and quantity with their high bytes first, and the CRC low byte first |
| `RtuCodec.WriteCoilFrameSpelled` | backend/src/geopilot/modbus_pyserial_write.py:156-170 | byte by byte: unit, function 5, the address, 0xFF 0x00 to close the relay and 0x00 0x00 to open it, and the CRC |
| `RtuCodec.ReplyFrameSpelled` | backend/src/geopilot/modbus_pyserial_transport.py:136-182 | an answer byte by byte: unit, function, byte count, data, and the CRC low byte first |
| `RtuExchange.RegisterRequestSpelled` | backend/src/geopilot/modbus_pyserial_transport.py:275-280 | holding registers are asked for with function 3, input registers with function 4 |
| `RtuExchange.BitRequestSpelled` | backend/src/geopilot/modbus_pyserial_transport.py:506-511 | coils are asked for with function 1, discrete inputs with function 2 |
| `RtuCodec.WordsRoundTrip` | backend/src/geopilot/modbus_pyserial_transport.py:283-287 | decoding the big-endian bytes of any words gives the words back |
| `RtuCodec.BytesRoundTrip` | backend/src/geopilot/modbus_pyserial_transport.py:283-287 | encoding the words decoded from an even number of bytes gives the bytes back |
| `RtuCodec.UnpackBits` | backend/src/geopilot/modbus_transport.py:305-317 | the unpacked bits are the first `quantity` transmitted bits of the payload; the padding is ignored |
| `RtuCodec.PackRoundTrip` | backend/src/geopilot/modbus_transport.py:305-317 | unpacking inverts least-significant-bit-first packing |
| `RtuExchange.ReadExact` | backend/src/geopilot/modbus_pyserial_transport.py:184-206 | exactly so many bytes are read, or the serial fault, silence or short answer is reported |
| `RtuExchange.Exchange` | backend/src/geopilot/modbus_pyserial_transport.py:105-182 | one exchange sends one request frame and answers as the reply grammar says of the bytes on the line, consuming a whole reply when it succeeds |
| `RtuExchange.ParsesExactlyWellFormedReplies` | backend/src/geopilot/modbus_pyserial_transport.py:136-182 | a payload is accepted if and only if the line opens with the well-formed reply carrying it for that unit, function and length |
| `RtuExchange.AcceptsExactlyWholeAnswers` | backend/src/geopilot/modbus_pyserial_transport.py:136-182 | a read succeeds if and only if the line opens with the unit, the function, the byte count asked for, that many bytes and the CRC of all of them, and it returns those bytes |
| `RtuExchange.RefusalsAreNamed` | backend/src/geopilot/modbus_pyserial_transport.py:136-176 | a raising port is a connection failure, silence a timeout, a short header, a foreign unit, function or byte count an invalid response |
| `RtuExchange.BrokenRestsAreNamed` | backend/src/geopilot/modbus_pyserial_transport.py:151-206 | after a good header the same for the rest: raising, silent, short, or failing the CRC |
| `RtuExchange.ExceptionsAreNamed` | backend/src/geopilot/modbus_pyserial_transport.py:290-299 | an exception answer with code 1, 2 or 4 is an illegal function, an illegal address, a device failure; any other code is unknown |
| `RtuExchange.WordsOnTheLine` | backend/src/geopilot/modbus_pyserial_transport.py:283-287 | a line carries these words if and only if it opens with a whole answer whose bytes are the words, high byte first |
| `RtuExchange.BitsOnTheLine` | backend/src/geopilot/modbus_transport.py:305-317 | a line carries these bits if and only if it opens with a whole answer in which bit k of the data is bit k % 8 of byte k / 8 |
| `RtuExchange.ExceptionsAreReported` | backend/src/geopilot/modbus_pyserial_transport.py:151-159 | an exception reply is reported as the error its code names |
| `RtuExchange.DamagedReplyIsNeverAccepted` | backend/src/geopilot/modbus_pyserial_transport.py:136-182 | a damaged reply the CRC catches yields no payload, even when the damage falls on the header or the byte count |
| `RtuExchange.BurstOnReplyIsRefused` | backend/src/geopilot/modbus_pyserial_transport.py:136-182 | a burst of up to sixteen bits anywhere in a reply is an error |
| `RtuExchange.OddFlipsOnReplyAreRefused` | backend/src/geopilot/modbus_pyserial_transport.py:136-182 | an odd number of flipped bits anywhere in a reply is an error |
| `RtuExchange.ReadRegisters` | backend/src/geopilot/modbus_pyserial_transport.py:89-182 | on a healthy port the read returns these words if and only if they are as many as asked for and the line opens with their encoding |
| `RtuExchange.ReadBits` | backend/src/geopilot/modbus_pyserial_transport.py:391-463 | on a healthy port the read returns these bits if and only if they are as many as asked for and the line opens with a reply whose payload begins with them |
| `RtuExchange.WriteCoil` | backend/src/geopilot/modbus_pyserial_write.py:86-153 | one write puts on the line exactly the order of that unit, address and direction, spelled out byte by byte, and answers as the echo check says of the bytes that come back |
| `RtuExchange.WriteRefusalsAreNamed` | backend/src/geopilot/modbus_pyserial_write.py:86-153 | what each answer to a write that is no echo is called, exception answers and a sealed foreign frame included |
| `RtuExchange.ConfirmsExactlyItsOwnEcho` | backend/src/geopilot/modbus_pyserial_write.py:86-153 | a write is confirmed if and only if the line opens with its own frame, and no echo confirms two different writes |
| `Provenance.Compare` | backend/src/geopilot/provenance.py:194-228 | the comparing loops, over two dictionaries keyed by sensor id, give the field-by-field changes of every sensor in id order |
| `Provenance.CompareFields` | backend/src/geopilot/provenance.py:219-226 | the inner loop gives the compared fields that differ, in their fixed order, with both values |
| `Provenance.ChangesFoundExactlyWhenDifferent` | backend/src/geopilot/provenance.py:173-226 | the compared fields are everything that distinguishes two entries of a sensor: no change is listed if and only if the entries are equal |
| `Provenance.ComparisonNamesExactlyWhatMoved` | backend/src/geopilot/provenance.py:194-228 | a comparison names a sensor if and only if its derivation differs |
| `Provenance.ComparisonListsExactlyWhatMoved` | backend/src/geopilot/provenance.py:194-228 | a comparison holds a change if and only if that field of that sensor moved, from the earlier configuration's value to the later one's, or the sensor came or went |
| `Provenance.ComparisonIsInOrder` | backend/src/geopilot/provenance.py:194-228 | changes are listed by sensor id and, within a sensor, in the fixed order of the fields, none twice |
| `ProvenanceJournal.Journal.Record` | backend/src/geopilot/sqlite_provenance.py:150-192 | a configuration equal to the last one recorded is not stored again, one that repeats a sensor and kind is refused with nothing stored, any other is appended with the next number, and no earlier epoch changes |
| `ProvenanceJournal.HistoryIsInWritingOrder` | backend/src/geopilot/sqlite_provenance.py:150-192 | in any recorded history the numbers rise in writing order |
| `ProvenanceJournal.HydrationAscends` | backend/src/geopilot/sqlite_provenance.py:308-333 | the rows of an epoch are read back in strictly ascending order of sensor id and kind |
| `ProvenanceJournal.RowOrderSpelled` | backend/src/geopilot/sqlite_provenance.py:308-333 | that order is by sensor id and then by the kind's name |
| `ProvenanceJournal.FingerprintDecidesRows` | backend/src/geopilot/provenance.py:178-191 | two configurations have one digest if and only if they are stored as the same rows |
| `ProvenanceJournal.Journal.ChangesBetween` | backend/src/geopilot/sqlite_provenance.py:259-272 | the loop pairs each epoch the window touches, after the first, with its comparison against the one before |
| `ProvenanceJournal.InEffectIsTheRuling` | backend/src/geopilot/sqlite_provenance.py:216-232 | no epoch is in effect if and only if every stamp is later; otherwise it is the one stamped no later than the moment after which every epoch written is stamped later |
| `ProvenanceJournal.SpanningIsWhatIsTouched` | backend/src/geopilot/sqlite_provenance.py:235-257 | a window touches exactly the epoch in effect when it opened and the epochs stamped inside it, the latter in writing order |
| `ProvenanceJournal.SpanningInOrderExactlyWhenOpeningIsOldest` | backend/src/geopilot/sqlite_provenance.py:235-257 | the whole list is in writing order if and only if nothing written before the opening epoch is stamped inside the window |
| `ProvenanceJournal.SilentExactlyWhenAllAgree` | backend/src/geopilot/sqlite_provenance.py:259-272 | the report of a window names a sensor nowhere if and only if every touched epoch derives it alike |
| `ProvenanceJournal.InEffectIsTouched` | backend/src/geopilot/sqlite_provenance.py:216-257 | the epoch in effect at any moment of a window is among those it touches, whatever the order of the stamps |
| `ProvenanceJournal.SilenceMeansUnmoved` | backend/src/geopilot/sqlite_provenance.py:216-272 | if the report names a sensor nowhere, its derivation is the same at any two moments of the window that have an epoch, even when stamps are not monotone |
| `ProvenanceJournal.SilenceIsExactWhenStampsRise` | backend/src/geopilot/sqlite_provenance.py:216-272 | with rising stamps a sensor is named nowhere if and only if its derivation is the same throughout the window |
| `ProvenanceLimits.ReportsAreExactExactlyWhenStampsRise` | backend/src/geopilot/sqlite_provenance.py:216-272 | stamps rise if and only if, in every history with those stamps, for every window and every sensor, silence and an unmoved derivation are the same |
| `ProvenanceLimits.SilenceCoversTheSensorItself` | backend/src/geopilot/sqlite_provenance.py:102-108 | where each touched epoch lists the sensor at most once, silence also means the epoch's own answer for it does not change |
| `ProvenanceLimits.AnswersAgreeExactlyWhenListedOnce` | backend/src/geopilot/sqlite_provenance.py:102-108 | a configuration answers for a sensor as a comparison reads it if and only if it lists the sensor at most once |
| `ProvenanceLimits.SilenceKeepsExactlyWhenListedOnce` | backend/src/geopilot/provenance.py:200-201 | silence about a sensor leaves its answer alone, against every later configuration that lists it at most once, if and only if the earlier one does |
| `ProvenanceLimits.TwoKindsHideAChange` | backend/src/geopilot/provenance.py:200-201 | in any configuration that lists an id twice, whatever the first entry becomes, the comparison is empty and the epoch's own answer moves |
| `ProvenanceLimits.ShadowedEpochIsStillReported` | backend/src/geopilot/sqlite_provenance.py:216-257 | for any stamps of which a later one is no larger than an earlier one, a history with them reports a change that no moment of the window sees |
| `Measurements.AdjacentWindowsConcatenate` | backend/src/geopilot/historian.py:184-202 | the queries of adjacent half-open windows concatenate to the query of their union |
| `Measurements.QueryAscends` | backend/src/geopilot/historian.py:194-202 | a query is in strictly ascending order of observed, received and id |
| `Measurements.QueryMembers` | backend/src/geopilot/historian.py:96-109 | a query holds exactly the wanted measurements |
| `Measurements.QueryIsInCanonicalOrder` | backend/src/geopilot/historian.py:194-202 | in a query each measurement was observed before its successor, or at the same instant and received before it, or both at the same instants with the smaller id |
| `TextOrder.BelowMeansParting` | backend/src/geopilot/historian.py:194-202 | one id is smaller than another if and only if, after their common beginning, it ends first or has the smaller character |
| `Measurements.LatestIsNotSurpassed` | backend/src/geopilot/historian.py:91-94 | no measurement of a sensor was observed after its latest, or at the same instant received after it |
| `Measurements.LatestEndsTheFullQuery` | backend/src/geopilot/historian.py:91-94 | the latest measurement of a sensor is the last element of its full query |
| `Historian.InMemoryHistorian.Append` | backend/src/geopilot/historian.py:73-83 | a new id is appended to list and index, a known one is ignored or rejected and changes nothing; ids stay unique and the index agrees with the list |
| `Historian.FedIdsAreDistinct` | backend/src/geopilot/historian.py:73-83 | ids stay unique over any sequence of appends |
| `Historian.AppendIsDecided` | backend/src/geopilot/historian.py:73-83 | a measurement is accepted if and only if its id is new, and conflicts if and only if the stored one with its id disagrees |
| `Measurements.AgreesExactlyWhenSameButReceived` | backend/src/geopilot/historian.py:129-143 | two measurements with one id agree if and only if they are equal in every field but the time of reception |
| `Measurements.ReceptionAloneIsNoConflict` | backend/src/geopilot/historian.py:129-143 | the same observation received at another time is no conflict |
| `Historian.InMemoryHistorian.QuerySensors` | backend/src/geopilot/historian.py:96-109 | a query refuses a blank id and a reversed window and otherwise returns the wanted measurements in canonical order |
| `Historian.InMemoryHistorian.LatestForSensor` | backend/src/geopilot/historian.py:91-94 | the latest measurement of a sensor, or none, and a blank id refused |
| `Historian.RedeliveryIsKnown` | backend/src/geopilot/historian.py:129-143 | the same observation arriving again, received whenever, is ignored, or conflicts as its first arrival did |
| `Historian.ReplayAddsNothing` | backend/src/geopilot/historian.py:129-143 | any sequence of observations already fed, in any order, leaves the history as it is |
| `SqliteHistorian.StorageRoundTrip` | backend/src/geopilot/sqlite_historian.py:291-308 | a stored measurement reads back equal, and identical if and only if its offsets are whole seconds |
| `SqliteHistorian.OffsetsTruncateTowardZero` | backend/src/geopilot/sqlite_historian.py:291-302 | a stored offset is the whole number of seconds between zero and the offset nearest to it |
| `SqliteHistorian.DurableHistorian.Append` | backend/src/geopilot/sqlite_historian.py:90-119 | a new id is inserted as one row, a known one is ignored or rejected and changes nothing |
| `SqliteHistorian.AppendsAreIndistinguishable` | backend/src/geopilot/sqlite_historian.py:90-119 | over any sequence of appends both historians accept, ignore and reject the same measurements, and the table holds the list row for row |
| `SqliteHistorian.QueriesAreIndistinguishable` | backend/src/geopilot/sqlite_historian.py:145-181 | any answer ORDER BY may give to a query is the in-memory answer row for row |
| `SqliteHistorian.AnswersReadBackEqual` | backend/src/geopilot/sqlite_historian.py:266-308 | read back, each row equals its in-memory measurement as the program compares them |
| `SqliteHistorian.LatestIsIndistinguishable` | backend/src/geopilot/sqlite_historian.py:132-143 | the row ORDER BY ... DESC LIMIT 1 may give is the in-memory latest measurement |
| `Snapshot.LatestBySensor` | backend/src/geopilot/snapshot.py:152-164 | the one-pass fold gives every sensor the measurement the historian calls its latest |
| `Snapshot.SnapshotShowsTheEndOfEachQuery` | backend/src/geopilot/snapshot.py:152-164 | over any append sequence that is the last element of the sensor's full query |
| `PortLock.PortLock.Hold` | backend/src/geopilot/port_lock.py:138-168 | an active lock is obtained if and only if some attempt made before the deadline passes finds it free, and at the first such attempt; read off the clock, every earlier attempt failed with time left, and a refusal comes after a failed attempt at or past the deadline; the number of attempts is bounded by the timeout; an inactive lock lets the caller in uncoordinated |
| `PortLock.PortLock.Release` | backend/src/geopilot/port_lock.py:170-174 | leaving the block releases the lock |
| `PortLock.PortLock.Close` | backend/src/geopilot/port_lock.py:176-182 | closing releases the lock and leaves one that coordinates nothing |
| `BusProtocol.PendingAnswerIsTheHolders` | backend/src/geopilot/port_lock.py:138-174 | with every lock active and a device that answers in time or never, in every reachable state a pending answer belongs to the lock holder's request and every finished exchange read its own |
| `BusProtocol.EveryExitReleases` | backend/src/geopilot/port_lock.py:170-174 | a process holds the lock if and only if it is inside the block, two are never inside together, and leaving frees it on every path |
| `BusProtocol.LateAnswerSwaps` | backend/src/geopilot/modbus_pyserial_transport.py:97-103 | a device that may answer late makes some exchange read the answer to an earlier request, lock or no lock |
| `BusProtocol.UncoordinatedSwaps` | backend/src/geopilot/port_lock.py:150-152 | one process that goes ahead without the lock is enough for it to read another's answer |
| `BusProtocol.AnswersAreOwnExactlyWhenCoordinated` | backend/src/geopilot/port_lock.py:14-21 | among two or more processes no exchange can ever read another's answer if and only if all of them lock and the device is punctual |
| `BusProtocol.FreeBusCompletesAnExchange` | backend/src/geopilot/port_lock.py:138-174 | whenever nobody holds the lock, an idle process can enter, ask, read the answer to its own request and leave the lock free |
| `Connectivity.MajorityBoundsMedian` | backend/src/geopilot/connectivity.py:333-334 | a majority of gaps of at most a bound keeps the median at or below it, a majority above it keeps the median above |
| `Connectivity.CadenceExists` | backend/src/geopilot/connectivity.py:328-335 | three or more strictly increasing readings always have a positive cadence |
| `Connectivity.CadenceIsAtMost` | backend/src/geopilot/connectivity.py:316-335 | if more than half of the sampled gaps are at most G, the cadence is at most G, however long the others are |
| `Connectivity.QuietSensorIsSilent` | backend/src/geopilot/connectivity.py:269-279 | a sensor then quiet for 10 G is judged silent |
| `Connectivity.RecentSensorIsLive` | backend/src/geopilot/connectivity.py:269-283 | a sensor heard from within three times what most of its gaps exceed is judged live |
| `Connectivity.SilentExactlyWithMajority` | backend/src/geopilot/connectivity.py:269-283 | when the remaining gaps are outages, a sensor quiet for 10 G is judged silent if and only if more than half of its gaps are at most G |
| `Connectivity.VerdictsAreExact` | backend/src/geopilot/connectivity.py:230-283 | each verdict has its exact range of silence: late when stamped more than the tolerance ahead, new without a cadence, live below three cadences, late from three, silent from ten |
| `Connectivity.FewReadingsAreNew` | backend/src/geopilot/connectivity.py:230-268 | a sensor without readings was never heard from, and one with too few readings for a cadence is new unless stamped ahead |
| `Connectivity.SampleIsTheLatest` | backend/src/geopilot/connectivity.py:323-332 | the cadence is taken over the latest fifty readings, newest first |
| `Connectivity.MedianOfAnyArrangement` | backend/src/geopilot/connectivity.py:333-335 | the median is the middle gap, or half the sum of the middle two, of any sorted arrangement of the gaps |
| `Connectivity.RoundingIsToNearestEven` | backend/src/geopilot/connectivity.py:333-335 | half a microsecond is rounded to the even one |

## Left out

- The HTTP server, HTML, JavaScript, command-line tools, CSV export, backup, systemd units: input, output and presentation.
- SQLite itself (journalling, pragmas, connections), `fcntl`, pyserial, sysfs and TOML: abstract tables, an abstract exclusive lock, byte streams.
- Floating-point rounding: statistics are exact reals, and the median's microseconds are integers rounded half to even.
- SHA-256: the digest is the bag of rows it is taken over, which assumes that no two configurations collide.
- Rendered text (`describe`, `:g`, durations, detail strings): typed values instead, so two numbers that render alike still count as a change.
- Numbers the tables keep under SQLite's NUMERIC and REAL affinities are reals; NaN and integers beyond the range of a double are not represented.
- Unit checks and sensor checks of the report queries, and the asserted-only filter, summaries, bucketing, approaches and duty cycle of runs: they select among or add up what the loops modelled here produce.
- `bucketed` with a gate and `bucketed_delta`: compositions of the modelled gate, pairing and `Buckets.AggregateBuckets`.
- Buckets.AcceptedIntervalsKeepMidnight: says nothing of intervals of zero or less, which are refused before any row is read.
- A journal that cannot be read while the guard consults it, on which the guard proceeds as without a memory: reads are fault-free, writes may fail at any step.
- Spacing of failed bus attempts, and of writes that ended in another exception: neither starts the rest interval, whether or not the relay moved.
- The in-memory journal of the guard, which keeps a record whose id repeats: the durable one is modelled.
- Bytes and words are integers with their ranges and the register is also a sequence of sixteen bits; both are proved equal (`Crc.RegisterIsBitSerial`).
- An exchange on the shared segment is one request and one whole answer: a device that sends bytes no request accounts for, a reader that stops in the middle of an answer, and a process killed inside the block are not steps of `BusProtocol`.
- RtuExchange.ReadRegisters: the word-for-word equivalence is stated for a port that raises nothing; a port that raises is covered by `RtuExchange.Exchange`.
- RtuExchange.ReadBits: as for registers.
- PortLock.PortLock.Hold: takes the sleep between two attempts to last at least the retry interval, as the clock and the sleep promise.
- SqliteHistorian.QueriesAreIndistinguishable: the blank-identifier and reversed-window refusals come from one function both historians call, so they are not part of the statement.
- The query of a whole system is the same query for a set of sensors; resolving the set, and the error for an unknown system, stay in the registry.
- The roster, the unconfigured verdict and the per-bus summary of connectivity; tariffs, fuel, calibration, register decoding, registries, device profiles, scenarios and acquisition runners: single-branch facts or wiring.
- Collation and Python both order identifiers by code point here; UTF-8 encoding is not modelled.
