# Verified model of the telemetry protocol, its host pipeline and its firmware

This project models four connected parts of a telemetry system and proves what they are for.

- **The wire protocol** (`protocol/`): the table-free reflected CRC-32, and the fixed 34-byte big-endian frame that
  carries it. The checksum is proved to be the polynomial remainder of section 8 of RFC 1952, and the codec to be a bijection
  onto the accepted byte strings. Every error of one, two or three flipped bits is noticed, and so is every burst within 32
  data bits; the corruptions confined to four consecutive bytes are settled exactly.
- **The host pipeline** (`host/`): one thread parses, pushes into a bounded blocking queue and counts; another pops, parses
  again and folds the frames into statistics. All interleavings, for all inputs and capacities, end in the report of
  the sequential program. What the numbers of that report mean is proved about the fold.
- **The firmware** (`firmware/`): a producer and a transmitter over a bounded queue with an in-band end marker, and a
  `main` that joins both and judges. All interleavings print the same text.
- **The validator of captured output** (`renode/tests/resources/telemetry_validation.py`): a second, independent reading of
  the same protocol in Python. It is proved to agree with the C++ decoder, and to accept exactly the complete eight-sample
  runs among all complete runs.

## How it is laid out

Code that changes state step by step is a method or a class with loops, proved against a function of its inputs or of its
old state; the theorems are about those functions. Concurrency is a step relation with an inductive invariant and a measure
that every step lowers by one. The thread bodies also appear as methods (`HostThreads`, `FirmwareThreads`), where the other
thread shows as interference at the blocking calls of the queue.

| modules | content |
|---|---|
| `Words`, `Crc32`, `CrcAlgebra`, `CrcWindows` | the checksum loop, linearity, bijectivity, four-byte windows |
| `Gf2Polynomials`, `CrcPolynomial` | polynomials over GF(2) and the remainder theorem |
| `Protocol`, `ProtocolCodec`, `Numbers`, `ParseErrors` | frames, buffer writes and reads, parsing, round trips, the fields as numbers, the errors |
| `ErrorDetection`, `BitErrors`, `PowerTable`, `ThreeBitErrors`, `BurstErrors`, `BitBursts` | syndromes and what corruption is noticed |
| `Metrics`, `SequenceAnalysis`, `Statistics`, `RunMeaning`, `Report` | the metrics object, the meaning of its numbers, the averages |
| `Ingestion`, `HostPipeline`, `HostInvariant`, `HostOutcome`, `HostMeaning`, `HostThreads`, `HostFailures` | the host |
| `SensorModel`, `HexFormatter`, `FirmwarePipeline`, `FirmwareInvariant`, `FirmwareOutcome`, `FirmwareThreads` | the firmware |
| `CaptureValidation`, `CaptureTheorems`, `CaptureOutcome` | the validator |

## Where the code does not do what one might expect

- **A blind burst.** Because the register is reflected and the checksum is stored high byte first, a window that straddles
  the checksum is not protected like the others. Exactly one nonzero four-byte corruption goes unnoticed: xor with
  61 D8 F4 EE at offset 28 (`BurstErrors.BurstAcceptedIff`). All other windows are safe.
- **Any version byte can be serialised.** `serialize` writes the version and type it is given, so a frame comes back if and
  only if both are the supported ones (`ProtocolCodec.SerializeThenDeserialize`).
- **Processed can run ahead of accepted** by one frame, because the push precedes the count
  (`HostOutcome.ProcessedBeforeAccepted`).
- **Missing is not "never received".** A late frame does not lower the count (`SequenceAnalysis.MissingIsNotNeverReceived`);
  the exact relation is `SequenceAnalysis.MissingMeaning`.
- **The record index is printed with `%04u` and read with four digits**, so captures are readable up to 9999 records
  (`CaptureOutcome.PrintedRecords`).
- **One check of the validator is redundant**: the two others about the closing line imply it (`CaptureOutcome.DoneMeaning`).

## Conventions

- Words of fixed width are bit vectors; counters are natural numbers reduced modulo 2^64 (2^32 for the record index) where the
  source's types wrap. The temperature is kept as its two's-complement word; `TemperatureOf` is the signed number.
- The signed 64-bit temperature sum would be undefined behaviour on overflow. It is a mathematical integer here; the record
  call and the thread bodies demand that it fits, and `Statistics.TemperatureSumFitsIff` says for how many frames it is sure
  to. The step system of the host keeps the mathematical sum, so its reports are those of the source for up to 2^32 accepted frames.
- The bounded buffer of the host is a library that is not part of this model. Its contract (FIFO, blocking push and pop, close
  and drain) is taken from `docs/HOST_PIPELINE.md`, lines 49-52 and 86-90.
- Counter updates are atomic steps and raise no exceptions. The snapshot is taken after the join.
- In the firmware's step system the kernel queue waits for ever, so its calls do not fail. The failure branches of the
  producer, the transmitter and the verdict are in the contracts of the methods of `FirmwareThreads`, where a call may come
  back with a nonzero code.
- The fields that `record_processed` updates are grouped in small datatypes, one for each part of that function.
- The checks of the validator work on lines. `int.from_bytes` is a natural number; the register of its checksum, which its
  masks keep below 2^32, is a 64-bit word.
- Words are made from numbers digit by digit (`Numbers.Word32`, `Numbers.Word64`), which is what the source's casts do.

## Model

| member | source | states |
|---|---|---|
| `Crc32.CalculateCrc32` | protocol/src/crc32.cpp:15-29 | the nested masked loop over bytes and bits computes the register fold `Crc`, whose meaning the rows below prove |
| `Crc32.FeedByte` | protocol/src/crc32.cpp:20-25 | the masked shift loop over eight bits computes the byte step |
| `CrcPolynomial.CrcIsRemainder` | protocol/src/crc32.cpp:8-29 | for every byte string, a polynomial is the remainder of degree below 32 of the bit-reflected message (times x^32, first 32 bits inverted) modulo the CRC-32 generator if and only if it is the complemented checksum read as a reflected polynomial: section 8 of RFC 1952 |
| `CrcPolynomial.FeedDivides` | protocol/src/crc32.cpp:19-26 | feeding bits is long division: for every bit string there is a quotient q with dividend = q * generator + register |
| `CrcPolynomial.PolynomialOfStep` | protocol/src/crc32.cpp:22-24 | one masked shift is multiplication by x, reduced by the generator when x^32 appears |
| `CrcPolynomial.FeedMessage` | protocol/src/crc32.cpp:19-26 | the byte loop is the bit loop over the reflected bits of the message |
| `Crc32.RegisterConcat` | protocol/src/crc32.cpp:19-26 | the register after a + b is the register after b started from the register after a |
| `CrcAlgebra.BitStepXor` | protocol/src/crc32.cpp:22-24 | the branch-free bit step is linear over exclusive or |
| `CrcAlgebra.BitStepsBijective` | protocol/src/crc32.cpp:21-25 | any number of bit steps is undone by as many inverse steps, and the other way round |
| `CrcAlgebra.RegisterXor` | protocol/src/crc32.cpp:19-26 | for equal lengths the register is linear in start value and message together |
| `CrcAlgebra.CrcOfThree` | protocol/src/crc32.cpp:15-29 | crc(a xor b xor c) = crc(a) xor crc(b) xor crc(c) for equal lengths |
| `CrcAlgebra.RegisterOfWord` | protocol/src/crc32.cpp:19-26 | four bytes fed from s give thirty-two bit steps of s xor their little-endian word |
| `CrcAlgebra.RegisterInjectiveInStart` | protocol/src/crc32.cpp:19-26 | whatever is fed, different start values stay different |
| `CrcWindows.WindowInjective` | protocol/src/crc32.cpp:15-29 | two messages that differ only inside a window of four bytes have equal checksums if and only if the windows are equal |
| `CrcWindows.WindowSurjective` | protocol/src/crc32.cpp:15-29 | for every surrounding text and every target value, a computed window of four bytes gives the message that checksum |
| `CaptureValidation.CalculateCrc32In64Bits` | renode/tests/resources/telemetry_validation.py:40-48 | the Python loop with its masks, in 64-bit words, computes the same value as the C++ loop on every input |
| `Protocol.WriteU16` | protocol/src/serializer.cpp:15-22 | stores the two big-endian bytes at the offset and leaves everything else |
| `Protocol.WriteU32` | protocol/src/serializer.cpp:24-35 | stores the four big-endian bytes at the offset and leaves everything else |
| `Protocol.WriteU64` | protocol/src/serializer.cpp:37-46 | the shift loop stores the eight big-endian bytes at the offset and leaves everything else |
| `Protocol.SerializeFrame` | protocol/src/serializer.cpp:50-75 | the in-place stores build exactly the layout `Serialize`, which `BodyLayout` and the round trips characterise |
| `Protocol.ReadU16` | protocol/src/deserializer.cpp:14-22 | the two bytes joined, high byte first |
| `Protocol.ReadU32` | protocol/src/deserializer.cpp:24-33 | the accumulating loop joins four bytes, high byte first |
| `Protocol.ReadU64` | protocol/src/deserializer.cpp:35-44 | the accumulating loop joins eight bytes, high byte first |
| `Protocol.ParseFrame` | protocol/src/deserializer.cpp:56-108 | the ordered checks with their early returns give the result of `Deserialize`, for any input length |
| `ProtocolCodec.BodyLayout` | protocol/src/serializer.cpp:54-72 | where every field of a serialised frame stands, and that the last four bytes are the checksum of the first thirty |
| `ProtocolCodec.SerializeThenDeserialize` | protocol/src/deserializer.cpp:56-108 | for every frame with any version and type byte: the exact result of parsing what was serialised, which is the frame with payload size 12 if and only if version and type are the supported ones |
| `ProtocolCodec.DeserializeThenSerialize` | protocol/src/serializer.cpp:50-75 | whenever parsing any byte string yields a frame, serialising that frame gives the byte string back |
| `ProtocolCodec.AcceptedIffSerialized` | protocol/src/deserializer.cpp:56-108 | the accepted byte strings are exactly the image of serialisation over supported frames |
| `ProtocolCodec.SerializeInjective` | protocol/src/serializer.cpp:50-75 | two frames share a wire form if and only if they agree in all but the ignored payload size |
| `Numbers.WireFormat` | protocol/src/serializer.cpp:54-72 | every byte position of a serialised frame, with literals: magic 54 4C, version, type, and the other fields, payload size 12 and checksum included, as big-endian numbers |
| `ParseErrors.ErrorMeaning` | protocol/src/deserializer.cpp:56-86 | for every byte string: each error if and only if that check is the first to fail, with the length, the magic, the version, the type, the payload size and the checksum given as numbers |
| `ParseErrors.FirstDefectDecides` | protocol/src/deserializer.cpp:56-86 | whatever is received in place of a serialised frame, the first part of it that differs decides the error |
| `ErrorDetection.ChecksumAfterError` | protocol/src/deserializer.cpp:81-86 | a frame with a valid checksum keeps it under an error pattern if and only if the syndrome of the pattern is zero |
| `ErrorDetection.NonzeroSyndromeRejected` | protocol/src/deserializer.cpp:56-86 | an error with a nonzero syndrome is rejected whatever the frame, as a checksum mismatch when the header is intact |
| `ErrorDetection.ZeroSyndromeAccepted` | protocol/src/deserializer.cpp:56-108 | with the header intact and a zero syndrome, the corrupted frame is accepted if and only if the frame was supported |
| `BitErrors.SyndromeOfBit` | protocol/src/deserializer.cpp:81-86 | each of the 272 bits of a frame has its own power of the bit step as syndrome |
| `BitErrors.OrbitIsLong` | protocol/src/crc32.cpp:21-25 | the orbit of the top bit under the bit step does not return within the 271 steps that two bits of a frame can lie apart |
| `BitErrors.OneBitDetected` | protocol/src/deserializer.cpp:56-86 | one flipped bit anywhere in any serialised frame makes parsing fail |
| `BitErrors.TwoBitsDetected` | protocol/src/deserializer.cpp:56-86 | two flipped bits anywhere in any serialised frame make parsing fail |
| `PowerTable.ExponentFound` | protocol/src/crc32.cpp:21-25 | a table finds the exponent of each of the 272 powers of the bit step from its low 31 bits, so no two powers agree in those |
| `ThreeBitErrors.ThreeBitsDetected` | protocol/src/deserializer.cpp:56-86 | three flipped bits anywhere in any serialised frame make parsing fail |
| `BitBursts.BitBurstDetected` | protocol/src/deserializer.cpp:56-86 | a nonzero error confined to any 32 consecutive bits of the data, least significant bit of each byte first, makes parsing fail, as a checksum mismatch when the header is intact |
| `BurstErrors.BurstSyndrome` | protocol/src/deserializer.cpp:81-86 | the syndrome of a four-byte burst at any offset is zero if and only if the burst is empty or is the one blind pattern at offset 28 |
| `BurstErrors.BurstAcceptedIff` | protocol/src/deserializer.cpp:56-108 | a nonzero corruption confined to any four consecutive bytes is accepted if and only if it is 61 D8 F4 EE at offset 28 of a supported frame; otherwise, beyond the header, it is a checksum mismatch |
| `Metrics.TelemetryMetrics.constructor` | host/include/telemetry_host/telemetry_metrics.hpp:68-97 | nothing counted and nothing recorded |
| `Metrics.TelemetryMetrics.RecordInput` | host/src/telemetry_metrics.cpp:18-20 | only the input counter goes up |
| `Metrics.TelemetryMetrics.RecordAccepted` | host/src/telemetry_metrics.cpp:22-24 | only the acceptance counter goes up |
| `Metrics.TelemetryMetrics.RecordParseRejected` | host/src/telemetry_metrics.cpp:26-54 | the total of rejections and the counter of that error go up, no other |
| `Metrics.TelemetryMetrics.RecordQueueClosed` | host/src/telemetry_metrics.cpp:56-59 | the total of rejections and the counter of refused pushes go up |
| `Metrics.TelemetryMetrics.RecordProcessed` | host/src/telemetry_metrics.cpp:61-120 | keeps the fields equal to the wrapped totals of the whole history, extended by the frame |
| `Metrics.TelemetryMetrics.RecordSequenceOf` | host/src/telemetry_metrics.cpp:65-79 | first, duplicate, advancing and regressing sequence numbers, with the distance taken only after the order is known |
| `Metrics.TelemetryMetrics.RecordFlagsOf` | host/src/telemetry_metrics.cpp:81-94 | each of the four flags counts on its own |
| `Metrics.TelemetryMetrics.RecordTemperatureOf` | host/src/telemetry_metrics.cpp:96-107 | extrema and signed sum; the sum must stay in 64 bits |
| `Metrics.TelemetryMetrics.RecordSupplyOf` | host/src/telemetry_metrics.cpp:109-119 | extrema and wrapping unsigned sum |
| `Metrics.TelemetryMetrics.TakeSnapshot` | host/src/telemetry_metrics.cpp:122-166 | reports the counters as they stand and, as processing part, the wrapped totals of exactly the frames recorded so far |
| `Metrics.WrappedRecord` | host/src/telemetry_metrics.cpp:61-120 | wrapping every counter at every call, or once at the end of the run, is the same |
| `RunMeaning.SequenceCounts` | host/src/telemetry_metrics.cpp:65-79 | for every run: duplicates is the number of positions whose sequence equals the maximum before it, out of order the number of those below it, first is the first sequence and last the maximum |
| `RunMeaning.WarningCounts` | host/src/telemetry_metrics.cpp:81-94 | for every run: each warning counter is the number of frames whose status word has bit value 1, 2, 4 or 8 |
| `RunMeaning.FlagNumbers` | host/src/telemetry_metrics.cpp:10-14 | the four flags are the four low binary digits of the status word |
| `RunMeaning.ReadingsOnWire` | host/src/telemetry_metrics.cpp:65-109 | sequence, temperature, supply and flags of a frame are the numbers at bytes 6-9, 18-21 (signed), 26-27 and 28-29 of its wire form |
| `RunMeaning.FoldDescribes` | host/src/telemetry_metrics.cpp:61-120 | for every run: the count, the sequence, warning, temperature and supply statistics, each in terms of what was on the wire |
| `RunMeaning.WrappedIsHeld` | host/src/telemetry_metrics.cpp:61-120 | the 64-bit fields are the unbounded statistics modulo 2^64, except the optional numbers and the signed sum |
| `Statistics.SignedReading` | protocol/src/deserializer.cpp:99-100 | the temperature is the one signed 32-bit number that differs from its word by a multiple of 2^32 |
| `Statistics.SumIsTotal` | host/src/telemetry_metrics.cpp:107-119 | the recorded sum of readings is their sum |
| `SequenceAnalysis.SequenceConservation` | host/src/telemetry_metrics.cpp:65-79 | after any nonempty run, processed + missing = (last - first) + 1 + duplicates + out of order; last is the largest sequence seen; missing is below 2^32 |
| `SequenceAnalysis.MissingMeaning` | host/src/telemetry_metrics.cpp:65-79 | for every run, missing = the number of values between first and last never received + the late frames that filled a gap, and the late ones are at most the out-of-order count |
| `SequenceAnalysis.MissingBounds` | host/src/telemetry_metrics.cpp:65-79 | never received lies between missing - out of order and missing, and equals missing if and only if no gap was filled late |
| `SequenceAnalysis.MissingIsNotNeverReceived` | host/src/telemetry_metrics.cpp:72-78 | sequences 100, 102, 101: missing is 1 although nothing between 100 and 102 is left out |
| `SequenceAnalysis.MissingNeverWraps` | host/src/telemetry_metrics.cpp:72-75 | the 64-bit accumulator of gaps never wraps, however long the run |
| `Statistics.OrderInsensitive` | host/src/telemetry_metrics.cpp:61-119 | two runs over permutations of the same frames agree on count, flag counters, extrema, sums and last sequence |
| `Statistics.RangeMeaning` | host/src/telemetry_metrics.cpp:96-119 | the extrema are attained, bound every reading, and count * minimum <= sum <= count * maximum |
| `Statistics.RangesOfFold` | host/src/telemetry_metrics.cpp:96-119 | the recorded temperature and supply ranges are those of the readings in order |
| `Statistics.TemperatureSumFitsIff` | host/src/telemetry_metrics.cpp:107 | the signed 64-bit sum is safe for all runs of n frames if and only if n <= 2^32 |
| `Statistics.ShortRunsFit` | host/src/telemetry_metrics.cpp:107 | up to 2^32 frames in all, no temperature sum on the way leaves the signed 64-bit range |
| `Statistics.SupplySumExactIff` | host/src/telemetry_metrics.cpp:119 | the unsigned 64-bit sum is exact for all runs of n frames if and only if n <= (2^64 - 1) / 65535 |
| `Report.UnsignedAverageExact` | host/src/telemetry_report.cpp:41-54 | the text is "N/A", which reads as no ratio, if and only if the count is 0; otherwise it reads back as the quotient over 1, or as the sum over the count themselves when the division leaves a remainder |
| `Report.SignedAverageExact` | host/src/telemetry_report.cpp:20-39 | the same for every signed 64-bit sum, the least included, with no step leaving its range; a minus sign if and only if the sum is negative; never "-0" |
| `Report.ParseOfDecimal` | host/src/telemetry_report.cpp:36-38 | a printed number reads back as the number |
| `Report.DecimalIsCanonical` | host/src/telemetry_report.cpp:36-38 | a printed number has no superfluous leading zero |
| `Report.TemperatureAverage` | host/src/telemetry_report.cpp:102-106 | for up to 2^32 frames the reported average is that of the signed numbers of the temperature words, and lies between the reported extrema, which are two of them |
| `Report.SupplyAverage` | host/src/telemetry_report.cpp:114-118 | the same for the supply words, for as long as their sum is exact |
| `Ingestion.CountersMeaning` | host/src/frame_ingestor.cpp:15-48 | inputs = accepted + rejected, rejected = the six error counters, and each error counter is the number of inputs failing with that error |
| `HostInvariant.StepInv` | host/src/frame_ingestor.cpp:15-48 | every step of either thread keeps the invariant: pushed frames = processed, held, queued, in input order; every counter exact up to the step in flight |
| `HostInvariant.RunInv` | host/src/main.cpp:29-61 | the invariant holds in every state of every interleaving |
| `HostInvariant.HeldIsValid` | host/src/telemetry_processor.cpp:36-56 | what the consumer holds is always a valid frame, so its early failure exits are never taken |
| `HostOutcome.Progress` | host/src/main.cpp:29-53 | some thread can move in every state the invariant allows, until the main thread is done: no deadlock for any capacity >= 1 |
| `HostOutcome.StepWork` | host/src/main.cpp:29-53 | every step uses up exactly one unit of a nonnegative measure |
| `HostOutcome.ScheduleIndependence` | host/src/main.cpp:29-61 | every interleaving takes exactly 4n + 2v + 4 steps and then reports success, the consumer result and the snapshot of the sequential program, with the queue empty |
| `HostOutcome.Completion` | host/src/main.cpp:29-61 | every partial interleaving can be completed to such an end |
| `HostOutcome.ReachableCounters` | host/src/frame_ingestor.cpp:17-47 | at every moment inputs = accepted + rejected + (0 or 1), rejected = errors + (0 or 1), pushes = accepted + (0 or 1), processed <= accepted + 1, and processed > accepted if and only if the frame just pushed is uncounted and nothing waits |
| `HostOutcome.ProcessedBeforeAccepted` | host/src/frame_ingestor.cpp:35-43 | a concrete interleaving in which a frame is fully processed before it is counted as accepted |
| `HostFailures.ConsumerAloneOutcome` | host/src/telemetry_processor.cpp:27-59 | left alone with any closed queue, the stepping consumer ends as the loop does: success if and only if every item parses, with exactly the frames before the first that does not recorded |
| `HostFailures.RefusedPush` | host/src/frame_ingestor.cpp:35-41 | in any state, a refused push is counted as a rejection and a refusal and ends the ingestion without success |
| `HostFailures.OperationalVerdict` | host/src/main.cpp:55-64 | in any state, the verdict is success if and only if ingestion and consumption succeeded and consumed = accepted |
| `HostMeaning.CompletedMeaning` | host/src/main.cpp:55-63 | at the end of every interleaving the reported counts add up, each parse error is counted as often as it occurred, accepted = processed, and every statistic of the snapshot says about the valid frames what it stands for |
| `HostThreads.IngestEnd.Push` | docs/HOST_PIPELINE.md:49-52 | appends unless closed, after blocking while full, with the consumer free to take items meanwhile |
| `HostThreads.IngestEnd.Close` | docs/HOST_PIPELINE.md:86-90 | closing keeps what was pushed |
| `HostThreads.ConsumeEnd.Pop` | docs/HOST_PIPELINE.md:86-90 | gives items in order and nothing only when closed and drained |
| `HostThreads.FrameIngestor.Ingest` | host/src/frame_ingestor.cpp:15-48 | status, parse error, pushed bytes and counters for a malformed input, an accepted one and one refused by a closed queue |
| `HostThreads.IngestAll` | host/src/main.cpp:34-52 | the loop over the inputs and the close: an open queue takes the valid inputs in order; a closed one ends the loop without success at the first valid input |
| `HostThreads.TelemetryProcessor.Process` | host/src/telemetry_processor.cpp:16-19 | records the frame and nothing else |
| `HostThreads.ParseQueued` | host/src/telemetry_processor.cpp:36-56 | the size check, the copy loop and the second parse |
| `HostThreads.ConsumeQueuedFrames` | host/src/telemetry_processor.cpp:21-66 | succeeds if and only if everything delivered parses; consumes and records, in order, exactly what precedes the first item that does not |
| `HostThreads.ValidDeliveriesSucceed` | host/src/telemetry_processor.cpp:36-56 | deliveries that all parse are consumed to the end |
| `HostThreads.RunPipeline` | host/src/main.cpp:20-64 | the main function with its threads one after the other reports the outcome that every interleaving reaches |
| `HexFormatter.Format` | firmware/src/hex_formatter.cpp:13-25 | the index loop writes the 68 digits of the frame and the terminator |
| `HexFormatter.HexDigitAt` | firmware/src/hex_formatter.cpp:9-21 | digits 2k and 2k + 1 are those of the quotient and the remainder of byte k by sixteen |
| `HexFormatter.UnhexOfHex` | firmware/src/hex_formatter.cpp:17-21 | for every byte string the text is upper-case hexadecimal and reads back as the bytes |
| `HexFormatter.HexOfUnhex` | firmware/src/hex_formatter.cpp:17-21 | every even upper-case hexadecimal text is the text of the bytes it reads as |
| `SensorModel.DeterministicSensorModel.constructor` | firmware/include/telemetry_firmware/deterministic_sensor_model.hpp:22 | starts at the first sample of the table |
| `SensorModel.DeterministicSensorModel.Next` | firmware/src/deterministic_sensor_model.cpp:51-74 | returns sample k in a frame with sequence 1000 + k and timestamp 1000000 + 250000 k, modulo 2^32 and 2^64, and advances by one; or returns the default frame and stays when exhausted |
| `SensorModel.FrameAtMeaning` | firmware/src/deterministic_sensor_model.cpp:59-73 | frame k carries sample k, with the sequence number and timestamp of k as numbers |
| `SensorModel.SensorFrameRoundTrip` | firmware/src/deterministic_sensor_model.cpp:59-73 | for any table, a sensor frame serialised and parsed is unchanged |
| `FirmwareThreads.FirmwareMetrics.RecordSampleGenerated` | firmware/src/firmware_metrics.cpp:5-7 | one counter goes up by one in 64 bits, the other seven stay |
| `FirmwareThreads.FirmwareMetrics.RecordFrameSerialized` | firmware/src/firmware_metrics.cpp:9-11 | one counter goes up by one in 64 bits, the other seven stay |
| `FirmwareThreads.FirmwareMetrics.RecordFrameEnqueued` | firmware/src/firmware_metrics.cpp:13-15 | one counter goes up by one in 64 bits, the other seven stay |
| `FirmwareThreads.FirmwareMetrics.RecordFrameTransmitted` | firmware/src/firmware_metrics.cpp:17-19 | one counter goes up by one in 64 bits, the other seven stay |
| `FirmwareThreads.FirmwareMetrics.RecordQueuePushFailure` | firmware/src/firmware_metrics.cpp:21-23 | one counter goes up by one in 64 bits, the other seven stay |
| `FirmwareThreads.FirmwareMetrics.RecordQueuePopFailure` | firmware/src/firmware_metrics.cpp:25-27 | one counter goes up by one in 64 bits, the other seven stay |
| `FirmwareThreads.FirmwareMetrics.RecordEndMarkerSent` | firmware/src/firmware_metrics.cpp:29-31 | one counter goes up by one in 64 bits, the other seven stay |
| `FirmwareThreads.FirmwareMetrics.RecordEndMarkerReceived` | firmware/src/firmware_metrics.cpp:33-35 | one counter goes up by one in 64 bits, the other seven stay |
| `FirmwareThreads.MessageQueue.Purge` | firmware/src/telemetry_queue.cpp:21 | empties the buffer and leaves what other threads will put |
| `FirmwareThreads.MessageQueue.Put` | firmware/src/telemetry_queue.cpp:30 | on return code 0 the item is last, after the reader took any number of items; otherwise the stream is unchanged |
| `FirmwareThreads.MessageQueue.Get` | firmware/src/telemetry_queue.cpp:42 | on return code 0 the first delivery is taken; otherwise none is; with nothing to come only a failing code ends the wait |
| `FirmwareThreads.TelemetryQueue.constructor` | firmware/src/telemetry_queue.cpp:20-22 | the static queue starts empty, whatever it held |
| `FirmwareThreads.TelemetryQueue.PushFrame` | firmware/src/telemetry_queue.cpp:24-31 | puts the frame last, or reports failure and changes nothing |
| `FirmwareThreads.TelemetryQueue.PushEndOfStream` | firmware/src/telemetry_queue.cpp:33-39 | puts the marker last, or reports failure and changes nothing |
| `FirmwareThreads.TelemetryQueue.Pop` | firmware/src/telemetry_queue.cpp:41-43 | takes the first item still to be delivered, or reports failure and takes nothing |
| `FirmwareThreads.TelemetryProducer.Run` | firmware/src/telemetry_producer.cpp:13-35 | for any remaining samples and any failing put: the exact prefix of frames-then-marker that was put, every counter, what is left of the sensor, and success if and only if everything was put |
| `FirmwareThreads.TelemetryTransmitter.PrintRecord` | firmware/src/telemetry_transmitter.cpp:33-37 | prints the one record line of the frame |
| `FirmwareThreads.TelemetryTransmitter.Run` | firmware/src/telemetry_transmitter.cpp:17-40 | for any deliveries and any failing get: the exact records printed, every counter, what is left to deliver, and nothing taken after the marker |
| `FirmwareThreads.Conclude` | firmware/src/main.cpp:110-141 | the verdict, the lines printed for it and the exit code |
| `FirmwareThreads.CountsOfRun` | firmware/src/telemetry_producer.cpp:13-35 | all eight counters as numbers, for every number of items put before a failure and every number of frames printed |
| `CaptureTheorems.TrailerReadsBack` | firmware/src/main.cpp:119-134 | the closing lines, word for word, and the three numbers in them: enqueued, transmitted, and failures of both kinds |
| `FirmwareThreads.VerdictOfRun` | firmware/src/main.cpp:110-134 | whatever failed, the verdict drawn from the counters is success if and only if nothing did and the count is the expected one |
| `FirmwareThreads.RunFirmware` | firmware/src/main.cpp:71-142 | the main function with its threads one after the other and queue calls that may fail: it writes a prefix of the records and the verdict, exits with 0 if and only if no call failed and the number of samples is the compiled-in one, and without failures writes what every interleaving writes |
| `FirmwareInvariant.StepInv` | firmware/src/telemetry_producer.cpp:13-35 | every step of the three threads keeps the invariant: printed, held, queued and unsent frames are the serialised samples in order; the marker comes once and last; every counter is exact up to one step |
| `FirmwareInvariant.RunInv` | firmware/src/telemetry_transmitter.cpp:17-40 | the invariant holds in every state of every interleaving, for any samples and capacity |
| `FirmwareOutcome.Progress` | firmware/src/main.cpp:107-108 | some thread can move in every state the invariant allows, until `main` has exited: no deadlock for any capacity >= 1 |
| `FirmwareOutcome.StepWork` | firmware/src/telemetry_producer.cpp:13-35 | every step uses up exactly one unit of a measure |
| `FirmwareOutcome.RunOutcome` | firmware/src/main.cpp:107-134 | every interleaving takes exactly 7n + 8 steps and then both threads have succeeded, the queue is empty, the counters are exact, the verdict is success if and only if n is the expected count, and the whole output is determined |
| `FirmwareOutcome.Completion` | firmware/src/main.cpp:107-134 | every partial interleaving can be completed to such an end |
| `FirmwareOutcome.ValidMetricsAreThese` | firmware/src/main.cpp:53-67 | counters are valid if and only if they are those of a run that made, serialised, put and sent the expected number, without failures and with one marker each way |
| `FirmwareOutcome.JudgedSuccess` | firmware/src/main.cpp:110-134 | in any state, the verdict is success if and only if both threads succeeded, the queue is empty and the counters are exactly those of a whole run |
| `FirmwareOutcome.ExitedOutcome` | firmware/src/main.cpp:53-67 | in every terminal state the counters are those of the whole run and the verdict is that of `metrics_are_valid` |
| `FirmwareOutcome.ReachableQueue` | firmware/src/telemetry_queue.cpp:12-47 | in every reachable state the queue is within its capacity, a marker in it is its last item, and the output is a prefix of the expected records |
| `CaptureValidation.ReadRecords` | renode/tests/resources/telemetry_validation.py:29-37 | the loop over the lines yields every record in order, or fails if and only if some record line is malformed |
| `CaptureValidation.ValidateHeaders` | renode/tests/resources/telemetry_validation.py:65-77 | passes if and only if every record carries magic, version, type and payload size |
| `CaptureValidation.ValidateIndices` | renode/tests/resources/telemetry_validation.py:81-84 | passes if and only if there are eight records indexed 0001 to 0008 |
| `CaptureValidation.ValidateSequencesAndCrc` | renode/tests/resources/telemetry_validation.py:86-99 | passes if and only if every record has the expected sequence number and checksum, computed by the second implementation |
| `CaptureValidation.ValidateCapture` | renode/tests/resources/telemetry_validation.py:137-143 | the order of the checks: which one fails first, and success if and only if all pass |
| `CaptureTheorems.MatchOfFrameLine` | renode/tests/resources/telemetry_validation.py:14 | what the transmitter prints matches the pattern if and only if its index is at most 9999, with the index and the digits as groups |
| `CaptureTheorems.MatchIffPrinted` | renode/tests/resources/telemetry_validation.py:14 | the pattern matches exactly the lines the transmitter prints with an index up to 9999 |
| `CaptureTheorems.IndexReadsBack` | firmware/src/telemetry_transmitter.cpp:34-36 | the padded index of a record reads back as the number of the record, for every number |
| `CaptureTheorems.ChecksAgreeWithDecoder` | renode/tests/resources/telemetry_validation.py:65-99 | for any 34 bytes, the Python checks pass if and only if the C++ decoder accepts and the sequence number is the expected one |
| `CaptureOutcome.FrameChecksMeaning` | renode/tests/resources/telemetry_validation.py:60-99 | the record checks accept a capture if and only if its record lines are what the transmitter prints for some eight supported frames numbered from 1000 |
| `CaptureOutcome.SummaryMeaning` | renode/tests/resources/telemetry_validation.py:101-104 | the summary check passes if and only if one line starts as a summary does and that line is the expected text |
| `CaptureOutcome.DoneMeaning` | renode/tests/resources/telemetry_validation.py:106-115 | the search for records after the closing line is implied by the other two conditions |
| `CaptureOutcome.ControlledLinesDecide` | renode/tests/resources/telemetry_validation.py:60-115 | lines of any other origin, anywhere in the capture, change nothing |
| `CaptureOutcome.CompleteRunPasses` | renode/tests/resources/telemetry_validation.py:60-115 | the output of a complete run, among any other lines, passes if and only if the run produced, and was built for, eight samples, whatever their values |
| `CaptureOutcome.EveryRunPassesIff` | renode/tests/resources/telemetry_validation.py:137-143 | what any complete interleaving over any samples wrote, among any other lines, passes if and only if eight samples were made and eight expected |
| `CaptureOutcome.EveryRunOfTheTablePasses` | renode/tests/resources/telemetry_validation.py:137-143 | every complete interleaving over the compiled-in table, for any capacity >= 1, passes |
| `CaptureOutcome.PrintedRecords` | firmware/src/telemetry_transmitter.cpp:32-37 | the records of n printed frames are all readable if and only if n <= 9999, and then record k has index k + 1 and the bytes of frame k |
| `CaptureOutcome.RecordsDecodeToSensorFrames` | firmware/src/telemetry_transmitter.cpp:32-38 | in the output of a complete run, the index of record k reads as k + 1 and the record parses to a frame with sample k, sequence 1000 + k and the timestamp of k, up to 9999 samples |
| `CaptureOutcome.EveryRunDecodesIff` | firmware/src/telemetry_transmitter.cpp:32-38 | for every complete interleaving: all of its records decode to the samples in order, numbered and timed as the sensor does, if and only if there are at most 9999 samples |

## Left out

- Zephyr threads, priorities, stacks, semaphores as objects, `printk` and `nsi_exit`: foreign calls; replaced by steps, an
  atomic bounded FIFO and an output trace.
- The inside of the bounded buffer library, its wake-ups and its memory ordering.
- Exceptions and allocation failure: the `catch` branches of the host's main function and of its consumer.
- `SimulatedFrameSource`: one fixed input list, of which the theorems over all inputs speak.
- `make_text_report`: fixed text around the averages, and `format_optional`.
- The validator's boot-banner and fault-marker checks, line splitting and argument parsing: text plumbing. `ValidateCapture`
  is the facade without those two checks.
- Sequence wraparound: the documentation does not interpret it (`docs/HOST_PIPELINE.md`, line 104).
- FirmwareThreads.MessageQueue.Get: demands that something is still to be delivered or that the wait may be interrupted, because
  otherwise the source waits for ever; the step systems prove that this never happens.
- FirmwareThreads.TelemetryQueue.Pop: demands the same, for the same reason.
- FirmwareThreads.TelemetryTransmitter.Run: demands that an end marker is still to come or that a wait may be interrupted, for
  the same reason.
- FirmwareThreads.RunFirmware: does not interleave its threads; the step system does, without failing calls.
- HostThreads.ConsumeQueuedFrames: demands that no temperature sum on the way overflows, which would be undefined behaviour.
- HostThreads.RunPipeline: demands the same of the valid inputs, and does not interleave its threads.
- CaptureValidation.CalculateCrc32In64Bits: does not model integers beyond 64 bits, which the masks of the source rule out.
- Error patterns of four and more scattered bits, and bit bursts that reach into the stored checksum other than within four
  bytes: nothing is claimed for them.
- Platform files, scripts and build files.
