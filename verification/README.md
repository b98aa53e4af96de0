# Verification model of the Modbus RTU polling daemon

The daemon polls inverters over a serial line, caches their registers in a pool, accepts write commands from
a second thread, publishes and receives text messages over TCP, and raises alarms. This project models the code
that decides what happens to the data and proves what it promises, for every input and every run.

| file | source | content |
|---|---|---|
| Crc16, CrcErrors, CrcOrder, CrcPolynomial | lib/modbus/modbus_rtu_client.c | the CRC as bit-serial register and as polynomial remainder; which errors it catches |
| WireNumbers, RtuCodec, RtuLayout | lib/modbus/modbus_rtu_client.c | request and reply frames, a server's decoder, casts, the standard's example messages |
| RtuClient, RtuReplies | lib/modbus/modbus_rtu_client.c | the client's buffers and transactions; exactly which bytes mean success |
| RegisterMap | lib/device_map/device_register_map.c | lookup, storing a read, access check |
| SegmentScan, PoolCache | src/inverter_module.c, lib/device_map/device_register_map.c | batching of a scan and what it leaves in the pool |
| CommandQueue, UnitModel, UnitAnswers, UnitRuns, InverterUnit | src/inverter_module.c | ring buffer, the unit as a state machine, what it does with an answer, its callbacks and thread loop |
| LineReceiver, CmosText, CmosEndToEnd | lib/cmos/cmos_sub.c, lib/cmos/cmos_pub.c | stream to lines, lines to callbacks, the whole path |
| CmosPublisher, CmosParse, ConnectionTable | lib/cmos | formatting and compaction, the second parser, the connection table |
| AlarmEngine | lib/alarm/alarm_engine.c | detectors and their event traces |

## How to read it

- The serial line, sockets and accepted connections are oracles: every call that could wait or fail takes what
  the outside answers as an argument, and the theorems hold for all answers. For one request `Exchange` says
  whether the write was complete and which chunks, timeouts and failures follow. A chunk may have any length.
- A frame is a bit string, each byte least significant bit first. An error is the difference of two bit strings.
- A unit is described three times. `UnitModel.Step` is one atomic action (a push, an init, one pop and write, one
  segment read, an error callback) and `UnitModel.Run` any sequence of actions; `UnitRuns` writes the callbacks and the thread loop as
  functions on the same state, each proved to be such a sequence; the methods of `InverterUnit.Unit` work on
  the ring, the pool and the counters in place and are proved equal to those functions. The invariant therefore
  holds between any two actions of any interleaving.
- The device is a memory that may change between any two actions. A frame on the wire is decoded as a server would and
  answered with the registers it asks for; the line may lose the answer, cut it short or damage it.
- The receive loop is specified by a machine that takes one byte at a time. Equality with that machine is
  stronger than independence of chunking: it fixes what happens to lines that overflow the buffer too.
- Definitions that a proof does not need are hidden in it with `hide`, mainly bit-vector bodies.

## Where the code and its comments differ

- The header promises a positive Modbus exception code for an exception reply. A bare exception frame has five
  bytes and every request waits for at least seven, so it ends in a timeout (`RtuReplies.BareExceptionTimesOut`,
  `RtuReplies.BareExceptionTimesOutOnWrite`); `RtuReplies.PositiveCode` and `RtuReplies.PositiveWriteCode` say exactly
  when a positive code is returned.
- The comment at FC06 says the echo is verified. Only unit, function code and CRC are
  (`RtuReplies.WriteAcceptsExactly`, with the input in `RtuReplies.ForeignEchoAccepted`).
- Two flipped bits are caught unless they are a multiple of 32767 bits apart; a burst is caught up to 16 bits, and among
  the 17-bit bursts one pattern is missed.
- A pool range that wraps past 0xFFFF passes `check_register_access_range` unexamined, and on a range that ends exactly at
  0xFFFF its 16-bit loop counter cannot pass the end: it wraps around until an address fails.
- The second parser takes the first `name=` anywhere in the text. It agrees with the token parser on a field exactly
  when no field before it holds that text, or when what follows there reads the same (`CmosParse.ParsersAgreeExactly`);
  a state that reads `type=...` misleads it (`CmosParse.EqualsSignConfuses`).
- A publisher name of more than 63 characters is stored cut but compared whole, so it can be connected twice
  (`ConnectionTable.LongNameTwice`); `ConnectionTable.AddKeepsUnique` gives the exact condition.

## Model

| member | source | states |
|---|---|---|
| Crc16.ByteStep | lib/modbus/modbus_rtu_client.c:68-77 | xoring a byte in and shifting eight times equals feeding its eight bits to a serial register |
| Crc16.ShiftsInjective | lib/modbus/modbus_rtu_client.c:71-75 | shifting never merges two different registers |
| Crc16.AcceptedIsZeroCrc | lib/modbus/modbus_rtu_client.c:255-263 | a frame of at least two bytes verifies exactly when the CRC over the whole frame is zero |
| Crc16.WithCrcAccepted | lib/modbus/modbus_rtu_client.c:241-263 | for any two last bytes, the frame verifies exactly when they are the ones append_crc writes |
| CrcPolynomial.RegisterIsRemainder | lib/modbus/modbus_rtu_client.c:56-79 | the CRC register is the unique remainder of the message polynomial modulo x^16+x^15+x^2+1, from any initial value |
| CrcPolynomial.InitialComplement | lib/modbus/modbus_rtu_client.c:64 | starting from 0xFFFF complements the sixteen leading coefficients of the message polynomial |
| CrcPolynomial.SeventeenBitBurst | lib/modbus/modbus_rtu_client.c:62-79 | of the bursts of at most 17 bits exactly the generator pattern is missed, so the 16-bit bound is exact |
| CrcErrors.CorruptedAccepted | lib/modbus/modbus_rtu_client.c:255-263 | whether a corrupted copy of an accepted frame is accepted depends on the error bits alone |
| CrcErrors.BurstDetected | lib/modbus/modbus_rtu_client.c:62-79 | a nonzero error within 16 consecutive bits makes an accepted frame of any length rejected |
| CrcErrors.OddErrorDetected | lib/modbus/modbus_rtu_client.c:68-77 | an odd number of flipped bits makes an accepted frame of any length rejected |
| CrcOrder.OrderIs32767 | lib/modbus/modbus_rtu_client.c:71-75 | x has order exactly 32767 modulo the CRC polynomial |
| CrcOrder.DoubleErrorExact | lib/modbus/modbus_rtu_client.c:255-263 | two flipped bits are missed if and only if their distance is a multiple of 32767 |
| CrcOrder.DoubleErrorDetected | lib/modbus/modbus_rtu_client.c:255-263 | two flipped bits are always caught in frames of at most 4095 bytes |
| WireNumbers.WordCount | src/inverter_module.c:374 | a count below 65536 survives the cast to 16 bits and back |
| WireNumbers.ByteCount | lib/modbus/modbus_rtu_client.c:515 | a count below 256 survives the cast to a byte and back |
| WireNumbers.ByteValue | lib/modbus/modbus_rtu_client.c:322 | the number of a byte is the sum of the weights of its set bits |
| WireNumbers.WordValue | lib/modbus/modbus_rtu_client.c:229-233 | a word is 256 times its high byte plus its low byte |
| RtuCodec.RegistersOfBeAll | lib/modbus/modbus_rtu_client.c:229-233 | reading registers back from their big-endian bytes is exact |
| RtuCodec.EncodeThenDecode | lib/modbus/modbus_rtu_client.c:452-520 | a server recovers unit, address, count and values from every FC03, FC06 and FC16 request |
| RtuCodec.DecodeThenEncode | lib/modbus/modbus_rtu_client.c:403-411 | a frame a server understands is the one encoding of what it decodes to |
| RtuCodec.ReadReplyInjective | lib/modbus/modbus_rtu_client.c:426-429 | a reply frame determines its registers |
| RtuLayout.RequestLayout | lib/modbus/modbus_rtu_client.c:403-520 | every FC03, FC06 and FC16 request byte by byte: unit, code 3, 6 or 16, address, count or value, byte count and registers, high bytes first |
| RtuLayout.ReplyLayout | lib/modbus/modbus_rtu_client.c:413-429 | the reply to a read byte by byte |
| RtuLayout.KnownCrc | lib/modbus/modbus_rtu_client.c:62-79 | 01 03 00 00 00 0A has CRC 0xCDC5 and is accepted with C5 CD appended |
| RtuLayout.ReadExample | lib/modbus/modbus_rtu_client.c:403-411 | the read request of section 6.3 of MODBUS Application Protocol V1.1b3, sent to unit 17, with its CRC |
| RtuLayout.ReadReplyExample | lib/modbus/modbus_rtu_client.c:413-429 | the read response of section 6.3, from unit 17, with its CRC |
| RtuLayout.WriteSingleExample | lib/modbus/modbus_rtu_client.c:452-458 | the write of section 6.6, sent to unit 17, with its CRC |
| RtuLayout.WriteMultipleExample | lib/modbus/modbus_rtu_client.c:507-520 | the write of section 6.12, sent to unit 17, with its CRC |
| RtuClient.ComputeCrc16 | lib/modbus/modbus_rtu_client.c:62-79 | the nested loops over the buffer return the remainder of its bit string with the first sixteen bits complemented |
| RtuClient.AppendCrc | lib/modbus/modbus_rtu_client.c:241-246 | the buffer grows by the CRC of its contents, low byte first |
| RtuClient.VerifyResponseCrc | lib/modbus/modbus_rtu_client.c:255-263 | true exactly when the length is at least two and the CRC over all the bytes is zero |
| RtuClient.ReadExact | lib/modbus/modbus_rtu_client.c:201-222 | the result and the buffer depend only on the bytes before the first timeout or failure, not on their fragmentation |
| RtuClient.BuildMultiple | lib/modbus/modbus_rtu_client.c:507-520 | the moving write position produces exactly the FC16 frame |
| RtuClient.Client.DoTransaction | lib/modbus/modbus_rtu_client.c:279-327 | the return code of every outcome, and the reply in the buffer on success |
| RtuClient.Client.ReadHoldingRegisters | lib/modbus/modbus_rtu_client.c:387-435 | code, transmitted frame and output registers; out changes only on success and only in its first qty cells |
| RtuClient.Client.WriteSingleRegister | lib/modbus/modbus_rtu_client.c:437-477 | at most one frame goes out, the FC06 encoding of the arguments |
| RtuClient.Client.WriteMultipleRegisters | lib/modbus/modbus_rtu_client.c:491-538 | at most one frame goes out, the FC16 encoding, and none when the count is outside 1..123 |
| RtuClient.Client.ProbeDevice | lib/modbus/modbus_rtu_client.c:479-489 | the probe sends one FC03 request and reports exactly what that read reports |
| RtuClient.Client.Connect | lib/modbus/modbus_rtu_client.c:331-368 | the port is open afterwards exactly when 0 is returned |
| RtuReplies.ReadAcceptsExactly | lib/modbus/modbus_rtu_client.c:279-431 | FC03 is OK if and only if arguments and port are good and the arriving bytes begin with the reply encoding qty registers of this unit, which are then delivered |
| RtuReplies.ExceptionNeverOk | lib/modbus/modbus_rtu_client.c:318-324 | an exception frame is never OK, even with code byte 0 |
| RtuReplies.PositiveCode | lib/modbus/modbus_rtu_client.c:318-324 | exactly when a read returns a positive code |
| RtuReplies.PositiveWriteCode | lib/modbus/modbus_rtu_client.c:318-324 | exactly when a write returns a positive code |
| RtuReplies.BareExceptionTimesOut | lib/modbus/modbus_rtu_client.c:300-303 | a five-byte exception reply to a read ends in a timeout |
| RtuReplies.BareExceptionTimesOutOnWrite | lib/modbus/modbus_rtu_client.c:300-303 | a five-byte exception reply to a write ends in a timeout |
| RtuReplies.ReadFailures | lib/modbus/modbus_rtu_client.c:279-431 | the return code of a read in every case, -1 to -6 as the header lists them |
| RtuReplies.WriteFailures | lib/modbus/modbus_rtu_client.c:279-473 | the return code of a write in every case |
| RtuReplies.FragmentsArrive | lib/modbus/modbus_rtu_client.c:201-222 | what arrives is the concatenation of the nonempty chunks up to the first timeout, failure or empty read, which decides how the line ends |
| RtuReplies.DamagedReplyFails | lib/modbus/modbus_rtu_client.c:308-311 | no register is delivered from a genuine reply damaged by a 16-bit burst, an odd number of flips or two flips |
| RtuReplies.WriteAcceptsExactly | lib/modbus/modbus_rtu_client.c:462-473 | a write is OK if and only if eight bytes arrive that are any CRC-valid frame of this unit with the function code |
| RtuReplies.ForeignEchoAccepted | lib/modbus/modbus_rtu_client.c:468-473 | an echo of another address and value is accepted |
| RegisterMap.FindSlot | lib/device_map/device_register_map.c:31-57 | on a strictly sorted table binary search returns what a linear scan finds |
| RegisterMap.BinaryIsLinear | lib/device_map/device_register_map.c:31-57 | the probes of binary search and a linear scan agree for every address |
| RegisterMap.CachedMeaning | lib/device_map/device_register_map.c:128-141 | a row's cell is read under its device address, and under no other address |
| RegisterMap.RegisterPool.ReadToPool | lib/device_map/device_register_map.c:59-96 | the pool afterwards is the fold of single stores, unmapped and out-of-range rows skipped |
| RegisterMap.RegisterPool.WriteByDeviceAddr | lib/device_map/device_register_map.c:162-176 | succeeds exactly when the address can be read back, and stores one cell |
| RegisterMap.WriteThenRead | lib/device_map/device_register_map.c:128-176 | a written value is what the next read by that address returns, other cells keep theirs |
| RegisterMap.CheckAddress | lib/device_map/device_register_map.c:195-222 | the first row of a pool address decides, by its access mode, and none means unmapped |
| RegisterMap.CheckAccessRange | lib/device_map/device_register_map.c:180-226 | below 0xFFFF, 0 exactly when every address of the range passes, otherwise the code of the lowest offending one; the codes of empty and wrapping ranges |
| RegisterMap.VerdictMeaning | lib/device_map/device_register_map.c:195-222 | with distinct pool addresses: 0 for a mapped row, 1 for reading a write-only or writing a read-only one, 2 for an unmapped address |
| SegmentScan.GreedyOptimal | src/inverter_module.c:358-398 | the batches of a scan partition the table into runs of consecutive addresses of at most max(1, read_chunk) rows, and no such partition has fewer |
| SegmentScan.GreedyMonotone | src/inverter_module.c:361-397 | starting the batching later never needs more batches |
| PoolCache.StoreRun | lib/device_map/device_register_map.c:69-95 | storing a run of values fills exactly the cells of its rows |
| PoolCache.CacheAgrees | src/inverter_module.c:361-397 | at any point of any run every row of a successfully read segment holds the value read for its address, and every other cell is unchanged |
| PoolCache.DeliveredIsDevices | src/inverter_module.c:373-391 | if the line answers the frame that was sent, what a successful segment read delivers is the device's registers at the rows' addresses |
| PoolCache.CacheHoldsDeviceValues | src/inverter_module.c:361-397 | every row of a successfully read segment caches the value the device had at its address when this scan read it, if each frame is answered by the reply it asks for, an exception, too few bytes or a copy with detectable damage |
| PoolCache.PoolHoldsOnlyDeviceValues | src/inverter_module.c:361-397 | over any number of scans and reconnects a pool cell holds its initial value or one the device had at the address of a row kept there, whatever detectable damage replies suffer |
| PoolCache.DeliveredExactly | src/inverter_module.c:376-391 | a segment delivers given registers exactly when the line begins with the reply encoding them |
| CommandQueue.Queue.Push | src/inverter_module.c:110-136 | refused exactly when the count is outside 1..123 or sixteen commands are pending; otherwise appended, leftovers of the slot invisible |
| CommandQueue.Queue.Pop | src/inverter_module.c:142-157 | returns and removes the oldest command, nothing exactly when empty |
| UnitModel.CommandDecodes | src/inverter_module.c:204-236 | one register goes out as FC06 unless FC16 is forced, several as FC16, several under forced FC06 not at all; a server reads back the address and values |
| UnitModel.RunKeepsInv | src/inverter_module.c:328-502 | the unit's invariant holds after every interleaving of pushes, inits, pops, reads and errors; every probe frame decodes to a read of the first row |
| UnitModel.CommandsAreFifo | src/inverter_module.c:339-347 | accepted pushes equal popped commands followed by the queue, through reconnects, and each popped command sends exactly its frame |
| UnitModel.FailureCounter | src/inverter_module.c:376-392 | while the unit is up the port is open and CONNECTED and the counter is the number of trailing failed reads since the last init; failure is at exactly 5 |
| UnitModel.TrailingMeaning | src/inverter_module.c:376-390 | the counted outcomes are the failures after the last success |
| UnitModel.ScanIssuesPartition | src/inverter_module.c:358-402 | the FC03 frames a scan has put on the wire decode at a server to the requests for a prefix of the optimal partition, for all of it when the scan completes |
| UnitModel.OneRequestPerBatch | src/inverter_module.c:373-377 | with a chunk of at most 125 the k-th request names the unit, the first device address and the length of the k-th batch |
| UnitAnswers.InitDecides | src/inverter_module.c:257-311 | a closed unit comes up exactly when the port opens and the bytes answering the probe begin with a one-register reply of this unit; otherwise the port stays closed |
| UnitAnswers.SegmentDecides | src/inverter_module.c:376-392 | a segment read clears the counter exactly when the bytes begin with this unit's reply for the segment's length, and otherwise raises it and leaves the pool alone |
| UnitAnswers.WrittenExactly | src/inverter_module.c:204-247 | a write succeeds exactly on a frame of this unit with code 6 (one register, FC16 not forced) or 16 (otherwise), never for several registers under forced FC06 |
| UnitRuns.Pushes | src/inverter_module.c:110-136 | pushes of the other thread are applied one by one in order, between any two actions |
| UnitRuns.DrainRun | src/inverter_module.c:339-347 | draining with pushes in between is a run of the model and ends with an empty queue, ready to scan |
| UnitRuns.ScanRun | src/inverter_module.c:358-402 | a scan is a run of the model and ends by returning 0 or at the fifth failure |
| UnitRuns.CyclesRun | src/inverter_module.c:490-496 | process_callback is called as often as asked unless one call fails |
| UnitRuns.ThreadRun | src/inverter_module.c:476-502 | the thread loop is a run of the model for any environment; it attempts to connect once per turn and leaves only a live connection |
| InverterUnit.CmdPush | src/inverter_module.c:618-633 | a push by unit id is refused exactly when the count is out of range, no unit has the id or its sixteen slots are taken; only the first unit with the id performs the push action |
| InverterUnit.UnitFromUid | src/inverter_module.c:171-180 | the first unit with the id, or none |
| InverterUnit.Unit.CmdPush | src/inverter_module.c:622-632 | one push action of the model on this unit, and exactly when it is refused |
| InverterUnit.Unit.OpenAndProbe | src/inverter_module.c:280-303 | ready exactly when the port opened and a device answered the read of the first row; the frame the probe sent; otherwise the port is closed again |
| InverterUnit.Unit.InitCallback | src/inverter_module.c:257-311 | 0 exactly when a device answers the probe; then the counter is reset and the state CONNECTED; otherwise the port is closed and only the attempt recorded |
| InverterUnit.Unit.WriteRegisters | src/inverter_module.c:204-247 | what goes on the wire for mode and count, and 0 exactly when the acknowledgement with the right function code arrives |
| InverterUnit.Unit.DrainTurn | src/inverter_module.c:341-347 | one pop and write, or the end of the drain |
| InverterUnit.Unit.Request | src/inverter_module.c:373-377 | the FC03 frame sent for a run of rows asks for exactly its addresses |
| InverterUnit.Unit.Account | src/inverter_module.c:379-392 | values to the pool and the counter cleared on success, the counter up and -1 at the threshold on failure |
| InverterUnit.Unit.ReadSegment | src/inverter_module.c:373-392 | one segment read of the model: its frame on the wire, values to the pool or the counter up, and -1 at the threshold |
| InverterUnit.Unit.Scan | src/inverter_module.c:356-402 | the one-pass loop over the table performs exactly the batches of the model |
| InverterUnit.Unit.ProcessCallback | src/inverter_module.c:328-402 | -1 exactly when five reads in a row have failed, possibly across scans |
| InverterUnit.Unit.ErrorCallback | src/inverter_module.c:411-435 | port closed, counter zero, DISCONNECTED, queue kept |
| InverterUnit.Unit.RunThread | src/inverter_module.c:484-502 | the nested loops perform exactly the thread run of the model |
| LineReceiver.Receiver.Receive | lib/cmos/cmos_sub.c:463-492 | one recv of any size has the effect of feeding its bytes one at a time |
| LineReceiver.Receiver.SplitBuffer | lib/cmos/cmos_sub.c:476-486 | the lines handed on and where the unfinished rest begins |
| LineReceiver.Receiver.Room | lib/cmos/cmos_sub.c:463-464 | the space offered to recv is always positive |
| LineReceiver.Receiver.ReceiveStream | lib/cmos/cmos_sub.c:457-493 | lines and remaining bytes of a stream do not depend on how recv cuts it |
| LineReceiver.StreamDelivers | lib/cmos/cmos_sub.c:476-492 | for every stream the lines handed on are its newline-terminated lines in order, each short of the full buffers dropped and cut to 511 bytes, and the buffer holds what is left of the rest |
| LineReceiver.SplitIsUnique | lib/cmos/cmos_sub.c:476-486 | a stream has only one split into newline-terminated lines and a rest |
| LineReceiver.DeliveredTail | lib/cmos/cmos_sub.c:477-492 | a line arrives as the first 511 bytes of what stands after the last full buffer that was dropped |
| LineReceiver.DeliveredWhole | lib/cmos/cmos_sub.c:477-492 | a line arrives as its own first 511 bytes exactly when it has at most 2047 bytes or what stands after the dropped buffers begins with the same 511 bytes |
| CmosText.HandleLine | lib/cmos/cmos_sub.c:285-332 | the callback made for a line, or none |
| CmosText.StrtokMeaning | lib/cmos/cmos_sub.c:288-291 | strtok takes the first stretch without delimiters, consumes one delimiter, and finds nothing exactly when only delimiters are left |
| CmosText.ParseData | lib/cmos/cmos_sub.c:307-319 | the token parser gives back exactly the published fields |
| CmosText.PublishSubscribe | lib/cmos/cmos_sub.c:288-331 | the callback is made exactly when topic and filters match, with the published value under a key filter and the whole data text otherwise |
| CmosText.WordsDelivered | lib/cmos/cmos_sub.c:288-331 | for a message of any words: the last word with a label counts, every filter set must equal its labelled word, a key filter gets the value word |
| CmosText.BareValue | lib/cmos/cmos_pub.c:152-160 | an unlabelled value reaches unfiltered subscribers unchanged, an empty one nobody, and one without = no subscriber with a filter |
| CmosText.OtherLineIgnored | lib/cmos/cmos_sub.c:288-289 | a line whose first word is not MSG makes no callback |
| CmosText.DataText | lib/cmos/cmos_pub.c:143-157 | the data text in full for every choice of fields: labels, order, single spaces, or the bare value |
| CmosPublisher.FormatData | lib/cmos/cmos_pub.c:143-157 | filling the buffer through the moving position yields the labelled fields separated by spaces |
| CmosPublisher.Publisher.Join | lib/cmos/cmos_pub.c:126-137 | an accepted socket is appended, or closed when 512 are connected |
| CmosPublisher.Publisher.SendAll | lib/cmos/cmos_pub.c:163-177 | the line is sent to each subscriber once in order; the survivors become the prefix, every later slot is -1 |
| CmosPublisher.Publisher.Publish | lib/cmos/cmos_pub.c:140-179 | each subscriber is sent exactly the message line and the array is compacted |
| CmosPublisher.SurvivorsInOrder | lib/cmos/cmos_pub.c:169-176 | each subscriber keeps its place relative to the others, among the kept or among the closed |
| CmosParse.GetField | lib/cmos/cmos_util.h:59-80 | the text after the first occurrence of name= up to a stop character or the buffer's end |
| CmosParse.TakenMeaning | lib/cmos/cmos_util.h:76-78 | the text taken is the longest beginning without space, CR, LF and NUL that fits |
| CmosParse.Parse | lib/cmos/cmos_util.h:83-94 | type, key and value within their buffers, and failure exactly when the type is empty |
| CmosParse.SearchFinds | lib/cmos/cmos_util.h:59-93 | what cmos_parse finds for each field of a published text with a label: the text after the first name= inside a field before it (inside any field, if it is not published) if there is one, the field itself otherwise |
| CmosParse.ParsersAgreeExactly | lib/cmos/cmos_util.h:59-93 | on every published text with a label the two parsers agree on type, key or value, up to the buffer size, if and only if no field before it (no field at all, if it is not published) holds name=, or what follows it there reads the same |
| CmosParse.ParsersAgree | lib/cmos/cmos_util.h:59-93 | on published text with type, key and value they agree on all three whenever state, type and key are free of =, whatever the value holds |
| CmosParse.EqualsSignConfuses | lib/cmos/cmos_util.h:71-74 | with a state reading type=x the second parser finds x instead of the type |
| CmosEndToEnd.EveryMessageArrives | lib/cmos/cmos_sub.c:457-493 | from publish to callback through any fragmentation: exactly the matching messages, in order |
| CmosEndToEnd.Subscribe | lib/cmos/cmos_sub.c:463-486 | receiving in pieces and handling line by line makes exactly those callbacks |
| ConnectionTable.Table.AddPub | lib/cmos/cmos_sub.c:145-188 | the entry that is filled, the result, and pub_count still equal to the number of active entries |
| ConnectionTable.AddMeaning | lib/cmos/cmos_sub.c:145-188 | an add does nothing for a connected publisher, otherwise fills the lowest inactive entry when the connection is made; it fails exactly when neither applies |
| ConnectionTable.Table.CloseConn | lib/cmos/cmos_sub.c:112-127 | the entry is fully reset and the count adjusted; an invalid index changes nothing |
| ConnectionTable.Table.ActiveCount | lib/cmos/cmos_sub.c:190-196 | the counted active entries equal pub_count |
| ConnectionTable.CountMeaning | lib/cmos/cmos_sub.c:190-196 | the count is the number of active entries |
| ConnectionTable.Table.Lookup | lib/cmos/cmos_sub.c:244-267 | every PUBINFO line before END is added; success exactly when END came and one add succeeded |
| ConnectionTable.NodeOfWords | lib/cmos/cmos_sub.c:256-262 | the publisher of a PUBINFO line is its fifth word; with fewer words there is none |
| ConnectionTable.NodeOfLine | lib/cmos/cmos_sub.c:256-262 | of PUBINFO topic ip port node it is node |
| ConnectionTable.LookupReply | lib/cmos/cmos_sub.c:253-262 | a reply of PUBINFO lines adds each publisher by its own name in order; success exactly when END comes and an add succeeded; nothing after END counts |
| ConnectionTable.AddKeepsUnique | lib/cmos/cmos_sub.c:145-179 | entries stay distinct exactly unless a name over 63 characters fills a slot while its cut form is already there |
| ConnectionTable.LongNameTwice | lib/cmos/cmos_sub.c:145-179 | from an empty table two adds of one long name fill two slots with the same entry |
| ConnectionTable.RunKeepsUnique | lib/cmos/cmos_sub.c:99-188 | through every sequence of adds, closes and lookups with names of at most 63 characters no two active entries coincide |
| AlarmEngine.Engine.ApplySticky | lib/alarm/alarm_engine.c:48-61 | the event of a sticky row and its new flag |
| AlarmEngine.Engine.Run | lib/alarm/alarm_engine.c:65-115 | events and states of a pass, row by row, a failed read leaving its row alone |
| AlarmEngine.AlarmTrace | lib/alarm/alarm_engine.c:72-114 | over any passes with any read failures a row's events are the edges of its condition, or the changes of its value from 0, on the values read, and its state is that of the last good read |
| AlarmEngine.HoldsMeaning | lib/alarm/alarm_engine.c:18-30 | a bitmask row alarms exactly when every bit of its mask is set, a range row exactly outside its limits |
| AlarmEngine.FirstTrigger | lib/alarm/alarm_engine.c:48-61 | no event before the first alarming read, and TRIGGER with its value then |
| AlarmEngine.PassInOrder | lib/alarm/alarm_engine.c:72-114 | the events of a pass come in row order, at most one per row |
| AlarmEngine.EdgesAlternate | lib/alarm/alarm_engine.c:54-60 | the events of a sticky row alternate TRIGGER and CLEAR, starting with TRIGGER |
| AlarmEngine.RowsIndependent | lib/alarm/alarm_engine.c:72-114 | a row's trace and its state depend on its own reads only |

## Left out

- Serial port set-up, sockets, epoll, select and sleeping: replaced by oracles. A send transmits the whole line or fails, since any positive result counts as success.
- Threads and locks: each locked section is one atomic step.
- The running flag and the final disconnect of the polling thread: the thread run ends where the flag is seen.
- Several units sharing the pool: only the scan of one unit writes the pool in the unit model.
- RegisterMap.CheckAccessRange: does not model the call that never returns, a range ending at 0xFFFF under a table that maps and permits all 65536 addresses.
- CmosText.HandleLine: strtok is a function on strings here; that it writes terminators into the caller's line is not captured.
- CmosPublisher.FormatData: does not model data texts of 896 bytes or more, nor a call with all four arguments NULL, which leaves the buffer uninitialised.
- CmosPublisher.Publisher.Publish: does not model data texts of 896 bytes or more, nor a call with all four arguments NULL, which sends an uninitialised buffer.
- ConnectionTable.Table.Lookup: starts from the reply lines; their reassembly follows the scheme of LineReceiver, and sending the request and reconnecting to the master are not modelled.
- cmos_sub_add's copies of topic and filters into fixed arrays: a subscription is given as it is stored.
- The receive buffer inside a connection entry: the entry records how many bytes wait, the buffer itself is modelled in LineReceiver.
- inverter_msg_callback, mode and count checks of the bridge, the concrete register tables, the SQLite alarm manager, JSON configuration and logging: wiring or foreign libraries.
- CmosParse.Parse: does not model value_f and value_i, number conversions by the C library.
