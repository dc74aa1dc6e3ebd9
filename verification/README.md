# LeddarTech Modbus-RTU master driver, modelled in Dafny

This project models the master side of a Modbus-RTU driver that polls a
LeddarTech ranging sensor over a serial line, in three layers:

- **Modbus engine** (`Modbus.cpp`):
  - the table-driven CRC-16 of section 6.2.2 of the Modbus over Serial Line Specification V1.02;
  - building a frame and sending it;
  - classifying a reply: read error, timeout, bad CRC, protocol error or payload;
  - the connect/disconnect state machine over `gHandle`, `gAddress` and `gLastFunction`;
  - the register helpers for functions 0x04, 0x03 and 0x06 (sections 6.4, 6.3 and 6.6 of the Modbus Application Protocol Specification V1.1b3), plus Report Server ID (0x11, section 6.13) for identification.
- **LeddarOne decoder** (`Leddar.cpp`):
  - the identification check;
  - the decode of ten input registers into a timestamp, a temperature and at most three detections;
  - parameter access;
  - saving the configuration.
- **RS-485 demo decoder** (`SDK/Rs485Demo/Leddar.c`):
  - the configuration level taken from the identification;
  - the decode of the custom function 0x41 reply: a clamped count, five-byte records and an optional trailer;
  - range-checked parameter access;
  - the signed threshold.

The file-level statics become a `Modbus.Session` value. Every operation takes
a session and returns an `Outcome`: the new session, a `Result` (success or
one of the `Definitions.h` errors) and the frames handed to the serial write.
The serial port is not modelled. An operation receives, as plain inputs:

- the count the write reported (`written`);
- what the read produced: `ReadFailed`, or up to 256 bytes;
- for a connect, whether the port opened.

Floating-point results (`/256.f`, `/1000.f`, ...) are kept exact as
`Wire.Fixed(raw, scale)`.

Modules, one per file:

- `Status`: error codes and `Result`.
- `Wire`: byte packing, signed reinterpretation, and the `Overlay` view of a receive buffer.
- `Crc`: CRC-16.
- `Modbus`: framing, send/receive and connect.
- `Registers`: the register helpers.
- `LeddarOne`: the `Leddar.cpp` layer.
- `LeddarSdk`: the demo's `Leddar.c` layer.

The CRC is stated twice:

- `Crc.Compute` and `Crc.Checksum` follow the two 256-entry tables exactly.
- `Crc.Reflected` is the bitwise algorithm of the Modbus specification, with polynomial 0xA001.
- `Crc.TablesArePolynomial` proves every table entry from the polynomial, and `Crc.ComputeIsReflected` proves the two CRCs equal.
- The frame layer is stated over the bitwise form.

The source reads its receive buffers without checking the reply's length.
The main operations model the evident intent: a short reply is a protocol
error, and a missing trailer reads as zero. Separate `...AsWritten` members
model the code as written, over the buffer contents it actually reads (see
"## Findings").

Points where the code behaves differently from what its names and comments
suggest; the model follows the code:

- **Receive errors keep the pending function.** A failed receive does not reset `gLastFunction`. Only an accepted reply does.
- **A receive with nothing pending still reads.** It reads the port and compares the reply against function 0, so a real reply is refused as a protocol error (`Modbus.NoReplyWithoutRequest`), while a frame for function 0 is accepted (`Modbus.FunctionZeroAcceptedWithoutRequest`). It is not rejected before the read.
- **A second send is not rejected.** It replaces the pending function (`Modbus.SecondSendReplacesPending`).
- **The demo's `LeddarGetResults` returns `LT_SUCCESS`.** Its comment says it returns the number of detections.
- **`LeddarWriteConfiguration` returns the receive result.** That is the payload length, not `LT_SUCCESS`.
- **Register 3 is the detection count.** The block of ten registers `0,0,512,0,0,1,1000,256,0,0` therefore holds no detection, although registers 5 to 7 are non-zero (`LeddarOne.ZeroCountExample`).

## Model

| member | source | states |
|---|---|---|
| `Status.CodesAreDistinct` | Definitions.h:21-26 | the five error codes are pairwise distinct and all below `LT_SUCCESS` |
| `Wire.FromBigEndian` | Modbus.cpp:323 | `hi*256 + lo` is the register whose high byte is hi and low byte lo |
| `Wire.BigEndianRoundTrip` | Modbus.cpp:306-309 | splitting a 16-bit value with `>> 8` and `& 0xFF` and joining the bytes again gives it back |
| `Wire.LittleEndian16` | SDK/Rs485Demo/Leddar.c:147-148 | `b0 + b1*256` is the 16-bit value with low byte b0 and high byte b1 |
| `Wire.LittleEndian32` | SDK/Rs485Demo/Leddar.c:158-161 | the four-byte little-endian sum has b0, b1 as its low half and b2, b3 as its high half |
| `Wire.HalvesOfWord` | Leddar.cpp:103 | `lo + hi*65536` has lo as low half and hi as high half |
| `Wire.LittleEndian16RoundTrip` | SDK/Rs485Demo/Leddar.c:147-148 | a 16-bit value sent low byte first is read back unchanged |
| `Wire.LittleEndian32RoundTrip` | SDK/Rs485Demo/Leddar.c:158-161 | a 32-bit value sent low byte first is read back unchanged |
| `Wire.Signed16` | SDK/Rs485Demo/Leddar.c:272 | `(Lt16)v` lies in -32768..32767 and has the same 16-bit pattern as v |
| `Wire.SignedRoundTrip` | SDK/Rs485Demo/Leddar.c:272 | the cast pairs every 16-bit pattern with exactly one number in -32768..32767 |
| `Crc.Checksum` | Modbus.cpp:90-112 | starting from lo = hi = 0xFF over `length` bytes; check mode leaves the buffer alone and is true exactly when the two following bytes are the frame's CRC; generate mode returns true and writes lo then hi after the data, nothing else changing |
| `Crc.TablesArePolynomial` | Modbus.cpp:25-69 | every entry of CRC_HI/CRC_LO is the low/high byte of eight reflected 0xA001 shift steps of its index |
| `Crc.UpdateIsShiftByte` | Modbus.cpp:99-101 | one table update `Crc.Update` (index lo XOR byte, new lo = hi XOR CRC_HI[index], new hi = CRC_LO[index]) equals XOR-ing the byte into the 16-bit CRC and shifting it eight times |
| `Crc.ComputeIsReflected` | Modbus.cpp:93-102 | the table loop `Crc.Compute`, from lo = hi = 0xFF, equals the bitwise CRC-16/MODBUS for every byte sequence |
| `Crc.DetectsOneByteChange` | Modbus.cpp:93-102 | two byte strings of the same length that differ in exactly one byte have different CRCs |
| `Crc.CheckDetectsOneByteChange` | Modbus.cpp:104-107 | a frame that passes the check fails it once any one of its bytes, data or check byte, is changed |
| `Crc.KnownVector` | Modbus.cpp:93-102 | the CRC of `02 07` is lo 0x41, hi 0x12 |
| `Crc.KnownFrame` | Modbus.cpp:104-111 | appending the CRC to `02 07` gives `02 07 41 12` |
| `Crc.ComputedCheckword` | Modbus.cpp:104-111 | the two bytes appended by generate mode are the table CRC's lo then hi |
| `Crc.MatchesIffAppended` | Modbus.cpp:104-107 | a frame passes the check exactly when it is its data with that data's CRC appended |
| `Crc.AppendThenMatch` | Modbus.cpp:104-111 | generate then check always succeeds |
| `Crc.MatchesPrefix` | Modbus.cpp:104-107 | checking a buffer prefix compares exactly the two bytes after the data with the CRC |
| `Modbus.Frame` | Modbus.cpp:154-163 | the frame is address, function, payload, CRC; its length is payload + 4 and it passes the CRC check |
| `Modbus.MatchingIsFrame` | Modbus.cpp:207-215 | every CRC-correct read of at least 4 bytes is the frame of its own header and payload |
| `Modbus.FrameInjective` | Modbus.cpp:154-163 | a frame determines its address, function and payload |
| `Modbus.Send` | Modbus.cpp:141-172 | a payload over 252 bytes or a function outside 1..127 is InvalidArgument with nothing written and the session unchanged; otherwise one frame is written, success exactly when the port reports the frame length, only then is the function recorded as pending, and a short write is LT_ERROR |
| `Modbus.Receive` | Modbus.cpp:192-227 | each error exactly in its case, in the source's order (failed read, fewer than 4 bytes, bad CRC, wrong address or function); success exactly on a valid frame from the sensor for the pending function, yielding its payload and clearing the pending function; no error path changes the session |
| `Modbus.ReceiveFrame` | Modbus.cpp:209-217 | the sensor's frame for the pending function yields exactly its payload (an empty one included) |
| `Modbus.CorruptedFrameIsBadCrc` | Modbus.cpp:205-224 | a frame with one byte changed in transit is refused as LT_BAD_CRC, whatever the session |
| `Modbus.NoReplyWithoutRequest` | Modbus.cpp:209-220 | with nothing pending, a valid frame for any function other than 0 is a protocol error |
| `Modbus.FunctionZeroAcceptedWithoutRequest` | Modbus.cpp:209-220 | with nothing pending, a valid frame for function 0 matches the pending 0 and its payload is returned |
| `Modbus.SecondSendReplacesPending` | Modbus.cpp:165-169 | a second successful send replaces the pending function, and the first request's reply is then refused |
| `Modbus.Transact` | Modbus.cpp:141-227 | a send followed by a receive: an invalid request or a short write returns its error with the session unchanged; otherwise the receive's result and session |
| `Modbus.TransactFrame` | Modbus.cpp:165-217 | a request written whole and answered by the sensor's frame yields that payload with nothing pending |
| `Modbus.Connect` | Modbus.cpp:245-272 | connected exactly on success; success exactly when the port opens, the Report Server ID request is written whole and a valid reply comes back, leaving the address set and nothing pending; a failed open returns its error; a short write is LT_ERROR; a bad reply returns the receive's error with 0x11 still pending; every failure closes the port |
| `Modbus.Disconnect` | Modbus.cpp:280-285 | the port is closed and nothing else changes |
| `Modbus.ConnectedUntilDisconnect` | Modbus.cpp:115-127 | `ModbusConnected` holds after a connect exactly when it succeeded, is left as it was by every send and receive, and is false after a disconnect |
| `Modbus.SendAsWritten` | Modbus.cpp:147-171 | the frame length is kept in a byte, so the length written and compared is (payload + 4) mod 256; a mismatch is LT_ERROR with the session unchanged, and only a match records the function as pending |
| `Modbus.SendAsWrittenAgrees` | Modbus.cpp:161-171 | for payloads under 252 bytes the byte-length send is the corrected send |
| `Modbus.FullPayloadSendsNothing` | Modbus.cpp:161-171 | a 252-byte payload writes 0 bytes and reports success with the function pending; the corrected send reports LT_ERROR for the same port |
| `Registers.RequestFields` | Modbus.cpp:306-309 | the 4 request bytes are the address, then the count or value, each big-endian |
| `Registers.DecodeReply` | Modbus.cpp:319-325 | a reply decodes exactly when it holds the byte count and 2 bytes per register; the result has one value per register; a short reply is a protocol error |
| `Registers.EncodeWords` | Modbus.cpp:321-324 | each register value becomes 2 big-endian bytes in order |
| `Registers.DecodeEncode` | Modbus.cpp:321-324 | register i is payload bytes 2i+1 and 2i+2 (skipping the byte count), so decoding a sensor's reply returns its registers |
| `Registers.EncodeDecodeReply` | Modbus.cpp:321-324 | whatever the byte count says, the values of a successful decode re-encode, big-endian, to exactly payload bytes 1 to 2·count: register i is bytes 2i+1 and 2i+2 |
| `Registers.DecodeReadsOnlyReply` | Modbus.cpp:321-324 | the decoded registers depend only on the reply bytes that hold them |
| `Registers.SingleRegisterExample` | Modbus.cpp:363 | reply bytes 0x01 0x2C decode to 300 |
| `Registers.ReadInputRegisters` | Modbus.cpp:300-330 | one function-4 request for the address and count; a short write is LT_ERROR; receive errors are returned unchanged; a valid function-4 reply too short for the registers is LT_PROTOCOL_ERROR with nothing pending; success exactly on a valid function-4 reply holding all the registers, with nothing pending |
| `Registers.ReadInputRegistersRoundTrip` | Modbus.cpp:300-330 | a sensor answering with registers `values` makes the read return exactly `values` |
| `Registers.ReadHoldingRegister` | Modbus.cpp:344-369 | one function-3 request for count 1; a short write is LT_ERROR; receive errors are returned unchanged; a valid function-3 reply under 3 payload bytes is LT_PROTOCOL_ERROR with nothing pending; success exactly on a valid function-3 reply of at least 3 payload bytes, returning payload bytes 1 and 2 big-endian |
| `Registers.ReadHoldingRegisterRoundTrip` | Modbus.cpp:344-369 | a sensor holding `value` makes the read return it |
| `Registers.WriteRegister` | Modbus.cpp:382-406 | one function-6 request carrying address and value; a short write is LT_ERROR with the session unchanged; a bad reply returns the receive's error with function 6 still pending; success exactly on a valid function-6 reply whatever its payload, with nothing pending |
| `Registers.WriteRegisterAcceptsAnyReply` | Modbus.cpp:396-403 | the echo and an empty reply both count as success |
| `Registers.WriteRegisterWrongFunction` | Modbus.cpp:209-220 | a reply for another function is a protocol error |
| `Registers.DecodeAsWritten` | Modbus.cpp:319-325 | the loop of the source over the whole receive buffer yields `count` values |
| `Registers.ReadInputRegistersAsWritten` | Modbus.cpp:300-330 | the source's read succeeds on any valid reply, however short |
| `Registers.DecodeAsWrittenAgrees` | Modbus.cpp:321-324 | on replies holding all registers the source's decode equals the corrected one |
| `Registers.EmptyReplyEchoesRequest` | Modbus.cpp:321-324 | an empty reply to the read of 10 registers from 20 yields register 0 = 5120, taken from the request bytes still in the buffer; the corrected read is a protocol error |
| `Registers.ReadHoldingRegisterAsWritten` | Modbus.cpp:361-365 | the source's read succeeds on any valid reply, however short |
| `Registers.EmptyReplyEchoesRegisterNumber` | Modbus.cpp:361-365 | an empty reply yields 256 times the low byte of the register address; the corrected read is a protocol error |
| `LeddarOne.Decode` | Leddar.cpp:103-111 | the timestamp has register 0 as low and register 1 as high half; the temperature is register 2 over 256; the detection count is min(register 3, 3); detection i is register 2i+4 over 1000 and register 2i+5 over 256 |
| `LeddarOne.DecodeEncode` | Leddar.cpp:103-111 | timestamp r0 + r1·65536, temperature r2/256, detection i distance r[2i+4]/1000 and amplitude r[2i+5]/256: decoding a sensor's registers returns its acquisition |
| `LeddarOne.DecodeExample` | Leddar.cpp:103-111 | registers 0x5678, 0x1234, 6400, 1, 1500, 512 decode to timestamp 0x12345678, 25 degrees and one detection at 1.5 with amplitude 2 |
| `LeddarOne.ZeroCountExample` | Leddar.cpp:105-107 | a count register of 0 gives no detection whatever registers 4..9 hold |
| `LeddarOne.GetResults` | Leddar.cpp:91-115 | exactly one read of 10 input registers from 20; its error and session are returned unchanged; a success is the decode of the registers read, a well-formed acquisition |
| `LeddarOne.GetResultsRoundTrip` | Leddar.cpp:91-115 | a sensor holding an acquisition makes GetResults return it |
| `LeddarOne.Connect` | Leddar.cpp:33-67 | connected exactly on success; a failed Modbus connect is returned as it is; after it, success exactly when a second identification is written whole and answered with bytes 50 and 51 equal to 10 and 0; a short write and an unknown device are LT_ERROR; a bad reply returns the receive's error; every failure after the Modbus connect closes the port |
| `LeddarOne.ConnectLeddarOne` | Leddar.cpp:33-56 | a sensor identifying as a LeddarOne is connected with nothing pending |
| `LeddarOne.Disconnect` | Leddar.cpp:75-79 | the port is closed and nothing else changes |
| `LeddarOne.GetParameter` | Leddar.cpp:131-135 | any register number is forwarded to the holding-register read: never InvalidArgument, one request for that register; a short write is LT_ERROR, receive errors are returned unchanged, a reply under 3 payload bytes is LT_PROTOCOL_ERROR; success exactly on a valid reply of at least 3 payload bytes, returning its first register with nothing pending |
| `LeddarOne.GetParameterRoundTrip` | Leddar.cpp:131-135 | a sensor holding v in any parameter makes GetParameter return v with nothing pending |
| `LeddarOne.SetParameter` | Leddar.cpp:150-154 | any register number is forwarded to the register write: never InvalidArgument, one request for that register and value; a short write is LT_ERROR, receive errors are returned unchanged; success exactly on a whole write and a valid function-6 reply, with nothing pending |
| `LeddarOne.SetParameterRoundTrip` | Leddar.cpp:150-154 | a sensor echoing the write makes SetParameter succeed with nothing pending |
| `LeddarOne.WriteConfiguration` | Leddar.cpp:165-171 | one 0x46 frame with no payload; the send result is ignored, so the receive checks against 0x46 only when the write went out whole; the result is the reply's payload length, and an error is that receive's error, returned unchanged |
| `LeddarOne.WriteConfigurationRoundTrip` | Leddar.cpp:165-171 | a whole write answered by the sensor's 0x46 frame returns that frame's payload length with nothing pending |
| `LeddarOne.WriteConfigurationAcceptsEarlierReply` | Leddar.cpp:168-170 | after a failed write, a reply to the request pending before is returned as success |
| `LeddarOne.ConnectAsWritten` | Leddar.cpp:46-60 | the source's connect sends the same frames and succeeds exactly after a successful Modbus connect and a valid identification reply of any length whose `lId` buffer, stale bytes past the payload included, holds 10 and 0 at 50 and 51; up to that check it is the corrected connect |
| `LeddarOne.IdentificationAgrees` | Leddar.cpp:53 | on identification payloads of at least 52 bytes the source's check equals the corrected one |
| `LeddarOne.EmptyIdentificationAccepted` | Leddar.cpp:46-56 | an empty identification is accepted when the stale buffer holds 10 and 0 at 50 and 51; the corrected connect refuses it |
| `LeddarSdk.LevelOf` | SDK/Rs485Demo/Leddar.c:57-71 | a level is found exactly when the identification reaches byte 150 and that byte is 7, 8 or 9, and the level's model byte is that byte |
| `LeddarSdk.LevelOfIffModelByte` | SDK/Rs485Demo/Leddar.c:57-71 | model byte 9 gives full, 8 simple and 7 no configuration, and nothing else gives a level |
| `LeddarSdk.UnknownModel` | SDK/Rs485Demo/Leddar.c:73-74 | any other model byte is unrecognised |
| `LeddarSdk.Connect` | SDK/Rs485Demo/Leddar.c:36-82 | connected exactly on success; success exactly when the Modbus connect succeeds and the identification is written whole and names a known model, whose level is then set; a short write and an unknown model are LT_ERROR; a bad reply returns the receive's error; any failure leaves the level as it was and, after the Modbus connect, closes the port |
| `LeddarSdk.ConnectKnownModel` | SDK/Rs485Demo/Leddar.c:41-71 | a sensor with a known model byte is connected at that model's level |
| `LeddarSdk.Disconnect` | SDK/Rs485Demo/Leddar.c:90-95 | the port is closed and the configuration level is always LEDDAR_NO_CONFIGURATION |
| `LeddarSdk.ConfigurationLevel` | SDK/Rs485Demo/Leddar.c:106-110 | the level is one of the constants 0, 1, 2, namely the level's model byte less 7 |
| `LeddarSdk.Level.Code` | SDK/Rs485Demo/Leddar.h:24-26 | no configuration is 0, simple 1 and full 2, and no other value occurs |
| `LeddarSdk.ConnectSetsLevel` | SDK/Rs485Demo/Leddar.c:55-71 | after a successful connect the level reported is the identification's byte 150 less 7: 2 for 9, 1 for 8, 0 for 7 |
| `LeddarSdk.DecodeResults` | SDK/Rs485Demo/Leddar.c:143-168 | a reply holding all announced records decodes, with min(byte 0, 48) detections; a shorter one is a protocol error; with no whole trailer at byte0·5 + 1, timestamp and states are 0 |
| `LeddarSdk.DecodeRecord` | SDK/Rs485Demo/Leddar.c:147-150 | a record's distance has bytes 0 and 1 as low and high byte over 100, its amplitude bytes 2 and 3 over 64, and byte 4 splits into segment (high nibble) and flags (low nibble) |
| `LeddarSdk.DecodeRecordBytes` | SDK/Rs485Demo/Leddar.c:147-150 | distance (b0 + 256·b1)/100, amplitude (b2 + 256·b3)/64, segment b4 >> 4, flags b4 & 0xF: a record decodes to the detection it encodes |
| `LeddarSdk.Records` | SDK/Rs485Demo/Leddar.c:145-151 | record i occupies bytes 5i..5i+4 and decodes to detection i |
| `LeddarSdk.EncodeResults` | SDK/Rs485Demo/Leddar.c:143-162 | a sensor's 0x41 payload fits in 252 bytes and starts with the count |
| `LeddarSdk.DecodeEncodeResults` | SDK/Rs485Demo/Leddar.c:143-168 | with or without the trailer (4 bytes timestamp, 2 bytes states, little-endian), decoding a sensor's payload returns its results |
| `LeddarSdk.EncodeDecodeResults` | SDK/Rs485Demo/Leddar.c:143-162 | for every payload that decodes (count byte above 48 and bytes after the trailer included), the results are well formed, their records re-encode to bytes 1 to 5·min(byte 0, 48), detection i from bytes 1+5i to 5+5i, and when the whole trailer is present at the unclamped byte0·5 + 1 the timestamp and states re-encode to its six bytes |
| `LeddarSdk.GetResults` | SDK/Rs485Demo/Leddar.c:127-175 | one 0x41 frame with no payload; a short write or a receive error is returned unchanged; an empty reply is success without results; a longer reply succeeds exactly when its payload decodes, with those results, and otherwise returns the decode's error |
| `LeddarSdk.GetResultsRoundTrip` | SDK/Rs485Demo/Leddar.c:127-175 | a sensor answering with the payload for some results makes GetResults return them |
| `LeddarSdk.GetParameter` | SDK/Rs485Demo/Leddar.c:217-226 | a number above 8 is InvalidArgument with no frame and the session unchanged; otherwise one function-3 request for that number, a short write is LT_ERROR, receive errors are returned unchanged, a reply under 3 payload bytes is LT_PROTOCOL_ERROR, and success, exactly on a valid reply, returns its first register with nothing pending |
| `LeddarSdk.GetParameterRoundTrip` | SDK/Rs485Demo/Leddar.c:217-226 | a sensor holding v in a parameter numbered up to 8 makes GetParameter return v with nothing pending |
| `LeddarSdk.SetParameter` | SDK/Rs485Demo/Leddar.c:241-250 | a number above 8 is InvalidArgument with no frame and the session unchanged; otherwise one function-6 request, a short write is LT_ERROR, receive errors are returned unchanged, and success, exactly on a whole write and a valid reply, leaves nothing pending |
| `LeddarSdk.SetParameterRoundTrip` | SDK/Rs485Demo/Leddar.c:241-250 | a sensor echoing the write to a parameter numbered up to 8 makes SetParameter succeed with nothing pending |
| `LeddarSdk.GetThreshold` | SDK/Rs485Demo/Leddar.c:263-276 | reads holding register 4; a short write is LT_ERROR, receive errors are returned unchanged, a reply under 3 payload bytes is LT_PROTOCOL_ERROR; on success the result is the register read as a signed 16-bit number, over 256, with nothing pending |
| `LeddarSdk.GetThresholdRoundTrip` | SDK/Rs485Demo/Leddar.c:268-273 | a sensor whose threshold register stores t (negative values included) makes GetThreshold return t/256 |
| `LeddarSdk.ThresholdExample` | SDK/Rs485Demo/Leddar.c:272 | the pattern 0xFF00 is the threshold -1 |
| `LeddarSdk.LevelOfAsWritten` | SDK/Rs485Demo/Leddar.c:49-71 | a level is found exactly when byte 150 of the whole `lId` buffer, past the payload included, is 7, 8 or 9 |
| `LeddarSdk.LevelOfAgrees` | SDK/Rs485Demo/Leddar.c:57-71 | on identification payloads longer than 150 bytes the source's check equals the corrected one |
| `LeddarSdk.ShortIdentificationTakesStaleModel` | SDK/Rs485Demo/Leddar.c:49-61 | a 52-byte identification over a stale 9 at byte 150 is taken for a full-configuration module; the corrected check finds no model |
| `LeddarSdk.DecodeResultsAsWritten` | SDK/Rs485Demo/Leddar.c:143-168 | the source's decode over `lBuffer` and the bytes after it yields min(byte 0, 48) detections |
| `LeddarSdk.GetResultsAsWritten` | SDK/Rs485Demo/Leddar.c:127-175 | the source's GetResults succeeds on any valid reply |
| `LeddarSdk.DecodeResultsAgrees` | SDK/Rs485Demo/Leddar.c:143-168 | when the reply holds its records and either the whole trailer or nothing after the records, the source's decode equals the corrected one |
| `LeddarSdk.MissingRecordReadsStale` | SDK/Rs485Demo/Leddar.c:145-151 | the reply `[1]` yields a detection made of stale buffer bytes; the corrected decode is a protocol error |
| `LeddarSdk.ShortTrailerReadsStale` | SDK/Rs485Demo/Leddar.c:154-162 | a 7-byte reply with one record passes the trailer guard and its timestamp takes three stale bytes; the corrected decode reports 0 |
| `LeddarSdk.TrailerReadsPastBuffer` | SDK/Rs485Demo/Leddar.c:154-162 | a 252-byte reply with count byte 50 passes the guard and its states come from bytes past the end of `lBuffer`; the corrected decode reports 0 |

## Left out

- The serial port, `OS.c`/`OS.h` (open, configure, read with timeout, write, close), is reduced to the inputs each operation receives. This is I/O the model cannot see.
- `CloseSerialPort` on an already closed handle, and the handle a second `ModbusConnect` overwrites without closing, are not modelled. The session only records whether a port is open.
- The menus of `Main.cpp` and `SDK/Rs485Demo/Main.c`, and the platform settings of `UserDefs.h`, are left out. They are user interaction and configuration, not driver logic.
- Float results are exact numerator/divisor pairs (`Wire.Fixed`). IEEE rounding is not modelled.
- `LeddarSetThreshold` is left out: it casts a float to a 16-bit integer.
- `LeddarGetTemperature` is left out: `ModbusReadInputRegister` is not part of this model.
- `LeddarCanConfigure` is left out: it is only declared, with no definition.
- The demo's own Modbus layer is not part of this model. `LeddarSdk` runs over the `Modbus.cpp` engine, on the assumption that the demo's `ModbusConnect`, `ModbusSend`, `ModbusReceive`, `ModbusReadHoldingRegister` and `ModbusWriteRegister` behave as those of `Modbus.cpp`.
- Concurrency: the driver has none. The statics are one session value threaded through the operations.
- The timestamp shifts in both decoders (`lValues[1]<<16`, `lBuffer[i+3]<<24`) overflow a signed `int` for large values. The model takes the value the sum has once stored in the unsigned 32-bit field, which is the exact little-endian or two-half number.
- `Registers.ReadInputRegistersAsWritten`: reads beyond the 252-byte `lPayload`, for counts above 125, are not modelled. The member requires the count to fit the buffer.
- `LeddarSdk.DecodeResultsAsWritten`: memory past `lBuffer` is modelled as 5 more arbitrary bytes, the furthest the trailer read reaches. The stack layout behind it is not modelled.
- `Modbus.Receive`: for a `NULL` buffer the payload is not copied. The model always returns the payload, and `LeddarOne.WriteConfiguration` uses only its length.
- `Crc.Checksum` is the method form of `CRC16`. The frames of `Modbus` are stated with the equivalent bitwise CRC (`Crc.Matches`, `Crc.Append`), joined to the table form by `Crc.ComputedCheckword`.
- The session's `handleValid` does not constrain the `written` count: a send on a closed port succeeds in the model when the port reports the whole frame. What `WriteToSerialPort` does on `LT_INVALID_HANDLE` is operating-system behaviour, outside this model.

## Findings

| source | as written | input that shows it | evidently intended | confidence | as-written member | corrected member |
|---|---|---|---|---|---|---|
| Modbus.cpp:161-165 | the frame length is added into the `LtByte aLength`, so 252 + 4 wraps to 0 | a 252-byte payload: 0 bytes are written and the port's 0 matches, so the send reports success with the function pending | write all 256 bytes, and succeed only if all were written | not executed | `Modbus.FullPayloadSendsNothing` | `Modbus.Send` |
| Modbus.cpp:321-324 | registers are read from `lPayload` for the requested count whatever the reply's length | an empty reply to 10 registers from 20: register 0 reads 5120, from the request bytes still in the buffer | refuse a reply that does not hold all requested registers | not executed | `Registers.EmptyReplyEchoesRequest` | `Registers.ReadInputRegisters` |
| Modbus.cpp:363 | the value is read from `lPayload[1..2]` whatever the reply's length | an empty reply to register `no`: the value is 256 × (`no` & 0xFF) | refuse a reply shorter than 3 payload bytes | not executed | `Registers.EmptyReplyEchoesRegisterNumber` | `Registers.ReadHoldingRegister` |
| Leddar.cpp:53 | bytes 50 and 51 of `lId` are tested whatever the identification's length | an empty identification with 10, 0 left at offsets 50, 51 of the stack buffer connects | require an identification of at least 52 bytes | not executed | `LeddarOne.EmptyIdentificationAccepted` | `LeddarOne.Connect` |
| SDK/Rs485Demo/Leddar.c:57 | byte 150 of `lId` is tested whatever the identification's length | a 52-byte identification over a stale 9 at offset 150 sets full configuration | require an identification of more than 150 bytes | not executed | `LeddarSdk.ShortIdentificationTakesStaleModel` | `LeddarSdk.Connect` |
| SDK/Rs485Demo/Leddar.c:145-151 | the announced records are read whatever the reply's length | the reply `[1]` yields a detection from stale bytes 1..5 | refuse a reply that ends before its records | not executed | `LeddarSdk.MissingRecordReadsStale` | `LeddarSdk.DecodeResults` |
| SDK/Rs485Demo/Leddar.c:156 | the trailer is read when the length exceeds its offset, not when it holds all 6 bytes | a 7-byte reply with count 1 reads three stale bytes; a 252-byte reply with count 50 reads 5 bytes past `lBuffer` | read the trailer only when offset + 6 ≤ length | not executed | `LeddarSdk.TrailerReadsPastBuffer` | `LeddarSdk.DecodeResults` |
