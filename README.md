# EZModbus in Dafny

A verified model of the protocol core of EZModbus, a C++ Modbus RTU/TCP library for FreeRTOS microcontrollers. The library's locks, queues, timers, sockets and UART drivers are replaced by plain inputs. What remains is modelled and proved:

- the codec: field validation, the PDU encoder and decoder, the RTU CRC-16 and the RTU and TCP framings;
- the frame and its accessors and byte-order conversions, the bounded byte buffer, and the word store;
- the word-based server and the older register-store server;
- the client's pending-request state machine;
- the TCP and RTU interface state, the receive-callback table and the bridge;
- the debug formatter, the log sink and the queued logger;
- the RTU test agent's hex helpers and frame FIFO;
- the DMX example interface.

Each source file is one module:

| module | file | models |
|---|---|---|
| `Wrappers` | wrappers.dfy | `Option`, `Min`, `Max` |
| `ModbusCore` | core.dfy | src/core/ModbusCore.h: constants, enum validity, broadcast ID, register and coil packing |
| `ModbusCrc` | crc.dfy | the CRC-16 table and the RTU checksum (section 2.5.1.2 of the MODBUS over Serial Line Specification V1.02) |
| `ModbusFrame` | frame.dfy | src/core/ModbusFrame.hpp: `Frame` as a value (`FrameValue`) and as a class with in-place setters |
| `ModbusCodec` | codec.dfy | src/core/ModbusCodec.hpp: validators and the PDU codec as functions, with round trips |
| `ModbusCodecInPlace` | codecinplace.dfy | the PDU codec run in place on a `Frame` and a `ByteBuffer`, proved equal to `ModbusCodec`, with the corrections of Findings rows 1 and 2 |
| `ModbusFraming` | framing.dfy | `ModbusCodec::RTU` and `ModbusCodec::TCP` encode, decode and buildException |
| `ModbusBuffer` | bytebuffer.dfy | src/core/ModbusTypes.hpp: `ByteBuffer` and `getBasename` |
| `ModbusWordStore` | wordstore.dfy | src/core/ModbusWord.hpp: both word stores as one class |
| `ModbusServerSpec` | serverspec.dfy | src/apps/ModbusServer.cpp: the server's decisions as functions of the word table |
| `ModbusServerApp` | server.dfy | src/apps/ModbusServer.cpp: the server object, proved against `ModbusServerSpec` |
| `ModbusLegacyServer` | legacyserver.dfy | src/EZModbus/src/apps/ModbusServer.cpp: the older register-store server |
| `ModbusClient` | client.dfy | src/apps/ModbusClient.cpp |
| `ModbusInterface` | interface.dfy | src/interfaces/ModbusInterface.hpp: result codes, role, callback table |
| `ModbusTcp` | tcp.dfy | src/interfaces/ModbusTCP.cpp |
| `ModbusRtu` | rtu.dfy | src/interfaces/ModbusRTU.cpp |
| `ModbusBridge` | bridge.dfy | src/apps/ModbusBridge.hpp |
| `ModbusDebug` | debug.dfy | src/utils/ModbusDebug.cpp |
| `ModbusLogSink` | logsink.dfy | src/utils/ModbusLogSink.cpp |
| `ModbusLogger` | logger.dfy | src/utils/ModbusLogger.hpp |
| `ModbusTestAgent` | testagent.dfy | test/test_rtu_server_loopback/ModbusTestAgent.h |
| `ModbusDmx` | dmx.dfy | examples/platformio/dmx/ModbusDMX.h |

The protocol constants follow these documents:

- the MODBUS Application Protocol Specification V1.1b3, sections 6.1-6.6, 6.11, 6.12 and 7;
- the MODBUS over Serial Line Specification V1.02, sections 2.5.1.1 and 2.5.1.2;
- the MODBUS Messaging on TCP/IP Implementation Guide V1.0b, section 3.1.3.

Code that works step by step is modelled as imperative Dafny: classes whose methods update fields, arrays, and loops with invariants. Each such method is proved against a pure function. Bytes and registers are bounded integers, and 16-bit and 32-bit wrap-around is written out where the source relies on it. Interface outcomes that come from outside are parameters of the methods that use them:

- driver and HAL results;
- lock and queue outcomes;
- clock readings;
- what a print function reports;
- the order in which events reach the client.

The repository's design description presents a TCP-only conformance client and echo slave with fixed register banks. The code is a full RTU/TCP library with sparse word stores, and this model follows the code. In particular:

- The synchronous `sendRequest` returns ERR_EXCEPTION_RESPONSE for an exception reply (src/apps/ModbusClient.cpp:182), though its header comment promises SUCCESS.
- `isValid(FunctionCode)` accepts every value 0x00-0x10. Undefined codes are refused later, by the codec's `default:` branches.
- The TCP `endTransaction` clears the transaction ID, so a client's transaction IDs restart at 1 after each transaction.
- `Frame` is defined in both src/core/ModbusCore.h and src/core/ModbusFrame.hpp. It is modelled once, from ModbusFrame.hpp.
- The legacy server's class declaration is not part of this model; its state is reconstructed from its use in src/EZModbus/src/apps/ModbusServer.cpp.
- The TCP and RTU interfaces follow their `.cpp` files where their headers lag behind.

## Model

| member | source | states |
|---|---|---|
| ModbusCore.IsValidRegisterType | src/core/ModbusCore.h:50-52 | holds exactly for COIL, DISCRETE_INPUT, HOLDING_REGISTER and INPUT_REGISTER |
| ModbusCore.IsValidFunctionCode | src/core/ModbusCore.h:87-89 | holds for every value 0x00..0x10: the eight implemented codes and also the undefined 0x00 and 0x07..0x0E |
| ModbusCore.ToRegisterType | src/core/ModbusCore.h:95-112 | 0x01, 0x05, 0x0F give COIL; 0x02 DISCRETE_INPUT; 0x03, 0x06, 0x10 HOLDING_REGISTER; 0x04 INPUT_REGISTER; every other code NULL_RT (each as an if-and-only-if) |
| ModbusCore.IsValidExceptionCode | src/core/ModbusCore.h:147-149 | holds exactly for the nine codes 0..8 |
| ModbusCore.IsValidMsgType | src/core/ModbusCore.h:171-173 | holds exactly for REQUEST and RESPONSE |
| ModbusCore.IsBroadcastId | src/core/ModbusCore.h:700-705 | the lookup in the broadcast-ID list is true exactly for ID 0 |
| ModbusCore.WithBitEffect | src/core/ModbusCore.h:402-404 | `w \|= 1 << b` / `w &= ~(1 << b)` set bit b to the given value and keep every other bit |
| ModbusCore.BitsDetermine | src/core/ModbusCore.h:393-408 | two words with the same 16 bits are the same word, so a packed word is fixed by its coils |
| ModbusCore.PackRegisters | src/core/ModbusCore.h:352-389 | the 125-word result holds the first min(len, 125) values and zeros after them |
| ModbusCore.CoilWordBit | src/core/ModbusCore.h:398-404 | bit k of a word packed from coils base.. is coil base+k when k < n and that coil exists, and 0 otherwise |
| ModbusCore.CoilWordPastEnd | src/core/ModbusCore.h:398 | the inner loop stopping at the end of the input packs the same word as running all 16 steps |
| ModbusCore.PackedCoilsBit | src/core/ModbusCore.h:393-408 | bit i%16 of word i/16 of the packing is coil i, for every i < 2000, and 0 past the input |
| ModbusCore.CoilsFromValues | src/core/ModbusCore.h:414-429 | a 16-bit input value is an ON coil exactly when it is non-zero |
| ModbusCore.PackCoilWord | src/core/ModbusCore.h:397-403 | the inner loop produces the word packed from coils i..i+15 |
| ModbusCore.PackCoils | src/core/ModbusCore.h:393-522 | bit j of word w is set exactly when coil 16w+j exists and is ON, for all 125 words |
| ModbusCore.PackedRegisters | src/core/ModbusCore.h:352-389 | the packed register field is always the full 125 words |
| ModbusCore.CoilWord | src/core/ModbusCore.h:399-403 | n coils packed least significant bit first fit in n bits |
| ModbusCore.PackedCoils | src/core/ModbusCore.h:393-408 | the packed coil field is always the full 125 words |
| ModbusCrc.XorBit | src/core/ModbusCodec.hpp:781-782 | the `^` of the table step: each bit of a ^ b is set exactly when the bits of a and b differ |
| ModbusCrc.XorBelow | src/core/ModbusCodec.hpp:781-782 | the `^` of two 8-bit or 16-bit values stays within that width |
| ModbusCrc.CalculateCrc | src/core/ModbusCodec.hpp:777-786 | the table loop returns the CRC-16 of the whole buffer, starting from 0xFFFF |
| ModbusCrc.CrcBytes | src/core/ModbusCodec.hpp:805-810 | the two wire bytes of a CRC, low byte first, read back as that CRC |
| ModbusCrc.ValidateCrc | src/core/ModbusCodec.hpp:792-799 | true exactly for buffers of at least two bytes whose last two bytes are the wire bytes of the CRC of the rest |
| ModbusCrc.CrcBytesExact | src/core/ModbusCodec.hpp:795-798 | reading two bytes low byte first gives the CRC exactly when they are its wire bytes |
| ModbusCrc.AppendCrc | src/core/ModbusCodec.hpp:805-811 | appending keeps the frame as a prefix and adds two bytes |
| ModbusCrc.AppendThenValidate | src/core/ModbusCodec.hpp:792-811 | a frame with its CRC appended passes validateCRC, and the frame is its prefix |
| ModbusCrc.TrailerUnique | src/core/ModbusCodec.hpp:792-799 | exactly one two-byte trailer makes a body valid: the CRC's own wire bytes |
| ModbusFrame.Swap16Involutive | src/core/ModbusFrame.hpp:772-806 | byte-swapping a register twice gives the register back, so the BADC/DCBA orders read back what they stored |
| ModbusFrame.Join32 | src/core/ModbusFrame.hpp:772-806 | the 32-bit value (high << 16) \| low splits back into exactly high and low |
| ModbusFrame.WithCoilEffect | src/core/ModbusFrame.hpp:555-581 | forcing coil c to v makes coil c read v and leaves every other coil of the data field as it was |
| ModbusFrame.CoilsDetermine | src/core/ModbusFrame.hpp:342-351 | two data fields whose 2000 coils all agree are the same data field |
| ModbusFrame.WriteCoilsSnoc | src/core/ModbusFrame.hpp:555-581 | writing one more coil at the end of a range is the same as writing the longer range |
| ModbusFrame.WriteCoilsEffect | src/core/ModbusFrame.hpp:555-581 | writing coils src from position start changes exactly coils start..start+len-1, each to its src value |
| ModbusFrame.GetRegister | src/core/ModbusFrame.hpp:302-308 | the stored register for an index below regCount and 125, 0 for any index outside |
| ModbusFrame.GetRegisters | src/core/ModbusFrame.hpp:310-325 | min(regCount, 125) registers, each equal to getRegister of its index |
| ModbusFrame.GetRegistersInto | src/core/ModbusFrame.hpp:327-340 | nothing when regCount or dstLen is 0; never more than regCount, 125 or dstLen registers; exactly min(regCount, dstLen, 125) for a dstLen below 65536; always a prefix of the data field |
| ModbusFrame.GetCoil | src/core/ModbusFrame.hpp:342-351 | true only for an index below regCount and 2000, and there exactly when bit index%16 of word index/16 is set |
| ModbusFrame.Coils | src/core/ModbusFrame.hpp:353-373 | exactly min(regCount, 2000) coils |
| ModbusFrame.Uint32ToInt32 | src/core/ModbusFrame.hpp:807-818 | the two's-complement reading of a 32-bit word lies in [-2^31, 2^31) and is congruent to it modulo 2^32 |
| ModbusFrame.Uint16ToInt16 | src/core/ModbusFrame.hpp:848-863 | the two's-complement reading of a 16-bit word lies in [-2^15, 2^15) and is congruent to it modulo 2^16 |
| ModbusFrame.GetUint32 | src/core/ModbusFrame.hpp:772-806 | fails exactly when index+2 exceeds 125 or regCount, or the order is a 16-bit one (AB, BA) |
| ModbusFrame.GetUint16 | src/core/ModbusFrame.hpp:820-846 | fails exactly when index is at or past 125 or regCount, or the order is a 32-bit one |
| ModbusFrame.GetInt32 | src/core/ModbusFrame.hpp:807-818 | succeeds exactly when getUint32 does |
| ModbusFrame.GetInt16 | src/core/ModbusFrame.hpp:848-863 | succeeds exactly when getUint16 does |
| ModbusFrame.SetRegistersReadBack | src/core/ModbusFrame.hpp:394-433 | after setRegisters(src) succeeds, regCount is len(src) and register i reads src[i], and 0 from len(src) on |
| ModbusFrame.SetRegistersRefusal | src/core/ModbusFrame.hpp:394-433 | setRegisters refuses exactly the inputs longer than 125 values |
| ModbusFrame.SetCoilsReadBack | src/core/ModbusFrame.hpp:434-515 | after setCoils(src) (at most 2000 coils) coil i reads src[i], and false from len(src) on |
| ModbusFrame.SetCoilsRoundTrip | src/core/ModbusFrame.hpp:434-515 | getCoils() after setCoils(src) returns src |
| ModbusFrame.SetRegistersAtEffect | src/core/ModbusFrame.hpp:516-528 | refused exactly for an empty source or one that would run past register 125; otherwise only registers start..start+len-1 change, to the source values, and regCount and the header stay as they were |
| ModbusFrame.SetCoilsAtEffect | src/core/ModbusFrame.hpp:530-581 | refused exactly for an empty source or one that would run past coil 2000; otherwise only coils start..start+len-1 change, to the source values, and regCount and the header stay as they were |
| ModbusFrame.SetUint32Effect | src/core/ModbusFrame.hpp:639-680 | refused exactly past register 125 or for a 16-bit order; otherwise regCount becomes max(regCount, index+2) and no register outside index, index+1 changes |
| ModbusFrame.SetUint32RoundTrip | src/core/ModbusFrame.hpp:639-680 | getUint32 with the order used by setUint32 returns the stored value, for all four 32-bit orders |
| ModbusFrame.SetInt32RoundTrip | src/core/ModbusFrame.hpp:681-690 | getInt32 returns the signed value setInt32 stored |
| ModbusFrame.CdabLayout | src/core/ModbusFrame.hpp:639-680 | CDAB stores 0x12345678 as the registers 0x5678, 0x1234 |
| ModbusFrame.SetUint16Effect | src/core/ModbusFrame.hpp:692-721 | refused exactly past register 125 or for a 32-bit order; otherwise regCount becomes max(regCount, index+1) and no other register changes |
| ModbusFrame.SetUint16RoundTrip | src/core/ModbusFrame.hpp:692-721 | getUint16 with the same order returns the stored value; BA stores it byte-swapped |
| ModbusFrame.SetInt16RoundTrip | src/core/ModbusFrame.hpp:723-732 | getInt16 returns the signed value setInt16 stored |
| ModbusFrame.ExceptionResponse | src/core/ModbusFrame.hpp:865-909 | a RESPONSE with the request's function code, slave id, address and count, a zeroed data field and the given exception code |
| ModbusFrame.SetIllegalFunction | src/core/ModbusFrame.hpp:865-880 | the exception response with ILLEGAL_FUNCTION |
| ModbusFrame.SetSlaveBusy | src/core/ModbusFrame.hpp:882-897 | the exception response with SLAVE_DEVICE_BUSY |
| ModbusFrame.SetSlaveDeviceFailure | src/core/ModbusFrame.hpp:899-909 | the exception response with SLAVE_DEVICE_FAILURE |
| ModbusFrame.Frame.constructor | src/core/ModbusFrame.hpp:36-45 | a fresh frame holds the default value: no message type, no function code, slave 0, address 0, count 0, zero data, no exception |
| ModbusFrame.Frame.Assign | src/core/ModbusFrame.hpp:36-45 | after copy assignment every field, the data field included, equals the source frame's |
| ModbusFrame.Frame.Clear | src/core/ModbusFrame.hpp:278-290 | the frame is back at the default value (no message type, no function code, zero header, zero data, no exception) |
| ModbusFrame.Frame.ClearData | src/core/ModbusFrame.hpp:292-300 | the data field is all zeros, regCount is 0 when asked and kept otherwise, and nothing else changes |
| ModbusFrame.Frame.SetRegisters | src/core/ModbusFrame.hpp:394-420 | succeeds exactly when the value-level setter does, and then holds its result; a refusal changes nothing |
| ModbusFrame.Frame.SetRegistersFromBuffer | src/core/ModbusFrame.hpp:421-433 | as SetRegisters, and an empty buffer is refused too |
| ModbusFrame.Frame.SetCoils | src/core/ModbusFrame.hpp:434-486 | succeeds exactly when the value-level setter does, and then holds its result; a refusal changes nothing |
| ModbusFrame.Frame.SetCoilsFromBuffer | src/core/ModbusFrame.hpp:487-515 | as SetCoils, and an empty buffer is refused too |
| ModbusFrame.Frame.SetRegistersAt | src/core/ModbusFrame.hpp:516-528 | the frame becomes the positioned setter's result on success and stays as it was on refusal |
| ModbusFrame.Frame.SetCoilsAt | src/core/ModbusFrame.hpp:530-581 | the bit-by-bit loop leaves the frame equal to the positioned setter's result on success, unchanged on refusal |
| ModbusFrame.Frame.SetUint32 | src/core/ModbusFrame.hpp:639-680 | returns 2 and holds the setter's result, or returns 0 and changes nothing |
| ModbusFrame.Frame.SetInt32 | src/core/ModbusFrame.hpp:681-690 | returns 2 and holds the setter's result, or returns 0 and changes nothing |
| ModbusFrame.Frame.SetUint16 | src/core/ModbusFrame.hpp:692-721 | returns 1 and holds the setter's result, or returns 0 and changes nothing |
| ModbusFrame.Frame.SetInt16 | src/core/ModbusFrame.hpp:723-732 | returns 1 and holds the setter's result, or returns 0 and changes nothing |
| ModbusFrame.Frame.GetCoils | src/core/ModbusFrame.hpp:353-373 | the unpacking loop returns min(regCount, 2000) coils, coil i being bit i%16 of word i/16 |
| ModbusFrame.Frame.GetCoilsInto | src/core/ModbusFrame.hpp:375-392 | nothing when regCount or dstLen is 0; at most regCount, dstLen and 2000 coils, exactly min of the three for a dstLen below 65536; always a prefix of getCoils() |
| ModbusFrame.Swap16 | src/core/ModbusFrame.hpp:703 | the byte swap puts the low byte of the register high and the high byte low |
| ModbusCodec.IsValidSlaveId | src/core/ModbusCodec.hpp:83-117 | IDs 1..247 always pass; a response passes exactly with 1..247; a request passes any ID when extended IDs are on; otherwise only the broadcast ID 0 with one of the four write function codes is added |
| ModbusCodec.IsValidRegisterCount | src/core/ModbusCodec.hpp:129-151 | only supported function codes with a count of at least 1 pass; register codes are bounded by 125, coil reads by 2000, single writes need exactly 1; a count of 1 always passes for a supported code |
| ModbusCodec.IsValidExceptionCodeFor | src/core/ModbusCodec.hpp:162-170 | a request passes exactly with no exception code; any other message passes exactly with one of the nine valid codes |
| ModbusCodec.IsValidFrame | src/core/ModbusCodec.hpp:172-194 | succeeds exactly when the type, exception code, slave ID and count checks all pass; a frame it accepts has a supported function code and a payload inside the data field; each error names the first check that failed |
| ModbusCodec.U16Bytes | src/core/ModbusCodec.hpp:391-394 | two bytes, high byte first, that join back into the word |
| ModbusCodec.RegisterBytes | src/core/ModbusCodec.hpp:398-404 | 2n bytes whose i-th big-endian word is register i |
| ModbusCodec.Words | src/core/ModbusCodec.hpp:272-276 | the n big-endian words of a byte sequence, word i built from bytes 2i and 2i+1 |
| ModbusCodec.RegistersData | src/core/ModbusCodec.hpp:268-276 | a data field that starts with the given registers and is zero after them |
| ModbusCodec.CoilRange | src/core/ModbusCodec.hpp:630-647 | the n coils of a data field from coil `first`, in order |
| ModbusCodec.CoilByte | src/core/ModbusCodec.hpp:630-647 | bit j of the formatted byte is set exactly when j < n and coil first+j is on (LSB first) |
| ModbusCodec.CoilBytes | src/core/ModbusCodec.hpp:406-420 | ceil(count/8) bytes, byte i holding min(8, count-8i) coils from coil 8i |
| ModbusCodec.PayloadCoils | src/core/ModbusCodec.hpp:606-622 | coil k of a payload is bit k%8 of byte k/8 |
| ModbusCodec.CeilBytes | src/core/ModbusCodec.hpp:406-410 | ceil(count/8) whole bytes hold count coils with at most 7 padding bits, and at most 250 bytes for 2000 coils |
| ModbusCodec.CoilBytesReadBack | src/core/ModbusCodec.hpp:406-420 | every bit of the formatted coil payload reads back its coil, and the padding bits read 0 |
| ModbusCodec.WithExceptionBit | src/core/ModbusCodec.hpp:372-373 | bit 7 set and the low seven bits of the function code kept |
| ModbusCodec.EncodePdu | src/core/ModbusCodec.hpp:365-506 | a success starts with the function code (bit 7 set for an exception) and has at least two bytes; an error leaves no bytes; ERR_INVALID_FC exactly for an unsupported function code without exception |
| ModbusCodec.DecodePdu | src/core/ModbusCodec.hpp:211-353 | an error leaves the default frame; a success keeps the prior type and slave ID and takes the function code from byte 0; an exception reply is exactly two bytes with a valid exception code; an empty buffer is ERR_INVALID_LEN; corrected (Findings rows 1 and 2): a 0x10 request keeps its count and a coil response over 2000 coils is refused |
| ModbusCodec.DecodeFieldsDispatch | src/core/ModbusCodec.hpp:234-350 | which field decoder each function code and message type reaches; a 0x10 request reaches the corrected, count-keeping decoder (Findings row 2) |
| ModbusCodec.WordsOfRegisterBytes | src/core/ModbusCodec.hpp:268-276 | reading back the bytes written for n registers gives the n registers |
| ModbusCodec.PayloadCoilsWritten | src/core/ModbusCodec.hpp:606-622 | writing a payload's coils from coil 0 makes coil k bit k%8 of byte k/8 |
| ModbusCodec.CoilPayloadRoundTrip | src/core/ModbusCodec.hpp:244-256 | writing back all bits of a formatted coil payload gives the original coils, then OFF padding |
| ModbusCodec.CoilPayloadExact | src/core/ModbusCodec.hpp:303-318 | writing back `count` bits of a formatted coil payload gives exactly the original coils |
| ModbusCodec.CoilResponseEncodes | src/core/ModbusCodec.hpp:406-420 | a read-coils response encodes to its function code, ceil(count/8) and the packed coils |
| ModbusCodec.CoilResponsePduDecodes | src/core/ModbusCodec.hpp:236-257 | a read-coils response PDU decodes to 8 coils per payload byte, written from coil 0 |
| ModbusCodec.CoilResponseDecoded | src/core/ModbusCodec.hpp:236-257 | a read-coils response decodes back with its coils, padded with OFF to whole bytes |
| ModbusCodec.CoilResponseRoundTrip | src/core/ModbusCodec.hpp:236-257 | a read-coils response with 1..2000 coils round-trips through encode and decode |
| ModbusCodec.CarriesCoilResponse | src/core/ModbusCodec.hpp:236-257 | a decoded frame with the same coils, padded to whole bytes, carries the read-coils response |
| ModbusCodec.RegisterResponseRoundTrip | src/core/ModbusCodec.hpp:258-281 | a read-registers response with 1..125 registers round-trips |
| ModbusCodec.WriteCoilsRequestEncodes | src/core/ModbusCodec.hpp:448-472 | a write-multiple-coils request encodes to its address, count, byte count and packed coils |
| ModbusCodec.WriteCoilsRequestPduDecodes | src/core/ModbusCodec.hpp:303-318 | a write-multiple-coils PDU decodes to its address, its count and `count` coils |
| ModbusCodec.WriteCoilsRequestDecoded | src/core/ModbusCodec.hpp:303-318 | a write-multiple-coils request decodes back with its address, count and every coil |
| ModbusCodec.WriteCoilsRequestRoundTrip | src/core/ModbusCodec.hpp:303-318 | a write-multiple-coils request with 1..1968 coils round-trips |
| ModbusCodec.WriteRegistersRequestRoundTrip | src/core/ModbusCodec.hpp:326-339 | a write-multiple-registers request with 1..123 registers round-trips through the corrected decoder (Findings row 2); the source's decoder gives count 0 |
| ModbusCodec.ExceptionRoundTrip | src/core/ModbusCodec.hpp:224-232 | an exception response round-trips as function code plus exception code |
| ModbusCodec.ReadRequestRoundTrip | src/core/ModbusCodec.hpp:238-242 | a read request with a valid count round-trips its address and count |
| ModbusCodec.SingleWritePdu | src/core/ModbusCodec.hpp:283-301 | the address and value of a five-byte single-write PDU read back |
| ModbusCodec.CoilValueWord | src/core/ModbusCodec.hpp:426-438 | ON is sent as 0xFF00 and OFF as 0x0000 |
| ModbusCodec.WriteCoilDecodes | src/core/ModbusCodec.hpp:283-292 | a well-formed write-single-coil PDU decodes to its address, count 1 and state 0 or 1 |
| ModbusCodec.WriteCoilEncodes | src/core/ModbusCodec.hpp:426-438 | a write-single-coil frame with state 0 or 1 encodes to its address and 0xFF00 or 0x0000 |
| ModbusCodec.WriteCoilRoundTrip | src/core/ModbusCodec.hpp:283-292 | a write-single-coil frame with state 0 or 1 round-trips |
| ModbusCodec.WriteRegisterRoundTrip | src/core/ModbusCodec.hpp:294-301 | a write-single-register frame round-trips its address and value |
| ModbusCodec.WriteEchoRoundTrip | src/core/ModbusCodec.hpp:319-345 | a write-multiple response round-trips its echoed address and count |
| ModbusCodec.PduRoundTrip | src/core/ModbusCodec.hpp:211-506 | every frame isValidFrame accepts encodes, except a write-single-coil whose value is neither 0 nor 1; what it encodes fits in 253 bytes and decodes, by the corrected decoder (Findings rows 1 and 2), to a frame carrying the same fields |
| ModbusCodec.PduEncodes | src/core/ModbusCodec.hpp:365-506 | the encoder accepts exactly the valid frames that are not such a bad coil value, and stays within 253 bytes |
| ModbusCodec.PduDecodes | src/core/ModbusCodec.hpp:211-353 | the corrected decoder (Findings rows 1 and 2) accepts what the encoder produced and gives back a frame carrying its fields |
| ModbusCodec.CoilResponseCoilsAsWritten | src/core/ModbusCodec.hpp:243-256 | as written, a coil response passes exactly when its length matches its byte count, and then stores 8 coils per payload byte |
| ModbusCodec.CoilResponseOverrunAsWritten | src/core/ModbusCodec.hpp:243-256 | a 253-byte response with byte count 251 makes the source store 2008 coils, more than the 125 data words hold |
| ModbusCodec.CoilResponseBounded | src/core/ModbusCodec.hpp:243-256 | the corrected decoder accepts a coil response exactly when its length matches and it carries at most 2000 coils, refuses more with ERR_INVALID_BYTE_COUNT, and never stores more than 2000 coils |
| ModbusCodec.WriteRegistersCountLostAsWritten | src/core/ModbusCodec.hpp:326-339 | as written, clearData() zeroes the count of a well-formed write-multiple-registers request; keeping the count (clearData(false)) gives back the count the PDU carries |
| ModbusCodecInPlace.ByteCoils | src/core/ModbusCodec.hpp:606-622 | the first m bits of a byte, least significant first, as extractCoils reads them |
| ModbusCodecInPlace.WriteCoilsAppend | src/core/ModbusCodec.hpp:246-251 | writing coils a then b just after them is writing a + b, which is what successive extractCoils calls do |
| ModbusCodecInPlace.PayloadCoilsExtend | src/core/ModbusCodec.hpp:246-251 | the coils of a payload up to a byte boundary, then part of the next byte, are a prefix of its coils |
| ModbusCodecInPlace.ExtractStep | src/core/ModbusCodec.hpp:246-251 | extracting byte i after the coils of bytes 0..i-1 gives the coils of bytes 0..i |
| ModbusCodecInPlace.FormatCoils | src/core/ModbusCodec.hpp:630-647 | refuses exactly 0 or more than 8 coils; otherwise bit j of the byte is coil first+j for j < n and 0 above |
| ModbusCodecInPlace.PackStep | src/core/ModbusCodec.hpp:640-645 | setting bit i when coil i is on packs one more coil into the byte |
| ModbusCodecInPlace.ExtractCoils | src/core/ModbusCodec.hpp:606-622 | returns maxCoils, and the destination words change exactly in coils first..first+maxCoils-1, to the bits of the source byte |
| ModbusCodecInPlace.EncodeCoilPayload | src/core/ModbusCodec.hpp:406-420 | the coil loop of appendToBytes produces ceil(count/8) packed bytes, the last holding count%8 coils |
| ModbusCodecInPlace.ExtractResponseCoils | src/core/ModbusCodec.hpp:246-252 | the response coil loop returns 8 coils per payload byte and writes exactly those coils from coil 0 |
| ModbusCodecInPlace.ExtractRequestCoils | src/core/ModbusCodec.hpp:311-317 | the request coil loop writes exactly `count` coils from the payload, from coil 0 |
| ModbusCodecInPlace.ExtractPayloadByte | src/core/ModbusCodec.hpp:313-316 | one byte of the payload extracted after the coils of the bytes before it |
| ModbusCodecInPlace.EncodeRegisterPayload | src/core/ModbusCodec.hpp:398-404 | the register loop of appendToBytes writes each register high byte first |
| ModbusCodecInPlace.ExtractRegisters | src/core/ModbusCodec.hpp:272-276 | word i/2 becomes the big-endian word of bytes i, i+1, and the words past the payload keep their values |
| ModbusCodecInPlace.ExtractRegistersCleared | src/core/ModbusCodec.hpp:271-276 | after clearData, the register loop leaves the payload's registers followed by zeros |
| ModbusCodecInPlace.FailDecode | src/core/ModbusCodec.hpp:585-597 | HandleError clears the frame to its default value and returns the error |
| ModbusCodecInPlace.DecodeCoilsOrReadRequestInto | src/core/ModbusCodec.hpp:236-257 | the frame object ends up as the value-level decoder says and the status is its status; including the corrected 2000-coil bound (Findings row 1) |
| ModbusCodecInPlace.DecodeRegistersResponseInto | src/core/ModbusCodec.hpp:258-281 | the frame object ends up as the value-level decoder says and the status is its status |
| ModbusCodecInPlace.DecodeWriteCoilInto | src/core/ModbusCodec.hpp:283-292 | the frame object ends up as the value-level decoder says and the status is its status |
| ModbusCodecInPlace.DecodeWriteRegisterInto | src/core/ModbusCodec.hpp:294-301 | the frame object ends up as the value-level decoder says and the status is its status |
| ModbusCodecInPlace.DecodeWriteEchoInto | src/core/ModbusCodec.hpp:318-345 | the frame object ends up as the value-level decoder says and the status is its status |
| ModbusCodecInPlace.DecodeWriteCoilsRequestInto | src/core/ModbusCodec.hpp:303-318 | the frame object ends up as the value-level decoder says and the status is its status |
| ModbusCodecInPlace.DecodeWriteRegistersRequestInto | src/core/ModbusCodec.hpp:326-339 | the frame object ends up as the corrected value-level decoder says (count kept) and the status is its status |
| ModbusCodecInPlace.SetFromBytes | src/core/ModbusCodec.hpp:211-353 | setFromBytes leaves the frame object equal to DecodePdu of its old value, with DecodePdu's status, so PduRoundTrip applies to it; with the corrections of Findings rows 1 and 2 |
| ModbusCodecInPlace.Resized | src/core/ModbusTypes.hpp:311-315 | resize(n) leaves exactly n bytes |
| ModbusCodecInPlace.AppendToBytes | src/core/ModbusCodec.hpp:365-506 | a position beyond the buffer is ERR_BUFFER_OVERFLOW with the buffer unchanged; otherwise the status is EncodePdu's, the buffer holds the kept prefix plus the PDU on success and is empty on error |
| ModbusCodecInPlace.PduBytes | src/core/ModbusCodec.hpp:371-506 | the bytes the branches push are exactly EncodePdu's, with its status |
| ModbusCodecInPlace.ReadPduBytes | src/core/ModbusCodec.hpp:387-424 | the read branch pushes exactly EncodePdu's bytes, with its status |
| ModbusCodecInPlace.ReadPdu | src/core/ModbusCodec.hpp:387-424 | a read request is function code, address, count; a register response is function code, 2·count, registers; a coil response is function code, ceil(count/8), packed coils, and a zero byte count is ERR_INVALID_DATA |
| ModbusCodecInPlace.WriteMultiplePduBytes | src/core/ModbusCodec.hpp:448-500 | the write-multiple branch pushes exactly EncodePdu's bytes, with its status |
| ModbusCodecInPlace.WriteMultiplePdu | src/core/ModbusCodec.hpp:448-500 | a response is the echoed header; a coil request adds ceil(count/8) and the packed coils, and a zero count is ERR_INVALID_DATA; a register request adds 2·count and the registers |
| ModbusBuffer.Pushed | src/core/ModbusTypes.hpp:323-327 | a push onto a buffer below capacity appends the byte; onto a full buffer it changes nothing |
| ModbusBuffer.Truncate | src/core/ModbusTypes.hpp:323-327 | the first min(len, n) bytes of a sequence |
| ModbusBuffer.PushedAllTruncates | src/core/ModbusTypes.hpp:323-327 | pushing bytes one at a time onto a bounded buffer keeps exactly the bytes that fit, the old contents plus the new bytes cut at the capacity |
| ModbusBuffer.PushedAllFits | src/core/ModbusTypes.hpp:323-327 | when everything fits, pushing one at a time appends all the bytes |
| ModbusBuffer.ByteBuffer.Contents | src/core/ModbusTypes.hpp:268-269 | the bytes in use: exactly `size` of them |
| ModbusBuffer.ByteBuffer.Detached | src/core/ModbusTypes.hpp:239-240 | the default buffer has no storage, capacity 0 and size 0 |
| ModbusBuffer.ByteBuffer.constructor | src/core/ModbusTypes.hpp:246-249 | a read/write buffer over `capacity` zeroed bytes, empty |
| ModbusBuffer.ByteBuffer.ReadOnly | src/core/ModbusTypes.hpp:255-257 | a read-only view whose contents and capacity are the given bytes |
| ModbusBuffer.ByteBuffer.FreeSpace | src/core/ModbusTypes.hpp:272 | capacity minus size |
| ModbusBuffer.ByteBuffer.At | src/core/ModbusTypes.hpp:274-278 | succeeds exactly for an index below the size, returning that byte |
| ModbusBuffer.ByteBuffer.Slice | src/core/ModbusTypes.hpp:299-303 | empty past the size; otherwise the bytes from offset, cut at the size, never more than `length` |
| ModbusBuffer.ByteBuffer.Clear | src/core/ModbusTypes.hpp:307-310 | the size becomes 0 |
| ModbusBuffer.ByteBuffer.Resize | src/core/ModbusTypes.hpp:311-316 | succeeds exactly within the capacity of an attached buffer; then the contents are the old prefix followed by zeros up to n, and the bytes past n are untouched; a refusal changes nothing |
| ModbusBuffer.ByteBuffer.Trim | src/core/ModbusTypes.hpp:317-322 | succeeds exactly for n at most the size on an attached buffer, keeping the first n bytes |
| ModbusBuffer.ByteBuffer.PushBack | src/core/ModbusTypes.hpp:323-327 | succeeds exactly below capacity and appends the byte; a refusal changes nothing |
| ModbusBuffer.ByteBuffer.PushBackAll | src/core/ModbusTypes.hpp:328-333 | all-or-nothing: appends every byte when they fit, otherwise changes nothing |
| ModbusBuffer.ByteBuffer.WriteAt | src/core/ModbusTypes.hpp:337-342 | succeeds exactly below capacity, writes the byte and raises the size to cover it |
| ModbusBuffer.ByteBuffer.WriteAllAt | src/core/ModbusTypes.hpp:344-349 | succeeds exactly when the bytes fit, writes them at pos and raises the size to cover them |
| ModbusBuffer.ByteBuffer.PopFront | src/core/ModbusTypes.hpp:353-360 | succeeds exactly for n at most the size and drops the first n bytes |
| ModbusBuffer.ByteBuffer.PopBack | src/core/ModbusTypes.hpp:362-366 | succeeds exactly for n at most the size and drops the last n bytes |
| ModbusBuffer.ByteBuffer.PushEach | src/core/ModbusTypes.hpp:323-327 | pushing each byte in turn, as the encoders do, leaves the old contents plus the new bytes cut at the capacity |
| ModbusBuffer.LastIndexOf | src/core/ModbusTypes.hpp:396-409 | strrchr: absent exactly when the character does not occur; otherwise an occurrence with none after it |
| ModbusBuffer.BasenameStartAsWritten | src/core/ModbusTypes.hpp:396-409 | the start of getBasename as written, inside the path |
| ModbusBuffer.LeadingBackslashKept | src/core/ModbusTypes.hpp:396-409 | as written, "\\b" and "a/\\b" both have basename "\\b": a backslash right where the slash rule starts is not skipped |
| ModbusBuffer.BasenameStart | src/core/ModbusTypes.hpp:396-409 | the corrected start: no separator of either kind follows it, and it is just after a separator or at 0 when there is none |
| ModbusBuffer.BasenameIsLastComponent | src/core/ModbusTypes.hpp:396-409 | the corrected basename holds no separator, is a suffix of the path starting after a separator, and is the whole path when there is none |
| ModbusBuffer.BasenameAgreesWhenSeparated | src/core/ModbusTypes.hpp:396-409 | the source and the corrected basename agree unless the last backslash sits exactly where the slash rule starts |
| ModbusWordStore.LowerBound | src/core/ModbusWord.hpp:136-139 | std::lower_bound: every word before the index starts below the address, and the word at it (if any) at or above |
| ModbusWordStore.UpperBound | src/core/ModbusWord.hpp:150-153 | std::upper_bound: every word before the index starts at or below the address, and the word at it (if any) above |
| ModbusWordStore.LowerBoundSplits | src/core/ModbusWord.hpp:136-139 | on a sorted store every word from the lower bound on starts at or above the address |
| ModbusWordStore.UpperBoundSplits | src/core/ModbusWord.hpp:150-153 | on a sorted store every word from the upper bound on starts above the address |
| ModbusWordStore.LowerBoundUnique | src/core/ModbusWord.hpp:136-139 | the split point between words below and words at or above the address is the lower bound |
| ModbusWordStore.UpperBoundUnique | src/core/ModbusWord.hpp:150-153 | the split point between words at or below and words above the address is the upper bound |
| ModbusWordStore.FirstFrom | src/core/ModbusWord.hpp:133-158 | the first index from i whose word has the type and starts at (or after) the address, with none before it; none when no word matches |
| ModbusWordStore.FirstFromAt | src/core/ModbusWord.hpp:133-158 | the first matching word is the one found |
| ModbusWordStore.FirstFromNone | src/core/ModbusWord.hpp:133-158 | nothing is found when no word matches |
| ModbusWordStore.Inserted | src/core/ModbusWord.hpp:192-210 | a sorted insert adds exactly one word |
| ModbusWordStore.InsertedIndex | src/core/ModbusWord.hpp:192-210 | the new word sits at the lower bound of its address, the words before it stay in place and those after shift right by one |
| ModbusWordStore.InsertedSorted | src/core/ModbusWord.hpp:192-210 | inserting at the lower bound keeps a sorted store sorted |
| ModbusWordStore.InsertedPermutation | src/core/ModbusWord.hpp:192-210 | the insert adds the word and loses none |
| ModbusWordStore.InsertedBeforeEqual | src/core/ModbusWord.hpp:192-210 | a word inserted at an address already present goes before the existing words with that address |
| ModbusWordStore.WithoutType | src/core/ModbusWord.hpp:117-126 | clear(type) keeps at most the words it had, none of the cleared type |
| ModbusWordStore.CountType | src/core/ModbusWord.hpp:212-216 | the number of words of one type is at most the total |
| ModbusWordStore.WithoutTypeSorted | src/core/ModbusWord.hpp:117-126 | clearing one type keeps a sorted store sorted |
| ModbusWordStore.WithoutTypeMembers | src/core/ModbusWord.hpp:117-126 | a word survives clear(type) exactly when it was stored and has another type |
| ModbusWordStore.WithoutTypeCounts | src/core/ModbusWord.hpp:117-126 | after clear(type) no word of that type remains and every other type keeps its count |
| ModbusWordStore.CountTypeAppend | src/core/ModbusWord.hpp:212-216 | the count of a type over two parts is the sum of their counts |
| ModbusWordStore.ContainingScan | src/core/ModbusWord.hpp:160-177 | the backward scan of findContaining as written: anything it returns lies below the start and is a word of the type that covers the address |
| ModbusWordStore.ContainingScanFixed | src/core/ModbusWord.hpp:160-177 | the corrected scan, which stops only at a word of the requested type: anything it returns is a word of the type that covers the address |
| ModbusWordStore.ContainingMissAsWritten | src/core/ModbusWord.hpp:160-177 | with a holding-register word over 0..9 and a coil word at 5, findContaining(HOLDING_REGISTER, 7) as written stops at the coil and misses the word that covers 7 |
| ModbusWordStore.ContainingScanFixedComplete | src/core/ModbusWord.hpp:160-177 | on a sorted store whose words of one type do not overlap, the corrected scan finds a covering word whenever one lies below its start |
| ModbusWordStore.ContainingBelowUpperBound | src/core/ModbusWord.hpp:160-165 | a word that covers the address lies below the upper bound of the address |
| ModbusWordStore.ContainingFixedExact | src/core/ModbusWord.hpp:160-177 | the corrected findContaining finds a word exactly when some stored word of the type covers the address |
| ModbusWordStore.WordStore.Contents | src/core/ModbusWord.hpp:220 | the stored words, totalSize() of them |
| ModbusWordStore.WordStore.Static | src/core/ModbusWord.hpp:107-111 | a static store of N entries starts empty and sorted |
| ModbusWordStore.WordStore.Dynamic | src/core/ModbusWord.hpp:248-251 | a dynamic store starts empty in bulk mode, with the given capacity or 100 when it is 0 |
| ModbusWordStore.WordStore.TotalCapacity | src/core/ModbusWord.hpp:221 | the capacity fixed at construction |
| ModbusWordStore.WordStore.HasCapacity | src/core/ModbusWord.hpp:218 | true exactly while fewer words than the capacity are stored |
| ModbusWordStore.WordStore.ClearAll | src/core/ModbusWord.hpp:128-131 | the store is empty and in sorted mode |
| ModbusWordStore.WordStore.ClearType | src/core/ModbusWord.hpp:117-126 | the store keeps exactly its words of other types, in order, and its mode |
| ModbusWordStore.WordStore.CompactWithout | src/core/ModbusWord.hpp:119-125 | the compaction loop moves the kept words to the front in order and returns how many there are |
| ModbusWordStore.WordStore.Size | src/core/ModbusWord.hpp:212-216 | the number of stored words of the type |
| ModbusWordStore.WordStore.Overlaps | src/core/ModbusWord.hpp:179-190 | true exactly when a stored word of the same type has a range intersecting the word's, ends computed without 16-bit wrap-around |
| ModbusWordStore.WordStore.LowerBoundIndex | src/core/ModbusWord.hpp:136-139 | the binary search returns the lower bound of the address |
| ModbusWordStore.WordStore.UpperBoundIndex | src/core/ModbusWord.hpp:150-153 | the binary search returns the upper bound of the address |
| ModbusWordStore.WordStore.FindExact | src/core/ModbusWord.hpp:133-145 | on a sorted store, the first word of the type starting exactly at the address |
| ModbusWordStore.WordStore.FindNext | src/core/ModbusWord.hpp:147-158 | on a sorted store, the first word of the type starting strictly after the address |
| ModbusWordStore.WordStore.FindContaining | src/core/ModbusWord.hpp:160-177 | the as-written backward scan from the upper bound; anything it returns is a stored word of the type covering the address |
| ModbusWordStore.WordStore.ShiftInsert | src/core/ModbusWord.hpp:199-205 | the shift-right loop leaves the words with the new word at its lower bound, and the cells past them untouched |
| ModbusWordStore.WordStore.InsertAtLowerBound | src/core/ModbusWord.hpp:196-205 | a sorted store gets the word inserted at its lower bound and stays sorted |
| ModbusWordStore.WordStore.Insert | src/core/ModbusWord.hpp:192-210 | refused exactly when the store is full or, in sorted mode, the word overlaps one of its type; a sorted store inserts in order, a bulk store appends, a refusal changes nothing |
| ModbusWordStore.WordStore.InsertPrefix | src/core/ModbusWord.hpp:223-230 | one insertion step of the sort: the first i+1 words become sorted and a permutation of what they were |
| ModbusWordStore.WordStore.SortAll | src/core/ModbusWord.hpp:223-230 | the store ends sorted by start address, a permutation of its words, in sorted mode; an already sorted store is untouched |
| ModbusWordStore.WordStore.SortWords | src/core/ModbusWord.hpp:225-227 | the first n words end sorted and a permutation of what they were |
| ModbusServerSpec.WordEntryCheck | src/apps/ModbusServer.cpp:828-888 | succeeds exactly for a word meeting every registration rule (valid type, 1..MAX_WORD_SIZE registers within the address space, direct pointer only on a single register, handlers where needed, no write handler on a read-only type); a range error is ERR_WORD_INVALID |
| ModbusServerSpec.BatchClash16Misses | src/apps/ModbusServer.cpp:644-663 | as written, the vector addWords holds word ends in 16 bits: a word ending at 0x10000 gets end 0, so two overlapping acceptable words at the top of the address space pass its test |
| ModbusServerSpec.BatchCheck | src/apps/ModbusServer.cpp:622-629 | succeeds exactly when every word of the batch is acceptable, else returns the first word's error |
| ModbusServerSpec.BatchPrecheck | src/apps/ModbusServer.cpp:612-664 | a batch passes only when it fits in the free capacity and every word is acceptable, and once the server runs only when no word clashes with the store or within the batch |
| ModbusServerSpec.InsertOneMembers | src/apps/ModbusServer.cpp:816-822 | an insert adds exactly the new word to the stored words |
| ModbusServerSpec.InsertAllMembers | src/apps/ModbusServer.cpp:667-672 | after inserting a batch the stored words are the old ones and the batch's |
| ModbusServerSpec.InsertAllAcceptable | src/apps/ModbusServer.cpp:667-672 | inserting acceptable words keeps every stored word acceptable |
| ModbusServerSpec.BatchInsertsClashFree | src/apps/ModbusServer.cpp:633-672 | once a batch passed the overlap checks, no word of it clashes with the store built from the words inserted before it, so no insert is refused for overlap |
| ModbusServerSpec.InsertedDisjoint | src/apps/ModbusServer.cpp:598-604 | inserting a word that clashes with no stored word keeps the store free of same-type overlaps |
| ModbusServerSpec.TypeDisjointAll | src/apps/ModbusServer.cpp:785-810 | checking each of the four register types for overlaps covers the whole store |
| ModbusServerSpec.NoOverlapsMissAsWritten | src/apps/ModbusServer.cpp:785-810 | as written, the walk starts with findNext(type, 0), which skips a word at address 0: two overlapping holding-register words at 0..1 and 1 pass the check |
| ModbusServerSpec.AcceptableNonEmpty | src/apps/ModbusServer.cpp:835-837 | every acceptable word spans at least one register |
| ModbusServerSpec.GapEnd | src/apps/ModbusServer.cpp:439-442 | a gap ends after its start and no later than the end of the request |
| ModbusServerSpec.GapEndSkipsNothing | src/apps/ModbusServer.cpp:280-285 | on a sorted store no word of the type starts strictly inside a skipped gap |
| ModbusServerSpec.ScanCheckRejectsGap | src/apps/ModbusServer.cpp:270-302 | with rejectUndefined, a passing validation scan found a word starting at each address it visited |
| ModbusServerSpec.Fit | src/apps/ModbusServer.cpp:337-346 | the word buffer after memset: the handler's values, then zeros |
| ModbusServerSpec.ReadWord | src/apps/ModbusServer.cpp:337-350 | reading a word fills the whole MAX_WORD_SIZE word buffer |
| ModbusServerSpec.FillGap | src/apps/ModbusServer.cpp:313-339 | filling a gap only touches the response's data field |
| ModbusServerSpec.AsCoils | src/apps/ModbusServer.cpp:369-377 | a word's values as coils: on exactly when the value is non-zero |
| ModbusServerSpec.StreamRead | src/apps/ModbusServer.cpp:303-390 | the streaming pass only changes the response's data field |
| ModbusServerSpec.ReadStepAt | src/apps/ModbusServer.cpp:303-390 | each round advances past the current address and only touches the data field; it stops exactly on an exception; a gap calls no handler and stays within the request |
| ModbusServerSpec.ReadWordStep | src/apps/ModbusServer.cpp:337-387 | reading one word touches only the data field, calls the read handler exactly when the word has one, and stops exactly on an exception |
| ModbusServerSpec.HandleReadDecisions | src/apps/ModbusServer.cpp:256-395 | an address range past 0xFFFF or a failed validation scan is ILLEGAL_DATA_ADDRESS before any handler runs; success sets the count to the request's and no exception; a failure always carries an exception code; the response header is kept |
| ModbusServerSpec.WriteValues | src/apps/ModbusServer.cpp:488-504 | the word buffer for a write has MAX_WORD_SIZE entries, only 0 and 1 for a coil write |
| ModbusServerSpec.WriteWord | src/apps/ModbusServer.cpp:506-517 | a word is written exactly when it is writable, with the request's values for it; otherwise SLAVE_DEVICE_FAILURE |
| ModbusServerSpec.StreamWrite | src/apps/ModbusServer.cpp:465-526 | the first exception met is the one kept |
| ModbusServerSpec.StreamWriteAt | src/apps/ModbusServer.cpp:468-526 | a word at the current address is written and the pass goes on after it, keeping the first exception |
| ModbusServerSpec.StreamWriteGap | src/apps/ModbusServer.cpp:471-482 | without a word at the current address the pass stops under rejectUndefined and skips to the gap's end otherwise |
| ModbusServerSpec.StreamWriteEffects | src/apps/ModbusServer.cpp:465-526 | every write of the pass goes to a stored word of the request's table, with the request's values at that word's offset |
| ModbusServerSpec.ValidatedWritesFit | src/apps/ModbusServer.cpp:425-526 | after a passing validation scan every word the pass writes lies within the request and is writable |
| ModbusServerSpec.HandleWriteDecisions | src/apps/ModbusServer.cpp:402-545 | a zero count is ILLEGAL_DATA_VALUE, a range past 0xFFFF ILLEGAL_DATA_ADDRESS, a read-only table ILLEGAL_FUNCTION, all three before any write; success echoes the data of a single write or the address and count of a multiple write; a failure always carries an exception code |
| ModbusServerSpec.HandleRequestProperties | src/apps/ModbusServer.cpp:161-254 | before begin nothing is handled; broadcasts get no reply; a reply is a RESPONSE with the request's function code and slave ID that carries an exception exactly when the result is an error; a failed send gives ERR_RSP_TX_FAILED; reads never write and writes never read; a busy server, a non-request or an invalid function code reaches no handler; another slave's request is ignored |
| ModbusServerApp.Server.constructor | src/apps/ModbusServer.cpp:20-55 | the server keeps its store, slave ID and rejectUndefined flag, is not started, and keeps its interfaces unless there are more than MAX_INTERFACES, in which case it keeps none |
| ModbusServerApp.Server.StartPorts | src/apps/ModbusServer.cpp:74-113 | succeeds exactly when every interface is a server, starts and accepts the receive callback |
| ModbusServerApp.Server.NoOverlapsOfType | src/apps/ModbusServer.cpp:785-810 | the corrected overlap check on the sorted store: passes exactly when no two words of the type clash |
| ModbusServerApp.Server.Begin | src/apps/ModbusServer.cpp:64-131 | started exactly on success; a second call succeeds at once and changes nothing; no interface or a failing one is ERR_INIT_FAILED with the store untouched; otherwise the store ends sorted, a permutation of its words, and begin succeeds exactly when no two words of a type overlap, else ERR_WORD_OVERLAP; this runs the corrected overlap walk of Findings row 6 |
| ModbusServerApp.Server.ClearAllWords | src/apps/ModbusServer.cpp:133-144 | with the lock, the store is emptied and the result is SUCCESS; without it, ERR_WORD_BUSY and nothing changes |
| ModbusServerApp.Server.IsBusy | src/apps/ModbusServer.cpp:146-150 | busy exactly before begin or while the lock is held elsewhere |
| ModbusServerApp.Server.AddWord | src/apps/ModbusServer.cpp:585-605 | without the lock ERR_WORD_BUSY; a word breaking a rule gets that rule's error; once running an overlapping word is ERR_WORD_OVERLAP; otherwise the word is inserted (SUCCESS, one more word) or the store refuses it (ERR_WORD_OVERFLOW, when full or when it overlaps in sorted mode); a refusal changes nothing |
| ModbusServerApp.Server.BatchHasOverlap | src/apps/ModbusServer.cpp:644-663 | the pair loop finds a clash exactly when two words of the batch clash under the given end width |
| ModbusServerApp.Server.CheckBatch | src/apps/ModbusServer.cpp:622-629 | the validity loop returns the first word's registration error, or SUCCESS |
| ModbusServerApp.Server.BatchHitsStore | src/apps/ModbusServer.cpp:635-641 | true exactly when a word of the batch clashes with a stored word |
| ModbusServerApp.Server.AddBatch | src/apps/ModbusServer.cpp:612-675 | a failed precheck returns its error with the store unchanged; otherwise every word is inserted in batch order (SUCCESS) or the store refuses one (ERR_WORD_OVERFLOW); a bulk-mode store, or a running server with 32-bit ends, always succeeds |
| ModbusServerApp.Server.AddWords | src/apps/ModbusServer.cpp:612-675 | without the lock ERR_WORD_BUSY and no change; otherwise AddBatch with 16-bit ends |
| ModbusServerApp.Server.AddWordsFromArray | src/apps/ModbusServer.cpp:683-733 | a null or empty array is ERR_WORD_INVALID before the lock; without the lock ERR_WORD_BUSY; otherwise AddBatch with 32-bit ends; once running the batch is added whole or not at all |
| ModbusServerApp.Server.GetWord | src/apps/ModbusServer.cpp:740-759 | the empty word, or a stored word of the type containing the address; a word is returned exactly when findContaining as written finds one |
| ModbusServerApp.Server.WordExists | src/apps/ModbusServer.cpp:765-769 | true exactly when the first stored word of its type at its start address has its size |
| ModbusServerApp.Server.LookupExact | src/core/ModbusWord.hpp:133-145 | the first stored word of the type starting at the address, when there is one |
| ModbusServerApp.Server.NextGapEnd | src/apps/ModbusServer.cpp:280-285 | where the gap at the current address ends, from findNext |
| ModbusServerApp.Server.Scan | src/apps/ModbusServer.cpp:270-302 | the validation loop passes exactly when the validation scan specification does |
| ModbusServerApp.Server.ScanStep | src/apps/ModbusServer.cpp:271-301 | one step advances; a failing step means the scan fails, a passing one leaves the verdict to the rest of the scan |
| ModbusServerApp.Server.FillGapAt | src/apps/ModbusServer.cpp:313-339 | the gap loop leaves the response as the gap specification says and reports whether every write fitted |
| ModbusServerApp.Server.PutCoils | src/apps/ModbusServer.cpp:369-377 | the coil loop succeeds exactly when the coils fit below 2000, and then the response holds them from the given index |
| ModbusServerApp.Server.PutCoil | src/apps/ModbusServer.cpp:371-376 | one setCoils(&value, 1, c): succeeds exactly below coil 2000 and then forces that coil |
| ModbusServerApp.Server.PutWord | src/apps/ModbusServer.cpp:361-378 | a register read stores the values from the index when they fit below 125 registers; a coil read stores them as coils when they fit below 2000; other function codes change nothing |
| ModbusServerApp.Server.ReadInto | src/apps/ModbusServer.cpp:341-353 | the word buffer and exception are those the read specification gives |
| ModbusServerApp.Server.ReadGapAt | src/apps/ModbusServer.cpp:307-339 | a gap round leaves the response as the read step specification says |
| ModbusServerApp.Server.ReadWordAt | src/apps/ModbusServer.cpp:341-387 | reading a word and storing it leaves the response as the word-read specification says |
| ModbusServerApp.Server.ReadAt | src/apps/ModbusServer.cpp:303-390 | one round of the streaming loop matches the read step specification |
| ModbusServerApp.Server.ReadFoundAt | src/apps/ModbusServer.cpp:341-390 | the round for a found word matches the read step specification |
| ModbusServerApp.Server.StreamReadInto | src/apps/ModbusServer.cpp:303-390 | the streaming loop leaves the response, exception and handler calls of the streaming specification |
| ModbusServerApp.Server.HandleRead | src/apps/ModbusServer.cpp:256-395 | the result, the response and the read handlers called are those of HandleReadSpec, whose decisions HandleReadDecisions states |
| ModbusServerApp.Server.ReadAndReport | src/apps/ModbusServer.cpp:303-394 | the stream then the final count or exception, as the read tail specification says |
| ModbusServerApp.Server.StreamWriteAll | src/apps/ModbusServer.cpp:465-526 | the write loop yields the first exception and the writes of the write pass specification |
| ModbusServerApp.Server.WriteStep | src/apps/ModbusServer.cpp:468-526 | one step advances and either ends the pass as the specification says or leaves an equivalent remaining pass |
| ModbusServerApp.Server.WriteInto | src/apps/ModbusServer.cpp:488-517 | the exception and the write performed are those the word-write specification gives |
| ModbusServerApp.Server.HandleWrite | src/apps/ModbusServer.cpp:402-545 | the result, the response and the writes performed are those of HandleWriteSpec, whose decisions HandleWriteDecisions states |
| ModbusServerApp.Server.WriteAndReport | src/apps/ModbusServer.cpp:463-544 | the write pass then the exception or the echo, as the write tail specification says |
| ModbusServerApp.Server.HandleRequest | src/apps/ModbusServer.cpp:161-254 | the outcome is HandleRequestSpec's, whose properties HandleRequestProperties states |
| ModbusServerApp.Server.Answer | src/apps/ModbusServer.cpp:180-231 | the guard chain and handler give the outcome the guard specification gives |
| ModbusServerApp.Server.Serve | src/apps/ModbusServer.cpp:218-231 | a request past the guards gets the prepared response and the write or read handler, as specified |
| ModbusLegacyServer.EntryCheck | src/EZModbus/src/apps/ModbusServer.cpp:614-639 | a register is accepted exactly when its type is valid and it has a value variable, or a read handler with a write handler exactly when the type is writable; an invalid type is ERR_REG_INVALID_TYPE |
| ModbusLegacyServer.LowerBound | src/EZModbus/src/apps/ModbusServer.cpp:269-273 | the lower bound by address: every entry before it has a lower address, and the entry at it, if any, has an address at least the one sought |
| ModbusLegacyServer.LowerBoundIs | src/EZModbus/src/apps/ModbusServer.cpp:269-273 | any position with the lower-bound facts is the lower bound |
| ModbusLegacyServer.FindEntry | src/EZModbus/src/apps/ModbusServer.cpp:268-275 | a found entry is in the store with the address; on an ordered store a miss means no entry has the address |
| ModbusLegacyServer.InsertShape | src/EZModbus/src/apps/ModbusServer.cpp:351-359 | an insertion puts the entry at the lower bound, with the prefix before it and the rest after it |
| ModbusLegacyServer.InsertKeeps | src/EZModbus/src/apps/ModbusServer.cpp:351-359 | the insertion keeps the store ordered and adds only the new entry |
| ModbusLegacyServer.InsertAsWrittenEffect | src/EZModbus/src/apps/ModbusServer.cpp:338-361 | as written, re-adding an address grows the store by one; lookups find the new entry at its address and the old answer elsewhere |
| ModbusLegacyServer.InsertLookup | src/EZModbus/src/apps/ModbusServer.cpp:351-359 | where the lower bound of each address lands after an insertion |
| ModbusLegacyServer.UpsertEffect | src/EZModbus/src/apps/ModbusServer.cpp:69-93 | the corrected insertion replaces an entry at the same address, so the store grows only for a new address, as the documented overwrite promises |
| ModbusLegacyServer.ReplaceEffect | src/EZModbus/src/apps/ModbusServer.cpp:69-93 | replacing an entry at its own address keeps the order and every lookup position |
| ModbusLegacyServer.ReAddOverflowsAsWritten | src/EZModbus/src/apps/ModbusServer.cpp:86-91 | as written, re-adding a registered address to a full store passes the capacity check and grows the store past its capacity |
| ModbusLegacyServer.UpsertWithinCapacity | src/EZModbus/src/apps/ModbusServer.cpp:86-91 | with the corrected insertion the capacity check keeps the store within capacity |
| ModbusLegacyServer.InsertionsAgreeOnLookup | src/EZModbus/src/apps/ModbusServer.cpp:338-361 | both insertions answer every lookup alike |
| ModbusLegacyServer.Add | src/EZModbus/src/apps/ModbusServer.cpp:338-361 | adding a register touches no other register type's table; with the corrected insertion of Findings row 9 |
| ModbusLegacyServer.AddEffect | src/EZModbus/src/apps/ModbusServer.cpp:338-361 | adding keeps the tables well formed, makes the register's lookup find it, leaves other lookups unchanged, and grows a store only for a new address; about the corrected insertion of Findings row 9 |
| ModbusLegacyServer.AddAll | src/EZModbus/src/apps/ModbusServer.cpp:129-132 | a batch keeps the set of tables; with the corrected insertion of Findings row 9 |
| ModbusLegacyServer.LastAt | src/EZModbus/src/apps/ModbusServer.cpp:129-132 | the last register of a batch at a type and address, or none when the batch has none there |
| ModbusLegacyServer.AddAllWellFormed | src/EZModbus/src/apps/ModbusServer.cpp:129-132 | a batch of storable registers keeps the tables well formed |
| ModbusLegacyServer.AddAllKeeps | src/EZModbus/src/apps/ModbusServer.cpp:129-132 | a batch never removes an address from a store |
| ModbusLegacyServer.AddAllGrowth | src/EZModbus/src/apps/ModbusServer.cpp:104-127 | a store grows by at most the batch's registers of its type whose address it lacked, the count the validation pass makes; with the corrected insertion of Findings row 9 |
| ModbusLegacyServer.AddAllLookup | src/EZModbus/src/apps/ModbusServer.cpp:129-132 | after a batch, a lookup finds the variable of the batch's last register at that address, or the old answer |
| ModbusLegacyServer.NewCountPrefix | src/EZModbus/src/apps/ModbusServer.cpp:107-120 | a prefix of the batch counts no more new addresses than the batch |
| ModbusLegacyServer.NewCountStep | src/EZModbus/src/apps/ModbusServer.cpp:117-119 | one more register adds one to its type's count exactly when its address is new |
| ModbusLegacyServer.FirstInvalid | src/EZModbus/src/apps/ModbusServer.cpp:108-115 | the first register the entry check refuses, with every register before it accepted |
| ModbusLegacyServer.AcceptedBatchBounded | src/EZModbus/src/apps/ModbusServer.cpp:122-132 | an accepted batch leaves every store well formed and within capacity, with the corrected insertion of Findings row 9 |
| ModbusLegacyServer.NoTypeOverflows | src/EZModbus/src/apps/ModbusServer.cpp:123-127 | no overflow over the four types means no overflow for any one |
| ModbusLegacyServer.AcceptedRegisterStored | src/EZModbus/src/apps/ModbusServer.cpp:74-93 | an accepted register leaves the stores within capacity and is found at its address, with the corrected insertion of Findings row 9 |
| ModbusLegacyServer.RegisterAt | src/EZModbus/src/apps/ModbusServer.cpp:160-198 | the empty register for an unknown address; otherwise the stored register with the handlers of its callback pair, if it has one |
| ModbusLegacyServer.AccessOf | src/EZModbus/src/apps/ModbusServer.cpp:291-313 | a register with a value variable is read and written directly; otherwise through its pair's handler when the pair and the handler exist |
| ModbusLegacyServer.DirectWrite | src/EZModbus/src/apps/ModbusServer.cpp:222-228 | the direct write replaces the low 16 bits and keeps the high 16 bits, so a direct read returns the value written |
| ModbusLegacyServer.DirectWriteBack | src/EZModbus/src/apps/ModbusServer.cpp:210-228 | writing back what the direct read returned leaves the variable unchanged |
| ModbusLegacyServer.RegisterValueFails | src/EZModbus/src/apps/ModbusServer.cpp:499-510 | reading one address fails exactly when the store finds the register but it has no read path |
| ModbusLegacyServer.LastAddressRefusedAsWritten | src/EZModbus/src/apps/ModbusServer.cpp:457-462 | as written, a one-register read at address 0xFFFF is refused, though that address exists |
| ModbusLegacyServer.EndBeyondExact | src/EZModbus/src/apps/ModbusServer.cpp:457-462 | the corrected guard admits exactly the ranges whose every address is a 16-bit address |
| ModbusLegacyServer.RegistersFromKeeps | src/EZModbus/src/apps/ModbusServer.cpp:498-511 | the register loop answers NULL_EXCEPTION or ILLEGAL_DATA_ADDRESS and writes only positions of its range |
| ModbusLegacyServer.RegistersFromFails | src/EZModbus/src/apps/ModbusServer.cpp:498-511 | the register loop fails exactly when a register of the range cannot be read |
| ModbusLegacyServer.RegistersFromValues | src/EZModbus/src/apps/ModbusServer.cpp:498-511 | on success each position holds its register's value, 0 for an unknown address |
| ModbusLegacyServer.CoilBits | src/EZModbus/src/apps/ModbusServer.cpp:479-491 | one gathered coil per address of the range |
| ModbusLegacyServer.ReadDecisions | src/EZModbus/src/apps/ModbusServer.cpp:448-514 | a read past the address space is refused; with rejectUndefined a range is served exactly when all of it is readable; a served register read holds each register's value and zero past the count; the range guard is the corrected one of Findings row 10 |
| ModbusLegacyServer.ReadCoilsPacked | src/EZModbus/src/apps/ModbusServer.cpp:477-495 | a served coil read has coil i at bit i%16 of word i/16 and nothing past the count |
| ModbusLegacyServer.WriteValueOfPackedCoils | src/EZModbus/src/apps/ModbusServer.cpp:584-585 | the corrected value for coil i is coil i of the packed request |
| ModbusLegacyServer.SecondCoilLostAsWritten | src/EZModbus/src/apps/ModbusServer.cpp:584-585 | as written, writing the coils ON, ON writes the second coil OFF, because word 1 of the packed data is 0 |
| ModbusLegacyServer.WriteAt | src/EZModbus/src/apps/ModbusServer.cpp:572-590 | one write step fails with ILLEGAL_DATA_ADDRESS exactly when the register is found without a write path; it adds at most one handler call, for its own address and value; the value is the corrected coil value of Findings row 11 |
| ModbusLegacyServer.WritesFrom | src/EZModbus/src/apps/ModbusServer.cpp:571-591 | the write loop adds only handler calls for addresses of its range, keeps the set of variables, and never fails on an address when the range is all writable; with the corrected coil value of Findings row 11 |
| ModbusLegacyServer.WriteOutcome | src/EZModbus/src/apps/ModbusServer.cpp:524-591 | a zero count is ILLEGAL_DATA_VALUE and a range past the address space ILLEGAL_DATA_ADDRESS, both before any write; with rejectUndefined the write fails on addresses exactly when the range is not all writable; every handler call is accounted for by the request; the range guard is the corrected one of Findings row 10 |
| ModbusLegacyServer.Served | src/EZModbus/src/apps/ModbusServer.cpp:401-430 | the response answers the request; a read changes no variable and calls no write handler |
| ModbusLegacyServer.HandleSpec | src/EZModbus/src/apps/ModbusServer.cpp:367-446 | a broadcast is never answered; a sent frame answers the request; a request is dropped as ERR_RCV_WRONG_SLAVE_ID exactly when it is for another slave outside catch-all mode; success needs the lock, a request and a supported function code |
| ModbusLegacyServer.Server.constructor | src/EZModbus/src/apps/ModbusServer.cpp:14-22 | the server keeps its interface role, slave ID, rejectUndefined flag and capacity, with empty tables |
| ModbusLegacyServer.Server.Begin | src/EZModbus/src/apps/ModbusServer.cpp:28-44 | begin succeeds exactly for a server-role interface that takes the receive callback, else ERR_INIT_FAILED |
| ModbusLegacyServer.Server.SetRegisterCount | src/EZModbus/src/apps/ModbusServer.cpp:52-67 | a count over the capacity is ERR_REG_OVERFLOW, then ERR_REG_BUSY without the lock, then ERR_REG_INVALID_TYPE; success otherwise |
| ModbusLegacyServer.Server.Locate | src/EZModbus/src/apps/ModbusServer.cpp:269-273 | the binary search returns the lower bound |
| ModbusLegacyServer.Server.Find | src/EZModbus/src/apps/ModbusServer.cpp:268-275 | the binary-search lookup answers as FindEntry |
| ModbusLegacyServer.Server.GetRegister | src/EZModbus/src/apps/ModbusServer.cpp:160-164 | the register RegisterAt describes |
| ModbusLegacyServer.Server.AddInternal | src/EZModbus/src/apps/ModbusServer.cpp:338-361 | the tables become those of Add, with the corrected insertion |
| ModbusLegacyServer.Server.AddRegister | src/EZModbus/src/apps/ModbusServer.cpp:74-93 | the result follows the lock, the entry check and the capacity check; an accepted register is stored and found at its address; a refusal changes nothing; with the corrected insertion of Findings row 9 |
| ModbusLegacyServer.Server.ValidateBatch | src/EZModbus/src/apps/ModbusServer.cpp:107-120 | the validation pass stops at the first invalid register and otherwise counts each type's new addresses |
| ModbusLegacyServer.Server.CountNew | src/EZModbus/src/apps/ModbusServer.cpp:117-119 | the count of the register's type grows by one exactly when its address is new |
| ModbusLegacyServer.Server.BatchOverflows | src/EZModbus/src/apps/ModbusServer.cpp:122-127 | the capacity pass reports an overflow exactly when some type's store would pass its capacity |
| ModbusLegacyServer.Server.InsertBatch | src/EZModbus/src/apps/ModbusServer.cpp:129-132 | the insertion pass leaves the tables of AddAll; with the corrected insertion of Findings row 9 |
| ModbusLegacyServer.Server.AddRegisters | src/EZModbus/src/apps/ModbusServer.cpp:100-135 | all or nothing: the result follows the lock, the first invalid register and the capacity pass; an accepted batch is stored as AddAll says; a refusal changes nothing; with the corrected insertion of Findings row 9 |
| ModbusLegacyServer.Server.ClearAllRegisters | src/EZModbus/src/apps/ModbusServer.cpp:141-153 | succeeds exactly with the lock and then empties every store and the callback vector; otherwise ERR_REG_BUSY and nothing changes |
| ModbusLegacyServer.Server.ReadAt | src/EZModbus/src/apps/ModbusServer.cpp:499-509 | the lookup and read callback for one address give the register's value |
| ModbusLegacyServer.Server.CheckAccessible | src/EZModbus/src/apps/ModbusServer.cpp:464-475 | the rejectUndefined scan passes exactly when every address of the range is found and reachable |
| ModbusLegacyServer.Server.GatherCoils | src/EZModbus/src/apps/ModbusServer.cpp:479-491 | the gathering loop yields the coils CoilBits describes |
| ModbusLegacyServer.Server.ReadRegisters | src/EZModbus/src/apps/ModbusServer.cpp:498-511 | the register loop yields what RegistersFrom describes |
| ModbusLegacyServer.Server.HandleRead | src/EZModbus/src/apps/ModbusServer.cpp:448-514 | the read reply ReadReply describes; with the corrected range guard of Findings row 10 |
| ModbusLegacyServer.Server.WriteOne | src/EZModbus/src/apps/ModbusServer.cpp:573-589 | one pass of the write loop as WriteAt describes; with the corrected coil value of Findings row 11 |
| ModbusLegacyServer.Server.WriteLoop | src/EZModbus/src/apps/ModbusServer.cpp:571-591 | the write loop as WritesFrom describes; with the corrected coil value of Findings row 11 |
| ModbusLegacyServer.Server.HandleWrite | src/EZModbus/src/apps/ModbusServer.cpp:524-604 | the exception, the variables and the handler calls of WriteOutcome; with the corrected range guard and coil value of Findings rows 10 and 11 |
| ModbusLegacyServer.Server.Serve | src/EZModbus/src/apps/ModbusServer.cpp:401-430 | the response, the variables and the handler calls of Served |
| ModbusLegacyServer.Server.HandleRequest | src/EZModbus/src/apps/ModbusServer.cpp:367-446 | the result, the frame sent, the variables and the handler calls of HandleSpec |
| ModbusClient.BroadcastReadRefused | src/apps/ModbusClient.cpp:325-331 | a read sent to the broadcast address fails the frame check, so it is refused before anything is sent |
| ModbusClient.OversizeReadRefused | src/apps/ModbusClient.cpp:325-331 | a read of more than 125 registers or 2000 coils is refused as an invalid frame |
| ModbusClient.AdmittedCountFits | src/apps/ModbusClient.cpp:325-331 | an admitted register request has 1 to 125 registers, a coil request 1 to 2000 coils |
| ModbusClient.ResponseResult | src/apps/ModbusClient.cpp:181-182 | a delivered response gives ERR_EXCEPTION_RESPONSE exactly when it carries an exception, else SUCCESS |
| ModbusClient.SettleDelivers | src/apps/ModbusClient.cpp:442-531 | a request completes with SUCCESS, ERR_EXCEPTION_RESPONSE, ERR_TX_FAILED or ERR_TIMEOUT; a response is handed over exactly for the first two, and it is a RESPONSE with the request's function code, address and count, from the addressed slave unless catch-all is on, carrying an exception exactly for ERR_EXCEPTION_RESPONSE |
| ModbusClient.SettleBroadcast | src/apps/ModbusClient.cpp:452-456 | a broadcast never accepts a reply: it ends by its TX result or its timer, and a delivered response is the synthesised acknowledgement |
| ModbusClient.TimerBoundsWait | src/apps/ModbusClient.cpp:17-26 | with its timer armed, a request completes no later than the timer's first expiry |
| ModbusClient.TimeoutLostAsWritten | src/apps/ModbusClient.cpp:442-462 | as written, a reply from the wrong slave stops the timer before it is rejected, so a later expiry finds the timer stopped and the request never completes; with the timer stopped only on acceptance the request times out |
| ModbusClient.ResultCell.constructor | src/apps/ModbusClient.cpp:336-338 | a result tracker holds the value it is given |
| ModbusClient.PendingRequest.constructor | src/apps/ModbusClient.cpp:265-270 | a new pending request is idle |
| ModbusClient.PendingRequest.SetWithResponse | src/apps/ModbusClient.cpp:35-68 | refused while active, changing nothing; otherwise pending with the request's metadata, the response frame and tracker, no callback, and the timer armed |
| ModbusClient.PendingRequest.SetWithCallback | src/apps/ModbusClient.cpp:77-105 | refused while active, changing nothing; otherwise pending with the callback and its context, no response frame or tracker, and the timer armed |
| ModbusClient.PendingRequest.Clear | src/apps/ModbusClient.cpp:109-125 | the pending request is idle: inactive, without references, the timer stopped |
| ModbusClient.PendingRequest.StopTimer | src/apps/ModbusClient.cpp:227-231 | only the timer is disarmed |
| ModbusClient.PendingRequest.SetResult | src/apps/ModbusClient.cpp:150-172 | the tracker takes the result; a callback is invoked with the result and no response; with finalize the request becomes idle, otherwise nothing else changes |
| ModbusClient.PendingRequest.SetResponse | src/apps/ModbusClient.cpp:177-203 | the response is copied to the caller's frame, the tracker takes SUCCESS or ERR_EXCEPTION_RESPONSE, a callback gets the result and the response; with finalize the request becomes idle |
| ModbusClient.SyncOutcomeDelivers | src/apps/ModbusClient.cpp:321-396 | a synchronous request hands over a response exactly when it ends in SUCCESS or ERR_EXCEPTION_RESPONSE, and that response answers the admitted request |
| ModbusClient.ReadFc | src/apps/ModbusClient.cpp:564-579 | the read function code of each register type, none for another type |
| ModbusClient.WriteFc | src/apps/ModbusClient.cpp:623-657 | only coils and holding registers are written; the single-write code exactly for one value |
| ModbusClient.WordsWriteCarries | src/apps/ModbusClient.cpp:616-657 | a word write is sent exactly when its values fit the frame, and the request carries the slave, address, count, function code and the values (coils as their non-zero test) |
| ModbusClient.SingleCoilOnRefusedAsWritten | src/apps/ModbusClient.cpp:761-763 | as written, one ON coil leaves 0xFF00 in the data field, which the PDU encoder refuses as invalid data |
| ModbusClient.SingleCoilEncodes | src/apps/ModbusClient.cpp:761-763 | with ON stored as bit 0, a single-coil write encodes, ON as 0xFF00 and OFF as 0x0000 on the wire |
| ModbusClient.Client.constructor | src/apps/ModbusClient.cpp:265-270 | the client is not initialised and its pending request is idle |
| ModbusClient.Client.Begin | src/apps/ModbusClient.cpp:282-304 | a second call succeeds at once; a non-client or failing interface is ERR_INIT_FAILED; otherwise success exactly when the response callback is registered |
| ModbusClient.Client.HandleResponse | src/apps/ModbusClient.cpp:442-484 | SUCCESS exactly when a request is pending and accepts the reply; the pending request then changes as the event step says; with nothing pending nothing changes; the timer is stopped only on an accepted reply, the correction of Findings row 7 |
| ModbusClient.Client.AcceptResponse | src/apps/ModbusClient.cpp:470-483 | the request completes with the reply carrying the request's address and count |
| ModbusClient.Client.HandleTxResult | src/apps/ModbusClient.cpp:494-531 | with a request pending, the TX result acts as the event step says; otherwise it is ignored |
| ModbusClient.Client.AcknowledgeBroadcast | src/apps/ModbusClient.cpp:510-528 | a sent broadcast completes with SUCCESS and a response echoing the request |
| ModbusClient.Client.TimerFires | src/apps/ModbusClient.cpp:17-26 | with a request pending, the timer acts as the event step says; otherwise nothing changes |
| ModbusClient.Client.Deliver | src/apps/ModbusClient.cpp:17-26 | each event acts on a pending request as the event step says; a reply acts by the corrected step of Findings row 7 |
| ModbusClient.Client.SendRequest | src/apps/ModbusClient.cpp:321-396 | a non-request or invalid frame is ERR_INVALID_FRAME and a busy client ERR_BUSY, both changing nothing; a refused send is ERR_TX_FAILED; an asynchronous request is left pending with the tracker at NODATA; a synchronous one returns the outcome SyncOutcome gives and copies the delivered response |
| ModbusClient.Client.Launch | src/apps/ModbusClient.cpp:336-352 | the request becomes pending with the tracker at NODATA; a refused send completes it with ERR_TX_FAILED |
| ModbusClient.Client.AwaitCompletion | src/apps/ModbusClient.cpp:354-392 | without an event group ERR_BUSY; otherwise the outcome of the first completing event, or ERR_TIMEOUT when none completes; the pending request ends idle |
| ModbusClient.Client.SendRequestWithCallback | src/apps/ModbusClient.cpp:404-433 | the same refusals; a refused send invokes the callback with ERR_TX_FAILED; otherwise the request is pending with the callback |
| ModbusClient.Client.PrepareHelper | src/apps/ModbusClient.cpp:557-561 | the helper frame is a cleared request with the slave, address and count |
| ModbusClient.Client.Transact | src/apps/ModbusClient.cpp:582-604 | the helper's synchronous exchange returns SyncOutcome's result and reports the reply's exception code only for ERR_EXCEPTION_RESPONSE |
| ModbusClient.Client.ReadBack | src/apps/ModbusClient.cpp:585-594 | a coil read gives each coil as 0 or 1, a register read the registers |
| ModbusClient.Client.ReadWords | src/apps/ModbusClient.cpp:546-605 | a null buffer, zero quantity or unknown type is ERR_INVALID_FRAME; otherwise the exchange's result, and on SUCCESS the qty values of the reply |
| ModbusClient.Client.ReadTransact | src/apps/ModbusClient.cpp:581-604 | the exchange's result, and on SUCCESS the reply's values |
| ModbusClient.Client.ReadBools | src/apps/ModbusClient.cpp:686-727 | only coils and discrete inputs, else ERR_INVALID_FRAME; on SUCCESS the qty coils of the reply |
| ModbusClient.Client.CoilTransact | src/apps/ModbusClient.cpp:709-726 | the exchange's result, and on SUCCESS the reply's coils |
| ModbusClient.Client.WriteWords | src/apps/ModbusClient.cpp:616-675 | a null buffer, zero quantity or unwritable type is ERR_INVALID_FRAME, as are values that do not fit; otherwise the exchange of WordsWriteRequest's frame |
| ModbusClient.Client.StageWords | src/apps/ModbusClient.cpp:638-657 | the helper frame becomes WordsWriteRequest's frame when the values fit |
| ModbusClient.Client.WriteBools | src/apps/ModbusClient.cpp:738-787 | only coils; ERR_INVALID_FRAME for bad arguments or coils that do not fit; otherwise the exchange of BoolsWriteRequest's frame, one coil as a single-coil write with ON stored as bit 0, the correction of Findings row 8 (the source stores 0xFF00) |
| ModbusClient.Client.StageBools | src/apps/ModbusClient.cpp:760-769 | the helper frame becomes BoolsWriteRequest's frame when the coils fit; one ON coil stored as 1, the correction of Findings row 8 |
| ModbusFraming.RtuDecode | src/core/ModbusCodec.hpp:671-707 | a bad message type or CRC is refused with the frame untouched; success means a valid CRC, 4 to 256 bytes, a slave ID accepted for the type, and the frame takes that slave ID and the type |
| ModbusFraming.RtuEncode | src/core/ModbusCodec.hpp:714-735 | the result never exceeds the capacity; an invalid frame gives its error and no bytes; success means the bytes are the slave ID and the PDU followed by a valid CRC; an overflow means fewer than the PDU plus three bytes of room |
| ModbusFraming.RtuBuildException | src/core/ModbusCodec.hpp:820-836 | built exactly when the capacity is at least 5: slave ID, function code with bit 7 set, exception code, and a valid CRC |
| ModbusFraming.MbapReadBack | src/core/ModbusCodec.hpp:856-865 | each MBAP field reads back as written: transaction ID, protocol ID 0, length, unit ID |
| ModbusFraming.TcpEncodeLayout | src/core/ModbusCodec.hpp:927-953 | an encoded TCP frame is the MBAP header, whose length is the stored PDU length plus one, followed by the PDU as far as the capacity allows |
| ModbusFraming.TransactionIdBytes | src/core/ModbusCodec.hpp:892-893 | the transaction ID read from a frame writes back as its first two bytes |
| ModbusFraming.TcpDecode | src/core/ModbusCodec.hpp:878-918 | a bad message type is refused with the frame untouched; success means 8 to 260 bytes, an MBAP length equal to the PDU length plus one, protocol ID 0, and the frame takes the unit ID and the type |
| ModbusFraming.TcpEncode | src/core/ModbusCodec.hpp:927-953 | the result never exceeds the capacity; an invalid frame gives its error and no bytes; an overflow exactly when the capacity cannot hold the header |
| ModbusFraming.TcpBuildException | src/core/ModbusCodec.hpp:963-991 | built exactly when the capacity is at least 9: the MBAP header with length 3, then the function code with bit 7 set and the exception code |
| ModbusFraming.RtuDecodeFramed | src/core/ModbusCodec.hpp:671-707 | an RTU frame around a PDU that decodes decodes to that PDU's frame with the slave ID and type set |
| ModbusFraming.TcpDecodeFramed | src/core/ModbusCodec.hpp:878-918 | a TCP frame around a PDU that decodes decodes to that PDU's frame with the unit ID and type set |
| ModbusFraming.RtuRoundTrip | src/core/ModbusCodec.hpp:671-735 | with room for the largest RTU frame, every valid frame encodes and decodes back, through the corrected PDU decoder (Findings rows 1 and 2), to a frame carrying the same message, slave ID and type |
| ModbusFraming.TcpRoundTrip | src/core/ModbusCodec.hpp:878-953 | the same for TCP, with the transaction ID carried in the first two bytes, through the corrected PDU decoder (Findings rows 1 and 2) |
| ModbusFraming.TcpFramedDecodes | src/core/ModbusCodec.hpp:878-918 | a header announcing the PDU's length plus one, then the PDU, decodes to the PDU's frame with the unit ID, and carries the transaction ID |
| ModbusFraming.TcpEncodeWhole | src/core/ModbusCodec.hpp:927-953 | with room for the largest TCP frame, a valid frame's PDU is stored whole behind a header announcing its length plus one |
| ModbusFraming.ExceptionPduDecodes | src/core/ModbusCodec.hpp:820-836 | the PDU of an exception reply decodes, as a response, into that function code and exception |
| ModbusFraming.RtuExceptionDecodes | src/core/ModbusCodec.hpp:820-836 | an RTU exception reply for a regular slave decodes to that slave, function code and exception |
| ModbusFraming.TcpExceptionDecodes | src/core/ModbusCodec.hpp:963-991 | a TCP exception reply decodes to that unit, function code and exception |
| ModbusFraming.TcpExceptionFrameDecodes | src/core/ModbusCodec.hpp:963-991 | the header with length 3 and the exception PDU decode to that unit, function code and exception |
| ModbusFraming.RtuOverflow | src/core/ModbusCodec.hpp:714-735 | a valid frame overflows exactly when the slave ID, the PDU and the CRC do not all fit |
| ModbusFraming.CheckCrc | src/core/ModbusCodec.hpp:792-799 | the table-loop check agrees with validateCRC's definition |
| ModbusFraming.AppendCrcTo | src/core/ModbusCodec.hpp:806-811 | with two bytes free the buffer gains the CRC low byte first; otherwise it is untouched |
| ModbusFraming.RtuDecodeInto | src/core/ModbusCodec.hpp:671-707 | the status and the frame object are those RtuDecode gives |
| ModbusFraming.RtuEncodeTo | src/core/ModbusCodec.hpp:714-735 | the status and the buffer are those RtuEncode gives for the buffer's capacity |
| ModbusFraming.RtuEncodeParts | src/core/ModbusCodec.hpp:722-732 | once the PDU is written, the CRC is appended exactly when two bytes are free, otherwise an overflow |
| ModbusFraming.RtuBuildExceptionTo | src/core/ModbusCodec.hpp:820-836 | fills the buffer with the exception reply exactly when it holds 5 bytes; otherwise the buffer is untouched |
| ModbusFraming.TcpDecodeInto | src/core/ModbusCodec.hpp:878-918 | the status and the frame object are those TcpDecode gives |
| ModbusFraming.TruncateAfter | src/core/ModbusCodec.hpp:935-936 | a prefix that fits survives truncation whole |
| ModbusFraming.WriteMbapTo | src/core/ModbusCodec.hpp:856-865 | with room, the seven header bytes overwrite the buffer at the offset and nothing else changes; without room nothing changes |
| ModbusFraming.TcpEncodeTo | src/core/ModbusCodec.hpp:927-953 | the status and the buffer are those TcpEncode gives for the buffer's capacity |
| ModbusFraming.ReservedThenPdu | src/core/ModbusCodec.hpp:935-936 | writing the PDU at position 7 of an empty buffer leaves seven zero bytes then the PDU |
| ModbusFraming.WriteHeaderOver | src/core/ModbusCodec.hpp:939-950 | the header, with the stored PDU length plus one cast to 16 bits, replaces the seven reserved bytes |
| ModbusFraming.TcpBuildExceptionTo | src/core/ModbusCodec.hpp:963-991 | fills the buffer with the exception reply exactly when it holds 9 bytes; otherwise the buffer is untouched |
| ModbusFraming.MbapBytes | src/core/ModbusCodec.hpp:856-865 | the MBAP header is seven bytes |
| ModbusTcp.NextTid | src/interfaces/ModbusTCP.cpp:517-522 | the next transaction ID is never 0: the stored ID plus one, 0xFFFF wrapping to 1 |
| ModbusTcp.NextTidInjective | src/interfaces/ModbusTCP.cpp:517-522 | distinct non-zero IDs have distinct successors, so the IDs cycle through 1..0xFFFF |
| ModbusTcp.Ended | src/interfaces/ModbusTCP.cpp:543-551 | ending clears an open transaction (ID 0, no socket) and leaves a closed one as it is |
| ModbusTcp.NextAfterEnd | src/interfaces/ModbusTCP.cpp:517-551 | after a transaction ends, the client's next transaction ID is 1 |
| ModbusTcp.Receive | src/interfaces/ModbusTCP.cpp:291-349 | callbacks are notified exactly on success; a busy reply is only a server's, with ERR_BUSY |
| ModbusTcp.ClientDeliversMatching | src/interfaces/ModbusTCP.cpp:293-307 | a client delivers exactly the replies matching the open transaction's socket and ID, which ends it; anything else is ERR_RX_FAILED with the transaction kept |
| ModbusTcp.ServerBusyReply | src/interfaces/ModbusTCP.cpp:311-333 | a busy server delivers nothing and answers a unicast request with a 9-byte SLAVE_DEVICE_BUSY exception carrying the transaction ID, unit ID and function code |
| ModbusTcp.ServerOpensTransaction | src/interfaces/ModbusTCP.cpp:311-345 | a free server delivers the request and keeps the transaction open on its socket and ID, except a broadcast request, which ends it |
| ModbusTcp.AnnouncedLength | src/interfaces/ModbusTCP.cpp:406-408 | the frame length the MBAP length field announces is at least 6 |
| ModbusTcp.Assemble | src/interfaces/ModbusTCP.cpp:359-433 | the corrected assembly ends with SUCCESS, NODATA or ERR_RX_FAILED; on success the buffer holds exactly the frame its MBAP length announces, within capacity, and the transaction ID read from it |
| ModbusTcp.AssembleAsWritten | src/interfaces/ModbusTCP.cpp:359-433 | whenever the code as written succeeds, the corrected assembly gives the same result |
| ModbusTcp.ChunkReads | src/interfaces/ModbusTCP.cpp:384-401 | one read per chunk, delivering that chunk |
| ModbusTcp.AssembleSplit | src/interfaces/ModbusTCP.cpp:369-424 | however a whole frame is split over non-empty reads, the corrected assembly returns exactly that frame and its transaction ID |
| ModbusTcp.SplitFrameDroppedAsWritten | src/interfaces/ModbusTCP.cpp:406-431 | a frame arriving as its header plus one byte, then the rest, is dropped with ERR_RX_FAILED as written, and assembled by the corrected loop |
| ModbusTcp.Tcp.constructor | src/interfaces/ModbusTCP.cpp:14-29 | a new interface is not started, has no transaction and empty buffers; a server catches every unit ID |
| ModbusTcp.Tcp.Begin | src/interfaces/ModbusTCP.cpp:45-130 | a second call succeeds; an uninitialised driver is ERR_INIT_FAILED, a driver in the other role's mode ERR_INVALID_ROLE, a server whose driver is not listening or missing RTOS objects ERR_INIT_FAILED; success starts the interface with empty buffers |
| ModbusTcp.Tcp.NextOutgoingTransactionId | src/interfaces/ModbusTCP.cpp:517-522 | returns NextTid of the stored ID and stores it |
| ModbusTcp.Tcp.BeginTransaction | src/interfaces/ModbusTCP.cpp:529-539 | opens a transaction on the socket and ID exactly when the try-lock is taken and none is open; otherwise nothing changes |
| ModbusTcp.Tcp.EndTransaction | src/interfaces/ModbusTCP.cpp:543-551 | the transaction becomes Ended's |
| ModbusTcp.Tcp.AbortCurrentTransaction | src/interfaces/ModbusTCP.cpp:207-213 | ends the transaction only when the try-lock is taken |
| ModbusTcp.Tcp.IsReady | src/interfaces/ModbusTCP.cpp:191-202 | ready exactly when started, the TX lock is free, no frame waits, a client has no open transaction, and the driver is ready |
| ModbusTcp.Tcp.SendFrame | src/interfaces/ModbusTCP.cpp:141-186 | refusals in the source's order (ERR_NOT_INITIALIZED, ERR_BUSY, a server outside a transaction ERR_SEND_FAILED, ERR_INVALID_FRAME, a full queue ERR_BUSY), each reported to the callback; a client takes the next transaction ID, a server the open one; success leaves the encoded frame and its TX context waiting |
| ModbusTcp.Tcp.StageFrame | src/interfaces/ModbusTCP.cpp:162-182 | encodes into the TX buffer and records the TX context, or reports ERR_INVALID_FRAME or ERR_BUSY with the buffer empty |
| ModbusTcp.Tcp.EncodeForTx | src/interfaces/ModbusTCP.cpp:162-166 | succeeds exactly when the frame encodes, leaving its bytes; otherwise the TX buffer is empty |
| ModbusTcp.Tcp.HandleTxRequest | src/interfaces/ModbusTCP.cpp:439-511 | the waiting bytes are handed over and the TX buffer and context cleared; an empty buffer or a failed send is ERR_SEND_FAILED (a server then ends its transaction); a client's unicast opens a transaction on the socket used, or fails with ERR_SEND_FAILED or ERR_BUSY; otherwise the transaction ends; the callback gets the result |
| ModbusTcp.Tcp.HandleDecodedFrame | src/interfaces/ModbusTCP.cpp:291-349 | the result, the transaction, the busy reply and the callbacks notified are Receive's |
| ModbusTcp.Tcp.ProcessReceivedFrame | src/interfaces/ModbusTCP.cpp:265-282 | an empty or undecodable buffer is ERR_INVALID_FRAME with nothing changed; otherwise the decoded frame with the transaction ID from its first two bytes is handled as Receive says |
| ModbusTcp.Tcp.FetchSocketData | src/interfaces/ModbusTCP.cpp:359-433 | the RX buffer, result and transaction ID are the corrected assembly's; Findings row 12 |
| ModbusTcp.Tcp.AssembleStep | src/interfaces/ModbusTCP.cpp:369-424 | one pass of the loop either ends the assembly as specified or leaves an equivalent assembly of the remaining reads; an incomplete frame goes on to the next read, the correction of Findings row 12 |
| ModbusTcp.Tcp.CompleteFrame | src/interfaces/ModbusTCP.cpp:406-419 | done exactly when the header is in and the announced frame is whole; the buffer is then cut to that frame and its transaction ID read |
| ModbusTcp.Tcp.ReadSocketInto | src/interfaces/ModbusTCP.cpp:382-395 | the bytes read land after the old contents and the size is trimmed to them |
| ModbusTcp.Tcp.HandleRxEvent | src/interfaces/ModbusTCP.cpp:582-593 | an assembly that fails delivers nothing; a successful one is decoded as ReceivedType says and the RX buffer is cleared |
| ModbusRtu.SilenceUsForBaud | src/interfaces/ModbusRTU.cpp:158-175 | no silence time for baud 0; 1750 us above 19200 baud; otherwise 3.5 character times of 11 bits, each step rounded down as in integer arithmetic |
| ModbusRtu.SilenceUsAntitone | src/interfaces/ModbusRTU.cpp:168-175 | a slower line never gets a shorter silence time, and below 19200 baud it is longer than 1750 us |
| ModbusRtu.SilencePositive | src/interfaces/ModbusRTU.cpp:168-175 | every non-zero baud rate gets a non-zero silence time |
| ModbusRtu.RxAfterRead | src/interfaces/ModbusRTU.cpp:393-430 | a data event keeps the old bytes as a prefix and adds at most the free space, nothing when the driver delivers nothing |
| ModbusRtu.RtuEncodedNonEmpty | src/interfaces/ModbusRTU.cpp:221-226 | a frame that encodes leaves a non-empty TX buffer, so an accepted frame is always waiting to be sent |
| ModbusRtu.Rtu.constructor | src/interfaces/ModbusRTU.cpp:12-26 | a new interface is not started, with no silence time, empty buffers and no TX callback |
| ModbusRtu.Rtu.UpdateIdleDetection | src/interfaces/ModbusRTU.cpp:357-369 | succeeds exactly when the driver is registered and accepts the timeout, else ERR_CONFIG_FAILED |
| ModbusRtu.Rtu.SetSilenceTimeMs | src/interfaces/ModbusRTU.cpp:131-150 | the silence time becomes at least 1 ms; ERR_CONFIG_FAILED only when it changed on a running interface whose driver refuses it |
| ModbusRtu.Rtu.SetSilenceTimeBaud | src/interfaces/ModbusRTU.cpp:158-191 | baud 0 is ERR_CONFIG_FAILED with nothing changed; otherwise the time for the baud rate is stored, with ERR_CONFIG_FAILED only when a running interface's driver refuses the change |
| ModbusRtu.Rtu.Begin | src/interfaces/ModbusRTU.cpp:42-123 | a second call succeeds; otherwise success exactly when the event queue, the RTOS objects and the idle timeout are all available, and then the RX buffer is empty and the silence time is the one set or the baud rate's |
| ModbusRtu.Rtu.SendFrame | src/interfaces/ModbusRTU.cpp:202-247 | refusals in the source's order (ERR_NOT_INITIALIZED, ERR_BUSY, ERR_INVALID_FRAME, a full queue ERR_SEND_FAILED), each reported to the callback; success leaves the RTU encoding waiting with the callback stored |
| ModbusRtu.Rtu.EncodeForTx | src/interfaces/ModbusRTU.cpp:221-226 | succeeds exactly when the frame encodes, leaving its bytes; otherwise the TX buffer is empty |
| ModbusRtu.Rtu.IsReady | src/interfaces/ModbusRTU.cpp:252-257 | ready exactly when started, the TX lock is free and no frame waits |
| ModbusRtu.Rtu.ProcessReceivedFrame | src/interfaces/ModbusRTU.cpp:311-350 | an empty buffer is ERR_INVALID_FRAME; otherwise the bytes are decoded as ReceivedType says and a decoded frame notifies every registered callback |
| ModbusRtu.Rtu.HandleUartEvent | src/interfaces/ModbusRTU.cpp:386-465 | a data event reads at most the free space, flushing and failing on a full buffer or a driver error; on the silence flag the buffered bytes are decoded and the buffer cleared; overflow events flush; frame and parity errors fail without flushing |
| ModbusRtu.Rtu.PullBytes | src/interfaces/ModbusRTU.cpp:393-424 | fails exactly on a full buffer or a driver error, then leaving it empty; otherwise the buffer becomes RxAfterRead's |
| ModbusRtu.Rtu.ReadInto | src/interfaces/ModbusRTU.cpp:404-417 | the bytes read land after the old contents and the size is trimmed to them |
| ModbusRtu.Rtu.HandleTxRequest | src/interfaces/ModbusRTU.cpp:471-506 | SUCCESS exactly when a waiting frame is written in full, else ERR_SEND_FAILED; the callback gets the result, and the TX buffer and callback are cleared |
| ModbusInterface.ResultText | src/interfaces/ModbusInterface.hpp:55-76 | every interface result has its own non-empty text; the "Unknown error" fallback is never reached |
| ModbusInterface.ReceivedType | src/interfaces/ModbusTCP.cpp:271 | received frames are decoded as responses on the client side and as requests on the server side |
| ModbusInterface.FirstFree | src/interfaces/ModbusInterface.hpp:132-138 | the first empty slot, every slot before it filled; none only when every slot is filled |
| ModbusInterface.Registered | src/interfaces/ModbusInterface.hpp:149-155 | the registered callbacks, in slot order, no more than there are slots |
| ModbusInterface.RegisteredEmpty | src/interfaces/ModbusInterface.hpp:146-157 | nothing is registered exactly when every slot is empty, the ERR_NO_CALLBACKS case |
| ModbusInterface.RegisteredOfEmpties | src/interfaces/ModbusInterface.hpp:169 | a table of empty slots registers nothing |
| ModbusInterface.RegisterAppends | src/interfaces/ModbusInterface.hpp:132-138 | filling the first free slot of a table filled from the front appends the callback to the notification order |
| ModbusInterface.FirstFreeIs | src/interfaces/ModbusInterface.hpp:132-138 | the first empty index is the slot setRcvCallback fills |
| ModbusInterface.Interface.constructor | src/interfaces/ModbusInterface.hpp:166-172 | a new interface has its role, five empty slots and catch-all off |
| ModbusInterface.Interface.SetRcvCallback | src/interfaces/ModbusInterface.hpp:127-140 | a null function is ERR_INVALID_FRAME, a failed try-lock ERR_ADD_CALLBACK_BUSY, a full table ERR_TOO_MANY_CALLBACKS, all changing nothing; otherwise the first free slot takes the callback, which joins the end of the notification order |
| ModbusInterface.Interface.NotifyCallbacks | src/interfaces/ModbusInterface.hpp:146-157 | every registered callback is called once in slot order; SUCCESS exactly when there is one, else ERR_NO_CALLBACKS |
| ModbusBridge.Forward | src/apps/ModbusBridge.hpp:114-130 | the master side forwards exactly responses to the slave side, the slave side exactly requests to the master side, and never to its own side |
| ModbusBridge.ForwardNeverBounces | src/apps/ModbusBridge.hpp:114-130 | a forwarded frame is not forwarded back by the other side, so no frame bounces between the two interfaces |
| ModbusBridge.SideOf | src/apps/ModbusBridge.hpp:95-101 | the MASTER (client) role is the master side, the other role the slave side |
| ModbusBridge.ForwarderOf | src/apps/ModbusBridge.hpp:114-130 | the master side registers the response forwarder, the slave side the request forwarder |
| ModbusBridge.Bridge.constructor | src/apps/ModbusBridge.hpp:80-83 | the bridge keeps its two interfaces and has no sides assigned yet |
| ModbusBridge.Bridge.Begin | src/apps/ModbusBridge.hpp:88-136 | two interfaces of one role are ERR_INIT_FAILED with nothing touched; otherwise the MASTER one becomes the master side; a failing begin is ERR_INIT_FAILED with no callback registered; success exactly when both callbacks register, each side's forwarder then appended to its callbacks |
| ModbusBridge.Bridge.Deliver | src/apps/ModbusBridge.hpp:114-130 | a frame goes to the other side's interface exactly when Forward says so, and nowhere otherwise |
| ModbusDebug.Decimal | src/utils/ModbusDebug.cpp:51-58 | the decimal rendering of a number is non-empty, all digits, with no leading zero |
| ModbusDebug.DecimalRoundTrip | src/utils/ModbusDebug.cpp:51-58 | the decimal digits read back as the number rendered |
| ModbusDebug.DecimalLength | src/utils/ModbusDebug.cpp:52 | a number below 10^k renders in at most k digits |
| ModbusDebug.CRem | src/utils/ModbusDebug.cpp:55 | C's remainder lies strictly between -d and d and agrees with the mathematical one for a non-negative dividend |
| ModbusDebug.DigitsLsb | src/utils/ModbusDebug.cpp:54-57 | the itoa loop stores at least one character |
| ModbusDebug.DigitsLsbLength | src/utils/ModbusDebug.cpp:52 | a line number below 10^k in magnitude stores at most k characters, so the 10-cell buffer suffices for any 32-bit line |
| ModbusDebug.LineTextNatural | src/utils/ModbusDebug.cpp:51-58 | a non-negative line number renders as its decimal digits |
| ModbusDebug.DigitsStep | src/utils/ModbusDebug.cpp:54-57 | one itoa step stores '0' + n % 10 and continues with n / 10, as C truncates |
| ModbusDebug.StoreDigits | src/utils/ModbusDebug.cpp:52-57 | the do-while loop stores exactly the least-significant-first digits of the line, between 1 and 10 of them |
| ModbusDebug.Put | src/utils/ModbusDebug.cpp:33-35 | a character is stored only while the index is below the last cell; what is stored is the put text cut to the buffer |
| ModbusDebug.PutAll | src/utils/ModbusDebug.cpp:41 | putting a string stores the put text followed by the string, cut to the buffer less its terminator |
| ModbusDebug.PrefixOfLine | src/utils/ModbusDebug.cpp:37-60 | the prefix is "[", the basename, "::", the function name, ":", the line's decimal digits and "] " |
| ModbusDebug.BuildPrefix | src/utils/ModbusDebug.cpp:29-64 | an empty buffer is untouched and gives 0; otherwise the buffer holds the prefix cut to the buffer, then the terminator, and the count is its length; the file name is the corrected basename of Findings row 3 |
| ModbusDebug.Copy | src/utils/ModbusDebug.cpp:125 | a memcpy that fits leaves the earlier text and appends the copied string |
| ModbusDebug.HexDigit | src/utils/ModbusDebug.cpp:139 | the lookup table gives a hexadecimal digit whose value is the nibble |
| ModbusDebug.HexByte | src/utils/ModbusDebug.cpp:147-148 | a byte is two hexadecimal digits whose value, high nibble first, is the byte |
| ModbusDebug.HexWord | src/utils/ModbusDebug.cpp:313-321 | a register is "0x" and four hexadecimal digits |
| ModbusDebug.HexWordValue | src/utils/ModbusDebug.cpp:317-321 | the four digits read back, most significant first, as the register |
| ModbusDebug.HexRun | src/utils/ModbusDebug.cpp:141-151 | each byte takes three characters |
| ModbusDebug.HexRunAt | src/utils/ModbusDebug.cpp:146-150 | byte k's "XX " sits at characters 3k to 3k + 2 |
| ModbusDebug.HexdumpShown | src/utils/ModbusDebug.cpp:141-145 | the bytes shown are the longest run whose "XX " and terminator fit the buffer, and the loop stops only when one more would not fit |
| ModbusDebug.HexdumpFits | src/utils/ModbusDebug.cpp:153-157 | the hexdump line always fits the buffer with its terminator |
| ModbusDebug.HexdumpWhole | src/utils/ModbusDebug.cpp:119-158 | when there is room, the line is the prefix, "Hexdump: " and every byte as "XX " in order |
| ModbusDebug.HexdumpHeaderOverrunAsWritten | src/utils/ModbusDebug.cpp:121-126 | as written, a prefix that fills the buffer makes the unchecked header memcpy end 8 characters past the buffer |
| ModbusDebug.PutHexBytes | src/utils/ModbusDebug.cpp:141-151 | the byte loop appends the shown bytes as "XX " behind the header and stays within the buffer |
| ModbusDebug.Hexdump | src/utils/ModbusDebug.cpp:119-159 | LOG_HEXDUMP hands the sink the hexdump text of the prefix and the bytes, "<empty>" for no bytes; the header copy is clipped, the correction of Findings row 13 |
| ModbusDebug.DescTextShape | src/utils/ModbusDebug.cpp:173-184 | the header line keeps the prefix, fits the buffer, ends in the colon exactly when the prefix leaves room, and is prefix, description and ":" when all fit |
| ModbusDebug.DescLine | src/utils/ModbusDebug.cpp:170-184 | the header line is the prefix, the description (or "Frame" for none) cut to fit, and the colon |
| ModbusDebug.SlaveDigitsDecimal | src/utils/ModbusDebug.cpp:226-240 | the three digit cases write exactly the decimal digits of the slave ID |
| ModbusDebug.SlaveLine | src/utils/ModbusDebug.cpp:222-242 | the slave ID line is the label followed by the ID's digits |
| ModbusDebug.StoreDigits16 | src/utils/ModbusDebug.cpp:247-254 | the address and count digit loop stores 1 to 5 digits, least significant first |
| ModbusDebug.NumberLine | src/utils/ModbusDebug.cpp:244-262 | the address and count lines are the label followed by the value's decimal digits |
| ModbusDebug.Regs | src/utils/ModbusDebug.cpp:297-325 | each register takes seven characters |
| ModbusDebug.RegsAt | src/utils/ModbusDebug.cpp:310-324 | register j's "0xXXXX" sits at characters 7j to 7j + 5, followed by a space |
| ModbusDebug.PutRegs | src/utils/ModbusDebug.cpp:297-325 | the register loop writes the first min(count, 33) registers as "0xXXXX " behind the label |
| ModbusDebug.DataTextRegisters | src/utils/ModbusDebug.cpp:282-332 | corrected (Findings row 14; the source shows 32 for 34 or more): the data line shows the first min(count, 33) registers in order, each at its place, leaves room for the CRLF, and ends in "..." exactly when registers are left out |
| ModbusDebug.DataLineDropsRegisterAsWritten | src/utils/ModbusDebug.cpp:299-307 | as written, 34 registers log only 32 before "..." because the index steps back over the 33rd; with the index kept, 33 are shown |
| ModbusDebug.DataLine | src/utils/ModbusDebug.cpp:282-332 | the data line is the data text of the frame's registers and count; with the corrected cut of Findings row 14 |
| ModbusDebug.DecimalLineReads | src/utils/ModbusDebug.cpp:244-262 | a label followed by a number's digits reads back as that number |
| ModbusDebug.HexLineReads | src/utils/ModbusDebug.cpp:196-220 | a label followed by a byte's two hex digits reads back as that byte |
| ModbusDebug.FrameLinesAt | src/utils/ModbusDebug.cpp:167-347 | LOG_FRAME logs six lines, one more for data and one more for an exception, with the function code, slave ID, address, count and exception each on its own line |
| ModbusDebug.FrameLinesReadBack | src/utils/ModbusDebug.cpp:167-347 | every number LOG_FRAME logs reads back as the frame's field: slave ID, address and count in decimal, function and exception code in hexadecimal |
| ModbusDebug.LogFrame | src/utils/ModbusDebug.cpp:167-347 | LOG_FRAME hands the sink exactly the frame's lines in order, with the corrected data line of Findings row 14 |
| ModbusLogSink.CLen | src/utils/ModbusLogSink.cpp:65 | strlen finds the first terminator, with none before it |
| ModbusLogSink.CLenAt | src/utils/ModbusLogSink.cpp:84 | a terminator with none before it is where strlen stops |
| ModbusLogSink.StripEol | src/utils/ModbusLogSink.cpp:64-68 | stripping leaves a prefix of the text that does not end in CR or LF, and everything removed is CR or LF |
| ModbusLogSink.StripEolUnique | src/utils/ModbusLogSink.cpp:64-68 | the stripped text is the only such prefix: exactly the trailing CR/LF run is removed |
| ModbusLogSink.NormalizeShape | src/utils/ModbusLogSink.cpp:64-90 | a message is the stripped text cut to 253 characters followed by exactly one CRLF, 2 to 255 characters long, and when the text fits, what precedes the CRLF is the text and ends in no CR or LF |
| ModbusLogSink.NormalizeKeepsCString | src/utils/ModbusLogSink.cpp:82-87 | the message of a C string has no embedded terminator |
| ModbusLogSink.NormalizeIgnoresEnding | src/utils/ModbusLogSink.cpp:64-80 | a line already ending in any mix of CR and LF gets the same message as the bare line |
| ModbusLogSink.PutEol | src/utils/ModbusLogSink.cpp:70-80 | CRLF and the terminator go behind the text when they fit, otherwise over the last three cells; nothing after the terminator changes |
| ModbusLogSink.StripLen | src/utils/ModbusLogSink.cpp:65-68 | the loop stops at the length of the stripped text |
| ModbusLogSink.EndLine | src/utils/ModbusLogSink.cpp:64-87 | the buffer ends up holding the normalised message and its terminator, and the message copied out is the normalised text |
| ModbusLogSink.NormalizeLine | src/utils/ModbusLogSink.cpp:53-87 | a null or empty buffer gives "\r\n" and leaves the buffer alone; otherwise the buffer's C string is normalised in place and copied out |
| ModbusLogSink.Vsnprintf | src/utils/ModbusLogSink.cpp:102 | a formatting error gives a negative count and no write; otherwise the count is the full length and the buffer holds the text cut to 255 characters, terminated |
| ModbusLogSink.FormatLine | src/utils/ModbusLogSink.cpp:98-138 | logf's buffer ends up holding the normalised formatted text, cut to 255 characters or empty on an error |
| ModbusLogSink.LogfText | src/utils/ModbusLogSink.cpp:105-113 | the text logf normalises is a prefix of the formatted text of at most 255 characters |
| ModbusLogSink.LogfMatchesLogln | src/utils/ModbusLogSink.cpp:98-141 | a formatting error sends "\r\n" as logln does for an empty buffer, and a formatted text that fits sends what logln sends for it |
| ModbusLogSink.ElapsedModular | src/utils/ModbusLogSink.cpp:172-175 | the wrap-around branch of the elapsed time is subtraction modulo 2^32 |
| ModbusLogSink.PrintRun | src/utils/ModbusLogSink.cpp:164-194 | the print loop never counts more characters sent than the message holds |
| ModbusLogSink.PrintRunBounds | src/utils/ModbusLogSink.cpp:164-194 | the loop finishes normally exactly when it has sent the whole message; an error, a timeout or an over-report stops it short |
| ModbusLogSink.PrintRunPartialWrites | src/utils/ModbusLogSink.cpp:182-193 | partial writes that add up to the message send the whole message |
| ModbusLogSink.PositiveTotal | src/utils/ModbusLogSink.cpp:185-191 | calls that each print something advance by at least one character each |
| ModbusLogSink.PrintLoop | src/utils/ModbusLogSink.cpp:160-194 | the loop hands the printer the rest of the message each time, and what it prints is the first characters the print run accounts for |
| ModbusLogSink.LogSink.constructor | src/utils/ModbusLogSink.cpp:19-21 | a new sink is not initialised and its queue is empty |
| ModbusLogSink.LogSink.Begin | src/utils/ModbusLogSink.cpp:27-46 | the sink becomes initialised when it was, or when the queue and the task are created; the queue is untouched |
| ModbusLogSink.LogSink.SendToQueue | src/utils/ModbusLogSink.cpp:155-206 | before the scheduler runs the message is printed directly and nothing changes; otherwise the sink starts itself if needed and the message is appended exactly when it is initialised and the queue has room |
| ModbusLogSink.LogSink.Logln | src/utils/ModbusLogSink.cpp:53-90 | logln sends the normalised C string of the buffer ("\r\n" for none), queued or printed directly as SendToQueue says |
| ModbusLogSink.LogSink.Logf | src/utils/ModbusLogSink.cpp:98-141 | logf sends the normalised formatted text, queued or printed directly as SendToQueue says |
| ModbusLogSink.LogSink.LogTaskStep | src/utils/ModbusLogSink.cpp:212-253 | the task takes the oldest message off the queue and prints it with the millisecond clock; an empty queue changes nothing |
| ModbusLogger.LoglnReadBack | src/utils/ModbusLogger.hpp:138-158 | the logln message is a C string of 2 to 255 characters ending in CRLF; before the CRLF is the line itself when shorter than 253 characters, otherwise its first 250 characters and "..." |
| ModbusLogger.LogfReadBack | src/utils/ModbusLogger.hpp:161-188 | the logf message is 2 to 255 characters ending in exactly one CRLF with no CR or LF before it, carrying the formatted text cut to 255 and stripped, or its first 250 characters and "..." |
| ModbusLogger.LogfIgnoresEnding | src/utils/ModbusLogger.hpp:166-171 | a short formatted line gets the same logf message whatever CR/LF it already ends with |
| ModbusLogger.LoglnCutsWhatLogfKeeps | src/utils/ModbusLogger.hpp:147-185 | on a 253-character line logln cuts to 250 characters and "..." while logf keeps the whole line and its CRLF in 255 characters |
| ModbusLogger.StrCpy | src/utils/ModbusLogger.hpp:148 | strcpy leaves the string and a terminator |
| ModbusLogger.StrCat | src/utils/ModbusLogger.hpp:149 | strcat puts the string over the old terminator and terminates the result |
| ModbusLogger.BuildLogln | src/utils/ModbusLogger.hpp:138-156 | logln's buffer operations build exactly the logln message |
| ModbusLogger.ClearEol | src/utils/ModbusLogger.hpp:166-171 | the pointer loop leaves the stripped text terminated, so strlen gives its length |
| ModbusLogger.BuildLogf | src/utils/ModbusLogger.hpp:161-186 | logf's buffer operations build exactly the logf message |
| ModbusLogger.Logger.constructor | src/utils/ModbusLogger.hpp:207-211 | a new logger is not initialised and its queue is empty |
| ModbusLogger.Logger.Begin | src/utils/ModbusLogger.hpp:111-135 | the logger becomes initialised when it was, or when queue, event group and task are created, with the empty bit set; the queue is untouched |
| ModbusLogger.Logger.SendToQueue | src/utils/ModbusLogger.hpp:214-232 | a direct write changes nothing; otherwise the logger starts itself if needed and the message is appended exactly when it is initialised and the queue has room |
| ModbusLogger.Logger.SendText | src/utils/ModbusLogger.hpp:235-240 | the text overload queues the text cut to 255 characters |
| ModbusLogger.Logger.Logln | src/utils/ModbusLogger.hpp:138-158 | logln queues the logln message of the line, when it is queued at all |
| ModbusLogger.Logger.Logf | src/utils/ModbusLogger.hpp:161-188 | logf queues the logf message of the formatted text, when it is queued at all |
| ModbusLogger.Logger.LogTaskStep | src/utils/ModbusLogger.hpp:243-256 | the task writes out the oldest message and removes it, keeping the empty bit set exactly while the queue is empty; an empty queue changes nothing |
| ModbusLogger.Logger.WaitQueueFlushed | src/utils/ModbusLogger.hpp:191-205 | the wait returns at once exactly when the logger never started or its queue is empty |
| ModbusTestAgent.Strtol2 | test/test_rtu_server_loopback/ModbusTestAgent.h:155-156 | strtol in base 16 on two characters reads both hex digits, stops at the first non-digit, and reads 0 when no digit comes first |
| ModbusTestAgent.Bytes | test/test_rtu_server_loopback/ModbusTestAgent.h:142-160 | hex text yields at most one byte per two characters |
| ModbusTestAgent.ToBytes | test/test_rtu_server_loopback/ModbusTestAgent.h:142-160 | the toBytes loop, separators skipped one at a time and an odd last character dropped, gives exactly Bytes of the text |
| ModbusTestAgent.ToHexStr | test/test_rtu_server_loopback/ModbusTestAgent.h:122-138 | toHexStr appends "XX " per byte and removes the last space |
| ModbusTestAgent.HexTextShape | test/test_rtu_server_loopback/ModbusTestAgent.h:122-138 | toHexStr's text is empty for no bytes, otherwise 3n - 1 characters, byte k's two uppercase digits at 3k with single spaces between |
| ModbusTestAgent.HexByteReads | test/test_rtu_server_loopback/ModbusTestAgent.h:155-156 | a byte's two hex digits read back by strtol give the byte |
| ModbusTestAgent.ByteTextReads | test/test_rtu_server_loopback/ModbusTestAgent.h:146-157 | a byte's digits and a space, followed by any text, read as the byte and then that text |
| ModbusTestAgent.BytesOfHexRun | test/test_rtu_server_loopback/ModbusTestAgent.h:142-160 | a run of "XX " followed by any text reads as the run's bytes and then the text |
| ModbusTestAgent.HexRunReadsBack | test/test_rtu_server_loopback/ModbusTestAgent.h:142-160 | a run of "XX " reads back as its bytes |
| ModbusTestAgent.HexTextReadsBack | test/test_rtu_server_loopback/ModbusTestAgent.h:122-160 | toBytes(toHexStr(b)) is b |
| ModbusTestAgent.HexRunCons | test/test_rtu_server_loopback/ModbusTestAgent.h:126-130 | the hex run is the first byte's digits, a space and the run of the rest |
| ModbusTestAgent.HexRunAt | test/test_rtu_server_loopback/ModbusTestAgent.h:126-130 | byte k's digits sit at 3k and a space at 3k + 2 |
| ModbusTestAgent.Compare | test/test_rtu_server_loopback/ModbusTestAgent.h:106-119 | compare is true exactly when the bytes equal what the hex text reads as |
| ModbusTestAgent.CompareHexText | test/test_rtu_server_loopback/ModbusTestAgent.h:106-138 | bytes compare equal to toHexStr of a frame exactly when they are that frame |
| ModbusTestAgent.TestAgent.constructor | test/test_rtu_server_loopback/ModbusTestAgent.h:19-23 | a new agent keeps its silence time, has no frame in progress, no frame queued and a zero clock |
| ModbusTestAgent.TestAgent.Poll | test/test_rtu_server_loopback/ModbusTestAgent.h:46-62 | the bytes read are appended to the frame in progress and stamp the clock; after the silence time a non-empty frame is queued and the buffer cleared, the elapsed time taken modulo 2^32 |
| ModbusTestAgent.TestAgent.Fetch | test/test_rtu_server_loopback/ModbusTestAgent.h:65-80 | the oldest frame leaves the queue; with none, an empty frame and an empty queue |
| ModbusTestAgent.TestAgent.Peek | test/test_rtu_server_loopback/ModbusTestAgent.h:83-88 | the oldest frame or an empty one, without removal |
| ModbusTestAgent.TestAgent.Clear | test/test_rtu_server_loopback/ModbusTestAgent.h:91-98 | the queue ends empty |
| ModbusTestAgent.TestAgent.HasData | test/test_rtu_server_loopback/ModbusTestAgent.h:101-103 | true exactly when a frame is queued |
| ModbusTestAgent.FetchInOrder | test/test_rtu_server_loopback/ModbusTestAgent.h:46-80 | two frames each closed by a silence are fetched in arrival order and leave the queue empty |
| ModbusDmx.ScaleToDmx | examples/platformio/dmx/ModbusDMX.h:139-142 | the level is the nearest one: a register value lies within 128 of 257 times its level |
| ModbusDmx.ScaleToModbus | examples/platformio/dmx/ModbusDMX.h:144-146 | a level scales up to 257 times itself, so 0 stays 0 and 255 becomes 65535 |
| ModbusDmx.ScaleRoundTrip | examples/platformio/dmx/ModbusDMX.h:139-146 | scaling a level up and back down gives the level |
| ModbusDmx.ScaleToDmxMonotone | examples/platformio/dmx/ModbusDMX.h:139-142 | scaling down keeps the order of register values |
| ModbusDmx.Channel | examples/platformio/dmx/ModbusDMX.h:97 | the channel key start + i is taken modulo 2^16, as the map's uint16_t key keeps it |
| ModbusDmx.ChannelLevels | examples/platformio/dmx/ModbusDMX.h:95-98 | every written channel maps to its value scaled down |
| ModbusDmx.ChannelLevelsKeys | examples/platformio/dmx/ModbusDMX.h:95-98 | the map holds no channel other than the written ones |
| ModbusDmx.ScaledLevels | examples/platformio/dmx/ModbusDMX.h:114-120 | a read returns count values, each channel's level scaled up, starting at the addressed channel |
| ModbusDmx.SendFrame | examples/platformio/dmx/ModbusDMX.h:59-130 | a non-request succeeds untouched; an address outside 1..512 is ERR_INVALID_FRAME; the three handled function codes behave as their cases say; any other is ERR_INVALID_MSG_TYPE |
| ModbusDmx.WriteSingle | examples/platformio/dmx/ModbusDMX.h:72-89 | missing data is ERR_INVALID_FRAME; otherwise the scaled value goes to its channel, a driver failure is ERR_SEND_FAILED, and a successful non-broadcast write echoes the register value |
| ModbusDmx.WriteMultiple | examples/platformio/dmx/ModbusDMX.h:90-109 | fewer values than the count is ERR_INVALID_FRAME; otherwise the channel map of the first count values is set, a driver failure is ERR_SEND_FAILED, and a successful non-broadcast write answers with address and count |
| ModbusDmx.ReadChannels | examples/platformio/dmx/ModbusDMX.h:110-122 | a zero count or a range past channel 512 is ERR_INVALID_FRAME; otherwise the response carries the channels' levels scaled up, even for a broadcast |

## Left out

- RTOS concurrency is not modelled: tasks, mutexes, queues, queue sets, software timers and event groups. Lock and queue outcomes are inputs, and a blocking wait becomes a step that either has an event to take or ends.
- The client's timeout timer and synchronous wait are modelled by the order of events they see, not by time.
- The time-based TCP transaction safety timeout and frame-assembly timeout are left out. The assembly loop ends when the reads run out.
- The RX/TX task loops of the TCP and RTU interfaces are modelled one round at a time. Their delays and blocking receives are left out.
- The UART, socket and HAL drivers are outside the model. Their results are parameters.
- Floating point is left out: `Frame::getFloat`/`setFloat` and `floatToRegisters`/`registersToFloat` reinterpret IEEE-754 bits.
- The event bus is left out; it is a FreeRTOS queue wrapper.
- `computePduLength` is not modelled, because no path of the codec calls it.
- `WordStore::reserve` is not modelled, because it does nothing.
- `LOG_MSG` and `LOG_MSGF_CTX` (src/utils/ModbusDebug.cpp:71-112) are not modelled. They copy a message behind the prefix and then run `vsnprintf`, whose formatting is outside the model.
- `setPrintFunction` is not modelled. The print function is represented by the results it reports.
- `vsnprintf` and `snprintf` formatting are outside the model. The formatted text is an input, and for the log sink so is a formatting error.
- ModbusLogger.BuildLogf: a negative return of `snprintf` is not modelled, since the buffer's contents after such an error are not defined.
- Message texts are C strings with no terminator inside them. Text after an embedded terminator is not modelled, because every C function the source calls stops there.
- ModbusLogSink.LogSink.LogTaskStep and ModbusLogger.Logger.LogTaskStep take one message off the queue per round. The blocking receive, the 5 ms and 10 ms delays and the check interval are left out.
- `LogSink::waitQueueFlushed` is left out; it is a fixed 100 ms delay.
- ModbusLogger.Logger.WaitQueueFlushed states when the wait returns at once, not how long a blocking wait lasts.
- `writeOutput` (the logger's UART or console write) and `EZMODBUS_LOG_FLUSH` are outside the model. A written message is returned instead.
- The test agent's `send` (UART write and debug log), `flushRxBuffer` and the debug prints in `poll` and `fetch` are not modelled. `micros()` is an input.
- ModbusTestAgent.Strtol2 does not read a leading '-' as a sign, because `toBytes` skips '-' as a separator before `strtol` sees it.
- The DMX interface's `begin` and `isReady` are not modelled: they only start the DMX driver, which is outside the model, and `isReady` returns true.
- ModbusServerApp.Server.GetWord keeps the source's `findContaining` scan, which can miss a word. The corrected scan is modelled and proved beside it (see Findings).
- ModbusServerApp.Server.AddWords keeps the 16-bit word ends of the vector overload, as the source does (see Findings).
- ModbusCodec.DecodePdu runs the corrected decoders of Findings rows 1 and 2. A write-multiple-registers request keeps its register count, where the source's `clearData()` resets it to 0. A read-coils response with more than 2000 coils is refused with ERR_INVALID_BYTE_COUNT, where the source writes past the data array. The source's reset is stated by ModbusCodec.WriteRegistersCountLostAsWritten and its overrun by ModbusCodec.CoilResponseOverrunAsWritten. The overrun is undefined behaviour with no value to model. The reset would make every 0x10 request fail in the server, against the codec's own round-trip test.
- ModbusCodec.DecodeFieldsDispatch states the dispatch to the corrected write-multiple-registers decoder (Findings row 2). The source's branch resets the count to 0 after decoding it.
- ModbusCodec.WriteRegistersRequestRoundTrip holds for the corrected decoder only (Findings row 2). The source decodes every 0x10 request with count 0, as ModbusCodec.WriteRegistersCountLostAsWritten states.
- ModbusCodec.PduRoundTrip holds for the corrected decoder (Findings rows 1 and 2). For a 0x10 request the source gives back count 0, not the encoded fields.
- ModbusCodec.PduDecodes is about the corrected decoder (Findings rows 1 and 2). The source gives a 0x10 request back with count 0.
- ModbusCodecInPlace.DecodeCoilsOrReadRequestInto refuses a read-coils response with more than 2000 coils (Findings row 1). The source accepts it and writes past the frame's data array, which is undefined behaviour.
- ModbusCodecInPlace.DecodeWriteRegistersRequestInto keeps the register count (Findings row 2). The source resets it to 0.
- ModbusCodecInPlace.SetFromBytes equals the corrected ModbusCodec.DecodePdu (Findings rows 1 and 2), so a 0x10 request keeps its count where the source's `setFromBytes` leaves 0.
- ModbusFraming.RtuRoundTrip holds for the corrected PDU decoder (Findings rows 1 and 2). `RTU::decode` in the source returns a 0x10 request with count 0.
- ModbusFraming.TcpRoundTrip holds for the corrected PDU decoder (Findings rows 1 and 2). `TCP::decode` in the source returns a 0x10 request with count 0.
- ModbusServerApp.Server.Begin runs the corrected overlap check ModbusServerApp.Server.NoOverlapsOfType (Findings row 6). The source's walk starts after address 0, so holding-register words over 0..1 and at 1 pass and `begin` succeeds. ModbusServerSpec.NoOverlapsMissAsWritten states that case. The correction keeps the server's later lookups on a store without overlaps, which they rely on.
- ModbusLegacyServer.Add uses the corrected insertion ModbusLegacyServer.Upsert (Findings row 9). Re-adding an address replaces its entry, where the source's `addRegisterInternal` inserts a second one. The source's insertion is ModbusLegacyServer.InsertAsWritten; ModbusLegacyServer.ReAddOverflowsAsWritten shows the overflow it allows. The corrected insertion follows the "will overwrite it" comment at src/EZModbus/src/apps/ModbusServer.cpp:71.
- ModbusLegacyServer.AddEffect is about the corrected insertion (Findings row 9). The source's insertion grows the store on every add, not only for a new address.
- ModbusLegacyServer.AddAll uses the corrected insertion (Findings row 9). A re-added address replaces its entry instead of adding a second one.
- ModbusLegacyServer.AddAllGrowth bounds the growth of the corrected insertion (Findings row 9). In the source a re-added address counts 0 in the validation pass but still grows the store by one.
- ModbusLegacyServer.AcceptedBatchBounded holds for the corrected insertion (Findings row 9). In the source, a batch that re-adds addresses of a full store passes and overfills it.
- ModbusLegacyServer.AcceptedRegisterStored holds for the corrected insertion (Findings row 9). In the source, re-adding to a full store is accepted and overfills it, as ModbusLegacyServer.ReAddOverflowsAsWritten states.
- ModbusLegacyServer.Server.AddInternal uses the corrected insertion (Findings row 9). It replaces the entry of a re-added address instead of inserting a second one.
- ModbusLegacyServer.Server.AddRegister uses the corrected insertion (Findings row 9). It replaces the entry of a re-added address instead of inserting a second one.
- ModbusLegacyServer.Server.InsertBatch uses the corrected insertion (Findings row 9). It replaces the entry of a re-added address instead of inserting a second one.
- ModbusLegacyServer.Server.AddRegisters uses the corrected insertion (Findings row 9). It replaces the entry of a re-added address instead of inserting a second one.
- ModbusLegacyServer.ReadDecisions uses the corrected range guard ModbusLegacyServer.EndBeyond (Findings row 10). A one-register read at 0xFFFF is served, where the source refuses it, as ModbusLegacyServer.LastAddressRefusedAsWritten states.
- ModbusLegacyServer.WriteOutcome uses the corrected range guard (Findings row 10). A one-register write at 0xFFFF is served, where the source refuses it.
- ModbusLegacyServer.Server.HandleRead uses the corrected range guard (Findings row 10). A one-register read at 0xFFFF is served, where the source refuses it.
- ModbusLegacyServer.Server.HandleWrite uses the corrected range guard (Findings row 10) and the corrected coil value (Findings row 11). A write at 0xFFFF is served where the source refuses it, and coils ON, ON set the second coil ON where the source sets it OFF.
- ModbusLegacyServer.WriteAt uses the corrected coil value ModbusLegacyServer.WriteValue (Findings row 11). Coil i takes bit i of the packed request data. The source takes data word i, so writing ON, ON sets the second coil OFF, as ModbusLegacyServer.SecondCoilLostAsWritten states.
- ModbusLegacyServer.WritesFrom uses the corrected coil value (Findings row 11). Writing ON, ON sets the second coil ON, where the source sets it OFF.
- ModbusLegacyServer.Server.WriteOne uses the corrected coil value (Findings row 11). Writing ON, ON sets the second coil ON, where the source sets it OFF.
- ModbusLegacyServer.Server.WriteLoop uses the corrected coil value (Findings row 11). Writing ON, ON sets the second coil ON, where the source sets it OFF.
- ModbusClient.Client.HandleResponse uses the corrected timer rule (Findings row 7). It stops the request timer only when it accepts a reply. The source stops the timer first, so after a rejected reply an asynchronous request never completes, as ModbusClient.TimeoutLostAsWritten states. The correction lets ModbusClient.TimerBoundsWait state that every request ends.
- ModbusClient.Client.Deliver acts on a reply by the corrected step (Findings row 7). A rejected reply leaves the timer running, where the source stops it.
- ModbusClient.Client.WriteBools stores one ON coil as bit 0 (Findings row 8), so the single-coil write is sent. The source stores 0xFF00, which its encoder refuses, so the source's write fails; ModbusClient.SingleCoilOnRefusedAsWritten states that.
- ModbusClient.Client.StageBools stores one ON coil as 1, the corrected storage of Findings row 8. The source stores 0xFF00.
- ModbusTcp.Tcp.FetchSocketData returns the corrected frame assembly ModbusTcp.Assemble (Findings row 12). A frame that arrives as its header and one byte, then the rest, is assembled. The source leaves its read loop and drops it with ERR_RX_FAILED, as ModbusTcp.SplitFrameDroppedAsWritten states. The correction follows the source's own comment "break the loop to read again".
- ModbusTcp.Tcp.AssembleStep goes on to the next read when a pass finds the frame incomplete (Findings row 12). The source's pass leaves the loop there.
- ModbusDebug.BuildPrefix names the file by the corrected basename (Findings row 3), so "a/\b" shows "b" where the source shows "\b". Only the log prefix is affected.
- ModbusDebug.Hexdump clips the header copy to the buffer (Findings row 13). The source copies it without a bounds check, which is undefined behaviour for a long prefix, as ModbusDebug.HexdumpHeaderOverrunAsWritten states.
- ModbusDebug.DataLine shows 33 registers and then "..." for 34 or more registers (Findings row 14). The source steps back over the 33rd and shows 32, as ModbusDebug.DataLineDropsRegisterAsWritten states.
- ModbusDebug.LogFrame builds its data line with the corrected ModbusDebug.DataLine (Findings row 14), so it shows 33 registers where the source shows 32.
- Register values that handlers and direct pointers provide are inputs (`Handlers` and the legacy server's `memory`). The user code behind them is outside the model.

## Findings

| source | as written | input that shows it | evidently intended | confidence | as-written member | corrected member |
|---|---|---|---|---|---|---|
| src/core/ModbusCodec.hpp:243-256 | a read-coils response is checked only against the PDU length, so a byte count up to 251 passes and `extractCoils` stores 8 coils per byte | a 253-byte read-coils response PDU with byte count 251: 2008 coils, past the 125 data words | a byte count of at most 250 (2000 coils), otherwise ERR_INVALID_BYTE_COUNT | high (not executed) | ModbusCodec.CoilResponseOverrunAsWritten | ModbusCodec.CoilResponseBounded |
| src/core/ModbusCodec.hpp:326-339 | the write-multiple-registers request decoder sets the count, then calls `clearData()`, which resets it to 0 | any well-formed 0x10 request, for instance one register at address 0 | `clearData(false)`, keeping the count the PDU carries | high (not executed) | ModbusCodec.WriteRegistersCountLostAsWritten | ModbusCodecInPlace.DecodeWriteRegistersRequestInto |
| src/core/ModbusTypes.hpp:396-409 | `getBasename` skips a backslash only when it comes after the position the slash rule starts from | the path "a/\b" has basename "\b" | the text after the last separator of either kind, "b" | medium (not executed) | ModbusBuffer.LeadingBackslashKept | ModbusBuffer.BasenameIsLastComponent |
| src/core/ModbusWord.hpp:160-177 | `findContaining` stops scanning backward at the first word of another type | a holding-register word over 0..9 and a coil word at 5: holding register 7 is not found | skip words of other types and find any word that covers the address | high (not executed) | ModbusWordStore.ContainingMissAsWritten | ModbusWordStore.ContainingFixedExact |
| src/apps/ModbusServer.cpp:644-663 | the vector `addWords` computes word ends in 16 bits, so a word ending at 0x10000 gets end 0 | two acceptable words at the top of the address space that overlap each other pass the batch test | 32-bit ends, as the pointer overload uses | medium (not executed) | ModbusServerSpec.BatchClash16Misses | ModbusServerApp.Server.AddWordsFromArray |
| src/apps/ModbusServer.cpp:785-810 | the overlap check starts its walk with `findNext(type, 0)`, which skips a word at address 0 | holding-register words over 0..1 and at 1 pass the check | start the walk at the first word of the type | high (not executed) | ModbusServerSpec.NoOverlapsMissAsWritten | ModbusServerApp.Server.NoOverlapsOfType |
| src/apps/ModbusClient.cpp:442-462 | a reply stops the request timer before it is matched to the request | a reply from the wrong slave, then the timer's expiry: the expiry finds the timer stopped and the request never completes | stop the timer only when the reply is accepted, so the request times out | high (not executed) | ModbusClient.TimeoutLostAsWritten | ModbusClient.TimerBoundsWait |
| src/apps/ModbusClient.cpp:761-763 | writing one coil stores the wire value 0xFF00 in the data field | `write` with one coil ON: the PDU encoder refuses the frame as invalid data | store ON as bit 0 and let the encoder produce 0xFF00 | high (not executed) | ModbusClient.SingleCoilOnRefusedAsWritten | ModbusClient.SingleCoilEncodes |
| src/EZModbus/src/apps/ModbusServer.cpp:338-361 | re-adding a registered address inserts a second entry instead of replacing the first | re-adding a registered address to a full store passes the capacity check and grows the store past its capacity | replace the entry at that address | medium (not executed) | ModbusLegacyServer.ReAddOverflowsAsWritten | ModbusLegacyServer.UpsertWithinCapacity |
| src/EZModbus/src/apps/ModbusServer.cpp:457-462 | the range guard refuses a range that ends at the last address | a one-register read at address 0xFFFF is refused, though the address exists | refuse only ranges that pass address 0xFFFF | high (not executed) | ModbusLegacyServer.LastAddressRefusedAsWritten | ModbusLegacyServer.EndBeyondExact |
| src/EZModbus/src/apps/ModbusServer.cpp:584-585 | a coil write takes coil i's value from data word i, not from bit i of the packed data | writing the coils ON, ON writes the second coil OFF | read coil i as bit i of the packed coils | high (not executed) | ModbusLegacyServer.SecondCoilLostAsWritten | ModbusLegacyServer.WriteValueOfPackedCoils |
| src/interfaces/ModbusTCP.cpp:406-431 | `fetchSocketData` leaves its read loop with `break` when a frame is incomplete | a frame arriving as its header and one byte, then the rest, is dropped with ERR_RX_FAILED | read again until the frame is whole, as the comment says | high (not executed) | ModbusTcp.SplitFrameDroppedAsWritten | ModbusTcp.AssembleSplit |
| src/utils/ModbusDebug.cpp:121-126 | `LOG_HEXDUMP` copies its header behind the prefix without a bounds check | a function name that fills the buffer: the copy ends 8 characters past the buffer | bound the header copy like the rest of the line | high (not executed) | ModbusDebug.HexdumpHeaderOverrunAsWritten | ModbusDebug.HexdumpFits |
| src/utils/ModbusDebug.cpp:299-307 | when the data line runs out of room, the index steps back to 256 - 13 before "..." | a frame of 34 registers logs 32 of them before "...", although the 33rd had been written | write "..." where the registers end | high (not executed) | ModbusDebug.DataLineDropsRegisterAsWritten | ModbusDebug.DataTextRegisters |
