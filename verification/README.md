# fins-rust in Dafny

A model of the protocol core of fins-rust, a client for OMRON's FINS protocol spoken over TCP. It covers:

- the byte-order integer wrappers of `fins_util` (`u16be`, `i32le`, ...);
- the FINS codecs of the `fins` crate: the information control field (ICF), machine addresses, memory area codes, memory addresses and their `Debug` text, the 10-byte FINS header, the request/response command headers and the `trye!` macro, and the 18-byte memory area read request;
- the FINS/TCP layer of `fins_tcp`: command codes, the 16-byte `FINS` envelope header, the protocol-violation checks and their messages, the 20-byte client address frame and the 24-byte server address frame;
- the buffered read loop of `fins_client` that pulls a server address frame out of a socket, and the per-response node checks of the pipelined read.

Every `Raw*` packed struct is a fixed-length `seq<byte>`. Each `serialize`/`to_raw`/`write_to` is a pure function that produces those bytes, and each `deserialize`/`from_raw`/`read_from` is a pure function to a `Result`.

A `read_from` over a `Read` stream is a function of the bytes available. It returns the value together with the number of bytes consumed. Running short of bytes gives the I/O error `UnexpectedEof`, as `read_exact` does.

The client's socket reads become a `Delivery` parameter: either the bytes one `read` returned or the error kind it failed with. One turn of the reading loop is the state transition `StreamReader.Step`. The frame parser is a parameter of that step.

Modelling choices:

- A `u8` is `Num.byte`, an integer in 0..255. The ICF's `|`, `&` and `<<` on `u8` are stated bit by bit: `Icf.Bit(v, w)` is the bit of weight `w`, and `Icf.AndEquals` is `v & mask == value`, spelled out for all eight bits.
- A failed `try_into().unwrap()` on a node number above 255 panics in fins-rust. Here it is the error `NodeDoesNotFitU8(n)`.
- The `panic!("Frame does not fit in read buffer!")` of the read loop is the outcome `BufferFull`.
- The `fins` crate is caught mid-refactor, and the model follows the evident intent:
  - `RawHeader::deserialize` (fins/src/header.rs:28-38) builds a `Header` without wrapping it in `Ok`. It is modelled as returning `Ok(header)`, with the ICF failure propagated by `?`.
  - `RawMemoryAreaCode::deserialize` (fins/src/memory_area_code.rs:12-17) names an error variant `InvalidMemoryAddressCode` that `fins::Error` does not have. It is modelled as `ProtocolViolation::InvalidMemoryAreaCode(raw)`, the variant declared in fins/src/protocol_violation.rs:3-7, wrapped in the crate's `Error`.
- The `Display` arms written as `todo!()` (fins_tcp/src/protocol_violation.rs:39-41) panic in fins-rust. `TcpProtocol.Describe` returns `None` for them.

## Model

| member | source | states |
|---|---|---|
| Num.BeBytes | fins_util/src/num.rs:23-26 | the big-endian byte array of a value has exactly the wrapper's width |
| Num.BeBytesValue | fins_util/src/num.rs:23-31 | reading back the big-endian bytes of any value below 256^n gives the value |
| Num.BeValueBytes | fins_util/src/num.rs:14-21 | every big-endian byte array is the encoding of the number it denotes |
| Num.LeBytes | fins_util/src/num.rs:23-26 | the little-endian array of a value below 256^n has n bytes and reads back as the value |
| Num.U16Bytes | fins_util/src/num.rs:56 | `u16be::from_u16(v)` holds two bytes whose big-endian value is v |
| Num.U16Of | fins_util/src/num.rs:56 | `to_u16` of two bytes is the value whose big-endian encoding is those bytes |
| Num.U32Bytes | fins_util/src/num.rs:58 | `u32be::from_u32(v)` holds four bytes whose big-endian value is v |
| Num.U32Of | fins_util/src/num.rs:58 | `to_u32` of four bytes is the value whose big-endian encoding is those bytes |
| Num.TwosComplement | fins_util/src/num.rs:57-63 | a signed in-range value maps to an unsigned bit pattern below the modulus |
| Num.FromTwosComplement | fins_util/src/num.rs:57-63 | every bit pattern below the modulus denotes an in-range native value |
| Num.TwosComplementInverse | fins_util/src/num.rs:57-63 | decoding then re-encoding a bit pattern gives it back |
| Num.FromNative | fins_util/src/num.rs:23-26 | `from_uN`/`from_iN` produces a wrapper of the right width and kind |
| Num.ToNative | fins_util/src/num.rs:28-31 | `to_uN`/`to_iN` yields a value in the native type's range |
| Num.NativeRoundTrip | fins_util/src/num.rs:23-46 | `to_uN(from_uN(v)) == v` for all sixteen wrapper kinds, including the `From` conversions in both directions |
| Num.BytesRoundTrip | fins_util/src/num.rs:13-21 | `from_bytes` then the native value and back gives the same byte array: every array is the image of exactly one value |
| Num.BigEndianBytesExample | fins_util/src/num.rs:122-127 | `i32be::from(0x11223344).to_bytes()` is 11 22 33 44 |
| Num.LittleEndianBytesExample | fins_util/src/num.rs:128-131 | `i32le::from(0x11223344).to_bytes()` is 44 33 22 11 |
| Num.NegativeBytesExample | fins_util/src/num.rs:57 | `i16be::from(-2)` is stored in two's complement as FF FE |
| Num.U16RoundTrip | fins_util/src/num.rs:56 | `u16be::from_u16(v).to_u16() == v` |
| Num.U16BytesRoundTrip | fins_util/src/num.rs:56 | any two bytes read as a `u16be` and written back are unchanged |
| Num.U32RoundTrip | fins_util/src/num.rs:58 | `u32be::from_u32(v).to_u32() == v` |
| Num.U32BytesRoundTrip | fins_util/src/num.rs:58 | any four bytes read as a `u32be` and written back are unchanged |
| Num.U16BytesDigits | fins_util/src/num.rs:56 | a `u16be` holds the high byte first and the low byte second |
| Num.U32BytesOfSmall | fins_util/src/num.rs:58 | a `u32be` below 256 is three zero bytes followed by the value |
| Num.PackedThingLayout | fins_util/src/num.rs:106-120 | the packed `{u8, u16be, u64be}` record is 11 bytes with fields at offsets 0, 1 and 3, each reading back unchanged |
| Icf.MaskMeaning | fins/src/information_control_field.rs:40 | `bits & 0b10111110 == 0b10000000` holds exactly when bit 7 is set and bits 1 to 5 are clear |
| Icf.FramedBytes | fins/src/information_control_field.rs:40 | exactly the bytes 80, 81, C0 and C1 pass the mask test |
| Icf.TestBits | fins/src/information_control_field.rs:3-5 | `v & b == b` holds exactly when every bit set in b is set in v; for the single-bit masks 40 and 01 it is that bit of v |
| Icf.FlagsIdentifyVariant | fins/src/information_control_field.rs:16-25 | two fields that agree on `is_request` and `requires_response` are the same variant |
| Icf.FromFlags | fins/src/information_control_field.rs:16-25 | every pair of flag values is the pair of `is_request` and `requires_response` of some variant |
| Icf.Serialize | fins/src/information_control_field.rs:27-30 | the top bit is always set; bit 6 is set iff the field is a response; bit 0 is set iff no response is required; bits 1 to 5 are clear |
| Icf.Deserialize | fins/src/information_control_field.rs:38-51 | accepts a byte iff it passes the mask test, otherwise fails with `InvalidInformationControlField(raw)`; an accepted byte is the serialization of the result; request iff bit 6 clear, response required iff bit 0 clear |
| Icf.RoundTrip | fins/src/information_control_field.rs:58-63 | deserializing a serialized field gives the field back |
| Icf.AcceptedBytes | fins/src/information_control_field.rs:38-51 | deserialization succeeds exactly on 80, 81, C0 and C1 |
| Icf.Literals | fins/src/information_control_field.rs:65-83 | the four variants serialize to 80, 81, C0 and C1, and 00 is rejected |
| MachineAddresses.ToRaw | fins/src/machine_address.rs:21-24 | the raw address holds network, node and unit in that order |
| MachineAddresses.FromRaw | fins/src/machine_address.rs:26-29 | every raw address is the image of the address read from it |
| MachineAddresses.RoundTrip | fins/src/machine_address.rs:21-29 | `from_raw(to_raw(a)) == a` |
| AreaCodes.Serialize | fins/src/memory_area_code.rs:26-30 | area D is written as 0x82 |
| AreaCodes.Deserialize | fins/src/memory_area_code.rs:12-17 | succeeds iff the byte is 0x82, and then serializes back to it; any other byte fails as an invalid memory area code carrying that byte |
| AreaCodes.RoundTrip | fins/src/memory_area_code.rs:12-30 | every area code survives serialize then deserialize |
| AreaCodes.Name | fins/src/memory_area_code.rs:21-23 | the derived `Debug` name of area D is the single letter `D` |
| FinsLib.Trye | fins/src/lib.rs:22-29 | `trye!` returns the error of a failed result unchanged and continues with the value of a successful one |
| FinsLib.RequestHeaderBytes | fins/src/lib.rs:31-39 | the request header is 2 bytes: main then sub request code |
| FinsLib.ParseRequestHeader | fins/src/lib.rs:31-39 | every 2-byte array is the image of the request header read from it |
| FinsLib.RequestHeaderRoundTrip | fins/src/lib.rs:31-39 | reading back a written request header gives it back |
| FinsLib.ResponseHeaderBytes | fins/src/lib.rs:43-57 | the response header is 4 bytes: main and sub request code, main and sub response code |
| FinsLib.ParseResponseHeader | fins/src/lib.rs:43-57 | every 4-byte array is the image of the response header read from it |
| FinsLib.ResponseHeaderRoundTrip | fins/src/lib.rs:43-57 | reading back a written response header gives it back |
| MemoryAddresses.Serialize | fins/src/memory_address.rs:26-32 | byte 0 is the area code, bytes 1-2 hold the offset big-endian, byte 3 the bit number |
| MemoryAddresses.Deserialize | fins/src/memory_address.rs:12-15 | an invalid area code is propagated as the result's error; otherwise it succeeds with the offset and bits read from their bytes, and the address serializes back to the input |
| MemoryAddresses.RoundTrip | fins/src/memory_address.rs:12-32 | deserializing a serialized memory address gives it back |
| MemoryAddresses.SerializeExample | fins/src/memory_address.rs:49-55 | D100 serializes to 82 00 64 00 |
| MemoryAddresses.SerializeExampleD1500 | fins/src/memory_address.rs:26-32 | D1500, the address the client reads, serializes to 82 05 DC 00 |
| MemoryAddresses.DebugTextExamples | fins/src/memory_address.rs:35-43 | the `Debug` text is `D100` without bits and `D100.3` with bit 3 |
| MemoryAddresses.DebugTextDot | fins/src/memory_address.rs:35-43 | the text carries a dot exactly when the bit number is non-zero |
| MemoryAddresses.DebugTextInjective | fins/src/memory_address.rs:35-43 | two addresses with the same `Debug` text are equal |
| MemoryAddresses.DebugText | fins/src/memory_address.rs:35-43 | the `Debug` text starts with the area name and the decimal offset, and is exactly that iff the bit number is 0; otherwise the rest is a dot followed by a decimal numeral that reads back as the bit number |
| Text.Decimal | fins/src/memory_address.rs:38 | `{}` prints a non-empty string of digits with no leading zero; it starts with `0` only for zero |
| Text.DecimalRoundTrip | fins/src/memory_address.rs:38 | the decimal text `{}` prints for a number reads back as that number |
| Text.DecimalInjective | fins/src/memory_address.rs:38 | different numbers print differently |
| Text.Hex2 | fins_tcp/src/protocol_violation.rs:31 | `{:02X}` prints a byte as exactly two upper-case hex digits, high nibble first, that read back as the byte |
| Text.Hex2Examples | fins_tcp/src/protocol_violation.rs:31 | AB prints as `AB` (letters in upper case), 0F as `0F` (zero-padded to two digits) and FF as `FF` |
| Text.Hex2Injective | fins_tcp/src/protocol_violation.rs:31 | different bytes print differently under `{:02X}` |
| FinsHeaders.Serialize | fins/src/header.rs:53-64 | the 10 bytes are ICF, reserved 00, gateway count, destination, source and service id, in the struct's field order |
| FinsHeaders.Deserialize | fins/src/header.rs:28-38 | fails iff the ICF byte is invalid, with that byte in the error; on success re-serializing gives the input with the reserved byte zeroed |
| FinsHeaders.RoundTrip | fins/src/header.rs:28-64 | deserializing a serialized header gives it back |
| FinsHeaders.ReservedByteIgnored | fins/src/header.rs:28-38 | the reserved byte does not influence deserialization |
| FinsHeaders.TestHeaderBytes | fins/src/header.rs:73-79 | the test's header serializes to 80 00 02 03 04 05 06 07 08 09, destination before source |
| FinsHeaders.SourceFirstLayoutDisagrees | fins/src/header.rs:81-92 | the byte order the test expects puts the source first; it matches the serialization exactly when source and destination are equal |
| ReadRequests.ByteSize | fins/src/memory_area_read_request.rs:44-46 | the request is 18 bytes long |
| ReadRequests.FinsHeaderOf | fins/src/memory_area_read_request.rs:15-29 | the request's FINS header is a request that wants a response, addressed to the server node from the client node, with network and unit 0 on both sides |
| ReadRequests.WriteTo | fins/src/memory_area_read_request.rs:13-42 | the written request is `byte_size()` bytes long |
| ReadRequests.WriteToLayout | fins/src/memory_area_read_request.rs:13-42 | the bytes read back as the FINS header of the request, the read command 01 01, the memory address and the big-endian count |
| ReadRequests.WriteToHeaderBytes | fins/src/memory_area_read_request.rs:15-34 | the header is 80 00 02, then destination 00/server node/00, source 00/client node/00 and service id 00, then 01 01 |
| ReadRequests.WriteToInjective | fins/src/memory_area_read_request.rs:13-42 | two requests that write the same bytes are the same request |
| ReadRequests.WriteToExample | fins_client/src/main.rs:74-83 | the client's request for 16 words at D1500 is written byte for byte |
| TcpProtocol.RawCodeBytes | fins_tcp/src/command_code.rs:9-11 | the raw command codes are 0, 1 and 2 as big-endian u32 |
| TcpProtocol.ToU32 | fins_tcp/src/command_code.rs:13-15 | the native value of a raw command code is the number whose big-endian encoding is the raw code |
| TcpProtocol.ToRaw | fins_tcp/src/command_code.rs:26-32 | client address, server address and FINS map to raw codes 0, 1 and 2 |
| TcpProtocol.FromRaw | fins_tcp/src/command_code.rs:34-41 | succeeds iff the raw code is 0, 1 or 2, and the result maps back to it; any other code fails with `UnknownCommand(raw)` |
| TcpProtocol.CommandRoundTrip | fins_tcp/src/command_code.rs:26-41 | `from_raw(to_raw(c)) == Ok(c)` |
| TcpProtocol.AssertHeaderLength | fins_tcp/src/protocol_violation.rs:47-53 | succeeds iff the lengths are equal, otherwise reports both |
| TcpProtocol.AssertCommand | fins_tcp/src/protocol_violation.rs:55-64 | succeeds iff the commands are equal, otherwise reports both |
| TcpProtocol.AssertNoError | fins_tcp/src/protocol_violation.rs:66-72 | succeeds iff the error code is 0, otherwise reports it |
| TcpProtocol.FromFins | fins_tcp/src/protocol_violation.rs:20-24 | a FINS violation becomes the `Fins` variant carrying that same violation |
| TcpProtocol.Lift | fins_tcp/src/error.rs:10-14 | `?` on a violation keeps the success value and wraps the error as a protocol violation |
| TcpProtocol.FromFinsError | fins_tcp/src/error.rs:28-37 | an I/O error stays an I/O error of the same kind, and a FINS violation becomes the violation `Fins` of that same violation |
| TcpProtocol.FromFinsErrorInjective | fins_tcp/src/error.rs:28-37 | the conversion loses nothing: distinct FINS errors stay distinct |
| TcpProtocol.HexQuad | fins_tcp/src/protocol_violation.rs:29-33 | four bytes print as eight hex characters |
| TcpProtocol.Describe | fins_tcp/src/protocol_violation.rs:26-45 | the message is absent exactly for the three `todo!()` variants |
| TcpProtocol.HexQuadExample | fins_tcp/src/protocol_violation.rs:85-87 | bytes 01 52 32 99 print as `01523299` |
| TcpProtocol.MagicMessageExample | fins_tcp/src/protocol_violation.rs:80-89 | the bad-magic message for 01 52 32 99 is the text the test expects |
| TcpProtocol.HexQuadPair | fins_tcp/src/protocol_violation.rs:29-33 | characters 2i and 2i+1 of the hex text are byte i in `{:02X}` |
| TcpProtocol.HexQuadInjective | fins_tcp/src/protocol_violation.rs:29-33 | different magic strings print differently |
| TcpProtocol.MagicMessageInjective | fins_tcp/src/protocol_violation.rs:29-33 | the bad-magic message identifies the bytes received |
| TcpProtocol.MagicMessage | fins_tcp/src/protocol_violation.rs:29-33 | the bad-magic message is the fixed prefix, then each of the four bytes received as two upper-case hex digits in order, then the fixed suffix naming `0x46494E53` |
| TcpHeaders.ToRaw | fins_tcp/src/header.rs:37-44 | bytes 0-3 are `FINS`, then the length, the command code and the error code, each a big-endian u32 that reads back as the field |
| TcpHeaders.ToRawSmall | fins_tcp/src/header.rs:37-44 | with length and error code below 256 the header is `FINS`, 00 00 00 length, the command, 00 00 00 error code |
| TcpHeaders.FromRaw | fins_tcp/src/header.rs:46-55 | a wrong magic fails with `IncorrectMagicString` carrying those 4 bytes, checked before the command; otherwise an unknown command fails; success iff both are right, and then the header writes back to the input |
| TcpHeaders.FieldsRebuildRaw | fins_tcp/src/header.rs:46-55 | the fields read from a well-formed header write back to the same 16 bytes |
| TcpHeaders.RoundTrip | fins_tcp/src/header.rs:37-55 | `from_raw(to_raw(h)) == Ok(h)` |
| TcpHeaders.BadMagicExample | fins_tcp/src/header.rs:47-49 | a header starting `GINS` is rejected with those bytes |
| TcpHeaders.ReadFrom | fins_tcp/src/header.rs:28-30 | fewer than 16 bytes is `UnexpectedEof`; a header that fails `from_raw` fails with its violation; success consumes exactly 16 bytes |
| TcpHeaders.ReadWritten | fins_tcp/src/header.rs:28-35 | reading a written header, whatever follows it, gives the header and consumes 16 bytes |
| TcpHeaders.ExpectHeader | fins_tcp/src/client_address_frame.rs:39-41 | the three checks pass iff the header is exactly (length, command, 0); the first failing check, in source order, is the one reported |
| ClientAddressFrames.WriteTo | fins_tcp/src/client_address_frame.rs:19-30 | 20 bytes: the envelope header (length 12, client address, no error) and the node as a big-endian u32 |
| ClientAddressFrames.ReadFrom | fins_tcp/src/client_address_frame.rs:32-48 | header errors propagate, then the first failing envelope check; success consumes 20 bytes that are the writing of the result |
| ClientAddressFrames.ReadBody | fins_tcp/src/client_address_frame.rs:43-47 | after a good header: `UnexpectedEof` iff fewer than 20 bytes; a node above 255 is `NodeDoesNotFitU8`; success iff the node fits, consuming the written frame |
| ClientAddressFrames.EnvelopeAccepted | fins_tcp/src/client_address_frame.rs:37-41 | input that starts with the client address envelope passes the header checks and goes straight to the body |
| ClientAddressFrames.ReadWritten | fins_tcp/src/client_address_frame.rs:72-93 | reading a written frame, whatever follows it, gives the frame back and consumes 20 bytes |
| ClientAddressFrames.ReadPrefix | fins_tcp/src/client_address_frame.rs:32-48 | every proper prefix of a written frame is `UnexpectedEof`, the error the read loop waits on |
| ClientAddressFrames.EnvelopeBytes | fins_tcp/src/client_address_frame.rs:20-25 | the envelope header is 46 49 4E 53 00 00 00 0C followed by eight zero bytes |
| ClientAddressFrames.WriteLayout | fins_tcp/src/client_address_frame.rs:81-87 | every frame is written as the test's 20 bytes with the node in the last byte; node 3 gives the test's array |
| ClientAddressFrames.OversizedNode | fins_tcp/src/client_address_frame.rs:46 | a body of 00 00 01 00 is node 256, which does not fit a `u8` |
| ServerAddressFrames.WriteBody | fins_tcp/src/server_address_frame.rs:38-41 | the body is the client node then the server node, each a big-endian u32 |
| ServerAddressFrames.WriteTo | fins_tcp/src/server_address_frame.rs:32-43 | 24 bytes: the envelope (length 16, server address, no error) then the body |
| ServerAddressFrames.FromRawBody | fins_tcp/src/server_address_frame.rs:45-50 | the client node is checked first, then the server node; a node above 255 is reported; success iff both fit, and the result writes back to the body |
| ServerAddressFrames.ReadFrom | fins_tcp/src/server_address_frame.rs:16-30 | header errors propagate, then the first failing envelope check; success consumes 24 bytes that are the writing of the result |
| ServerAddressFrames.ReadBody | fins_tcp/src/server_address_frame.rs:27-29 | after a good header: `UnexpectedEof` iff fewer than 24 bytes; a body that does not fit is reported as such; succeeds iff the frame is complete and its body is accepted, and then consumes the written frame |
| ServerAddressFrames.EnvelopeAccepted | fins_tcp/src/server_address_frame.rs:21-25 | input that starts with the server address envelope passes the header checks and goes straight to the body |
| ServerAddressFrames.ReadWritten | fins_tcp/src/server_address_frame.rs:67-89 | reading a written frame, whatever follows it, gives the frame back and consumes 24 bytes |
| ServerAddressFrames.ReadPrefix | fins_tcp/src/server_address_frame.rs:16-30 | every proper prefix of a written frame is `UnexpectedEof` |
| ServerAddressFrames.EnvelopeBytes | fins_tcp/src/server_address_frame.rs:33-37 | the envelope header is 46 49 4E 53 00 00 00 10 00 00 00 01 followed by four zero bytes |
| ServerAddressFrames.BodyBytes | fins_tcp/src/server_address_frame.rs:38-41 | the body is 00 00 00 client node 00 00 00 server node |
| ServerAddressFrames.WriteLayout | fins_tcp/src/server_address_frame.rs:77-83 | every frame is written as the test's 24 bytes with the nodes at bytes 19 and 23; nodes 3 and 4 give the test's array |
| ServerAddressFrames.ClientNodeReportedFirst | fins_tcp/src/server_address_frame.rs:45-50 | when both nodes overflow, the client node is the one reported |
| StreamReader.Fill | fins_client/src/main.rs:123-128 | `read` into `buffer[pos..]` changes only the bytes it delivered |
| StreamReader.CopyToFront | fins_client/src/main.rs:134 | `copy_within(consumed..pos, 0)` moves the unconsumed bytes to the front and leaves the rest |
| StreamReader.Step | fins_client/src/main.rs:119-146 | one turn of the loop: a full buffer panics; a read error or a zero-byte read fails; otherwise the pending bytes grow by the read; `UnexpectedEof` from the parser means read again with all bytes kept, any other parser error is returned, and a parsed frame is returned with its remainder moved to the front and the position reset (or, corrected, kept) |
| StreamReader.Run | fins_client/src/main.rs:119-146 | a sequence of reads, each fitting the space left when it is made (a read into a full buffer panics), keeps the buffer's size and validity; while the parser keeps waiting, every byte read stays pending in order |
| StreamReader.StepCompletes | fins_client/src/main.rs:130-137 | a read that makes the pending bytes parse returns the parsed frame, with the remainder kept at the front |
| StreamReader.StepNeedsMore | fins_client/src/main.rs:138-140 | a read after which the parser still wants more bytes keeps everything pending |
| StreamReader.FeedFrame | fins_client/src/main.rs:114-147 | for a parser that reports `UnexpectedEof` on every proper prefix of a frame, any split of the frame into non-empty reads ends with that frame returned |
| StreamReader.ServerAddressParserShape | fins_tcp/src/server_address_frame.rs:16-30 | the server address parser waits on every proper prefix of a written frame and reads the whole frame |
| StreamReader.FeedServerAddressFrame | fins_client/src/main.rs:114-147 | a server address frame that arrives in any number of non-empty reads into an empty buffer of at least 24 bytes is returned |
| StreamReader.FilledBufferPanics | fins_client/src/main.rs:114-147 | while the parser waits on every prefix, reads that fill the buffer are admitted and the turn after them panics with a full buffer, whatever it would read |
| StreamReader.PrefixFillsBuffer | fins_client/src/main.rs:119-122 | reads that fill an empty buffer with a proper prefix of a frame the parser waits on end in the full-buffer panic |
| StreamReader.ServerFrameOverflowsSmallBuffer | fins_client/src/main.rs:119-122 | a server address frame read into a buffer smaller than 24 bytes fills it and ends in the full-buffer panic |
| StreamReader.TwoFramesInOneRead | fins_client/src/main.rs:130-137 | two frames in one read: the first is returned; what stays pending is nothing as written, the second frame when the remainder is kept |
| StreamReader.FrontFrameOfRead | fins_client/src/main.rs:130-137 | a read whose front parses as a frame returns it and leaves the rest of the read pending when the remainder is kept |
| StreamReader.PendingFrameCompletes | fins_client/src/main.rs:128-137 | once the pending bytes start with a whole server address frame, that frame is returned |
| StreamReader.EmptyBufferFrameCompletes | fins_client/src/main.rs:128-137 | a whole frame read into an empty buffer is returned |
| StreamReader.PipelinedFrameDropped | fins_client/src/main.rs:134-135 | as written, a second frame that arrived in the same read is discarded: the next turn starts empty and returns the frame after it |
| StreamReader.PipelinedFrameKept | fins_client/src/main.rs:134-135 | with the remainder kept, the second frame of the read is what the next turn returns, provided the next read delivers at least one byte |
| StreamReader.KeptFrameLostAtEndOfStream | fins_client/src/main.rs:119-126 | even with the remainder kept, a whole second frame left pending is not returned when the next read reports end of stream: the loop reads before it parses, and the zero-byte read fails with `UnexpectedEof` |
| StreamReader.SmallBufferNeverCompletes | fins_client/src/main.rs:119-122 | a buffer smaller than a server address frame never yields one |
| StreamReader.CheckPipelinedResponses | fins_client/src/main.rs:97-109 | returns no index iff every response came from the server node and was addressed to the client node; otherwise the first response failing either check |

## Left out

- Sockets, `tokio`, `tracing`, `main`/`run` and the connection setup in fins_client/src/main.rs are not modelled: each read result is an input of `StreamReader.Step`, and what gets written is the value of the pure `WriteTo` functions.
- Write errors of `write_to`/`write_raw` are not modelled. The model writes to a byte sequence, which cannot fail.
- `read_memory_area_read_response_async` (fins_client/src/main.rs:148-182) is the same loop as `StreamReader.Step` with another parser. The client imports `read_memory_area_read_response` and `write_memory_area_read_request` from `fins_tcp`, but fins_tcp/src/lib.rs defines neither: it holds only a commented-out draft. They are not part of this model. `StreamReader.MemoryAreaReadResponse` keeps only the fields the client checks.
- `print_bytes` (fins_client/src/util.rs) is display only.
- fins/src/memory_area_read_response.rs is not part of this model. The client does not use it.
- The older draft under src/ and tcpfins.c++ are not part of this model.
- The alignment tests in fins_util/src/num.rs:88-104 are about Rust's memory layout, and the model has no memory layout. The packed record's offsets are covered by `Num.PackedThingLayout`.
- `Debug` for the wrappers (fins_util/src/num.rs:48-52) is display only.
- `Display` of `fins::ProtocolViolation` (fins/src/protocol_violation.rs:9-20) is modelled by `FinsErrors.Describe`, which writes the raw value the way its derived `Debug` does (`RawMemoryAreaCode(130)`). No property is stated about that text: it is display only.
- The `todo!()` arms of `Display` for `fins_tcp::ProtocolViolation` panic in fins-rust; `TcpProtocol.Describe` returns `None` for them. The `UnknownCommand` message is modelled, but no property is stated about its text.
- `std::io::Error` is reduced to its kind: `UnexpectedEof` or any other kind.
- The service id is never matched against responses in fins-rust, and the model does not add that check.
- ClientAddressFrames.ReadFrom: fins-rust panics on a node above 255. The model returns `NodeDoesNotFitU8`, a value that does not exist in fins-rust, so that the property is statable.
- ServerAddressFrames.FromRawBody: the same substitution of `NodeDoesNotFitU8` for the panic.
- StreamReader.Step: the `panic!` on a full buffer is the outcome `BufferFull`, not a process abort.
- StreamReader.PipelinedFrameKept: the corrected step keeps the remainder but, like the code, reads before it parses, so the kept frame is returned only when the next read delivers at least one byte; at end of stream it is lost (`StreamReader.KeptFrameLostAtEndOfStream`).

## Findings

| source | as written | input that shows it | evidently intended | confidence | as-written member | corrected member |
|---|---|---|---|---|---|---|
| fins/src/header.rs:81-92 | the test expects the source address (06 07 08) before the destination (03 04 05), but `RawHeader` declares `destination` before `source` | the test's own header: serialization gives 80 00 02 03 04 05 06 07 08 09, the test expects 80 00 02 06 07 08 03 04 05 09 | the struct order, destination first, as FINS lays the header out | high, not executed | FinsHeaders.SourceFirstLayoutDisagrees | FinsHeaders.TestHeaderBytes |
| fins_client/src/main.rs:134-135 | after a frame is parsed the remainder is moved to the front of the buffer, then `read_position` is set to 0, which discards it; main.rs:169-170 repeat this in the loop that reads the 32 pipelined memory area read responses | one read carrying two server address frames (48 bytes into an empty buffer): the first is returned and the second is lost | `read_position = read_position - consumed_position`, so the moved bytes stay pending for the next call; a complete frame already pending should also be parsed before the next `read`, which the corrected step still does not do (see `StreamReader.KeptFrameLostAtEndOfStream`) | high, not executed | StreamReader.PipelinedFrameDropped | StreamReader.PipelinedFrameKept |
