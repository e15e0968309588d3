# MPQTT inverter codec, modelled in Dafny

This project models the serial-line driver that MPQTT uses to talk to a
Masterpower / Voltronic-style solar inverter. It covers three pieces:

- the CRC-16/XMODEM checksum (`src/crc.rs`);
- the `Inverter` driver, which frames requests and checks response lines
  (`src/inverter.rs`);
- the driver's error type (`src/inverter/error.rs`).

It also models the helper the driver's tests use to build reference
responses (`mk_res`) and the table of request frames their mock device
recognises.

A request frame is the command, its checksum big-endian, and `'\r'`. A
response line is a marker byte (`'('` by convention), the payload, the
payload's checksum big-endian, and `'\r'`.

Files and modules:

- `std.dfy` (`Std`): the parts of Rust's standard library the driver relies
  on.
  - `Option`, `Result`, and the I/O, UTF-8 and integer-parse error types.
  - `std::str::from_utf8`, `usize::from_str`, and `format!("{}", n)` for a
    `usize`.
- `crc.dfy` (`Crc`): the checksum.
  - It is a bitwise, most-significant-bit-first fold over the bytes.
  - The method `DigestCrc` runs it as a register loop and is proved equal to
    the fold.
- `inverter_error.dfy` (`InverterError`): the six-variant `Error` enum and
  its three `From` conversions.
- `inverter.dfy` (`Inverter`): the codec functions and the `Inverter` class.
  - The class holds the stream's state: its unread input, the bytes
    delivered to the device, and the `BufStream` write buffer.
  - Its methods update that state as the Rust methods do.
- `inverter_test.dfy` (`InverterTest`): `mk_res`, the mock's request table,
  and the exchanges the two tests run.

Modelling decisions:

- **Widths.** Bytes are `bv8` and the checksum register is `bv16`, so a
  checksum is below 65536 by its type. `Checksum` is a function, so it
  depends on its input alone. `usize` is taken as 64 bits wide.
- **crc.rs.** The source calls the `crc_any` crate's XMODEM preset. The
  model writes out its parameters instead: polynomial 0x1021, initial
  register 0, no reflection, final XOR 0.
- **The stream.** The handle is reduced to five fields plus the write
  buffer:
  - `pending`: the bytes the device has sent and the driver has not read;
  - `readFault`: what a read meets when `pending` runs out — end of stream
    (`None`) or an I/O error;
  - `sent`: the bytes delivered to the device so far;
  - `writeFault` and `flushFault`: whether writing or flushing fails.

  The device's replies are given up front, so the model does not capture
  causality: it does not say that the device answers only after receiving
  a request.
- **Buffering.** In the model `write_all` only fills the write buffer, and
  `flush` delivers it; for frames of a few bytes this is what tokio's
  8 KiB `BufWriter` does. `into_inner` hands back the stream without the
  write buffer, so unflushed bytes are lost.
- **read_until at end of stream.** tokio's `read_until` returns `Ok` with
  the bytes read so far when the stream ends before a delimiter. The
  model follows that code: a line missing its `'\r'` still goes through
  the length and checksum checks. End of stream is not an error here;
  only an I/O failure is.
- **Marker and terminator.** The decoder never checks either byte. The doc
  comment on `InvalidResponseFormat` (src/inverter/error.rs:11) says it
  checks for `'('` and `'\r'`; the model follows the code.
- **Panics.** `split_at(2)` panics on a short payload, and
  `unimplemented!()` panics too. Both are modelled as the `Panics` case of
  `Completion`.
- **usize::from_str.** As in current Rust, a lone `+` or `-` gives
  `InvalidDigit`, and an empty string gives `Empty`.

## Model

| member | source | states |
|---|---|---|
| Crc.ShiftBit | src/crc.rs:4 | one division step: shift left by one and XOR in 0x1021 when the bit shifted out was set |
| Crc.UpdateByte | src/crc.rs:5 | a byte enters the top eight bits of the register, then eight division steps follow |
| Crc.CrcFrom | src/crc.rs:5 | the register after feeding the bytes, first byte first |
| Crc.Checksum | src/crc.rs:3-7 | `digest_crc`: the fold from register 0x0000 with final XOR 0x0000; a `bv16` value that depends on the input alone |
| Crc.DigestCrc | src/crc.rs:3-7 | the byte-by-byte register loop computes exactly the CRC-16/XMODEM fold `Checksum` of its input |
| Crc.FeedByte | src/crc.rs:5 | one input byte fed through eight division steps yields `UpdateByte` of the register |
| Crc.ShiftLoop | src/crc.rs:5 | `n` single-bit division steps yield `ShiftBits(r0, n)` |
| Crc.KnownVectors | src/crc.rs:14-19 | the checksums of `QMOD`, `QPIGS`, `QPIRI` and `QPIWS` are 0x49C1, 0xB7A9, 0xF854 and 0xB4DA, and the empty input gives 0x0000 |
| Crc.CrcFromConcat | src/crc.rs:3-7 | digesting `a + b` is digesting `b` from the register `a` leaves: the digest keeps no state besides the register |
| Crc.CrcFromSnoc | src/crc.rs:5 | appending one byte costs one `UpdateByte` step |
| Crc.NoFinalXor | src/crc.rs:4 | the XMODEM output XOR leaves the register unchanged |
| Crc.ShiftBitsSnoc | src/crc.rs:5 | `n + 1` division steps are `n` steps followed by one more |
| Crc.ShiftBitInjective | src/crc.rs:4 | one division step maps different registers to different registers |
| Crc.ShiftBitsInjective | src/crc.rs:4 | any number of division steps keeps different registers different |
| Crc.XorSeparates | src/crc.rs:4 | XOR with the same value keeps different registers different |
| Crc.FedBytesSeparate | src/crc.rs:4 | two different bytes placed in a register's top half give different values |
| Crc.UpdateByteSeparatesRegisters | src/crc.rs:5 | one byte fed into two different registers gives two different registers |
| Crc.UpdateByteSeparatesBytes | src/crc.rs:5 | two different bytes fed into one register give two different registers |
| Crc.CrcFromSeparates | src/crc.rs:5 | registers that differ before a common suffix still differ after it |
| Crc.SingleByteErrorDetected | src/crc.rs:3-7 | changing any single byte of the input changes the checksum |
| Crc.SingleBitErrorDetected | src/crc.rs:3-7 | flipping any single bit of the input changes the checksum |
| InverterError.Error | src/inverter/error.rs:10-22 | the closed set of six kinds: three protocol errors and three wrappers around standard errors |
| InverterError.FromUtf8Error | src/inverter/error.rs:33-37 | a UTF-8 failure becomes the `Utf8` variant carrying that failure |
| InverterError.FromIoError | src/inverter/error.rs:39-43 | an I/O failure becomes the `Io` variant carrying that failure |
| InverterError.FromParseIntError | src/inverter/error.rs:45-49 | an integer-parse failure becomes the `ParseInt` variant carrying that failure |
| InverterError.ConversionsKeepTheirSource | src/inverter/error.rs:10-22 | each conversion keeps the error it wraps and never yields one of the three protocol kinds |
| Std.ScanChar | src/inverter.rs:46 | one UTF-8 validation step reports a character width of 1 to 4 that fits the input, width 1 exactly for an ASCII byte, or an error length of 1 to 3 |
| Std.ValidateFrom | src/inverter.rs:46 | a reported error position lies inside the scanned suffix, and its error length is 1 to 3 |
| Std.FromUtf8 | src/inverter.rs:46 | `from_utf8` hands back the same bytes, or an error whose position lies inside the input |
| Std.AsciiValidFrom | src/inverter.rs:46 | every suffix of ASCII text validates |
| Std.AsciiIsUtf8 | src/inverter.rs:46 | ASCII text always decodes |
| Std.DigitValue | src/inverter.rs:47 | a decimal digit's value is below ten |
| Std.DigitByte | src/inverter.rs:47 | the digit byte of a value below ten is a digit and reads back as that value |
| Std.HornerGrows | src/inverter.rs:47 | reading more digits never makes the value smaller |
| Std.HornerSnoc | src/inverter.rs:47 | one more digit multiplies the value by ten and adds the digit |
| Std.AccumulateDigits | src/inverter.rs:47 | the digit loop succeeds exactly when all bytes are digits whose value fits in a `usize`, and then returns that value; an `InvalidDigit` error means some byte is not a digit, and a failure on all-digit input is `PosOverflow` |
| Std.AccumulateDigitsFirstFault | src/inverter.rs:47 | the first offending byte decides the error: a non-digit reached while the digits before it fit gives `InvalidDigit`, and a digit prefix whose value exceeds `usize::MAX` gives `PosOverflow` |
| Std.UsizeFromStr | src/inverter.rs:47 | `usize::from_str`: empty input is `Empty`; an optional `+` then one or more digits whose value fits gives that value; a non-digit met before any overflow, or a sign alone, gives `InvalidDigit`; digits whose value grows past `usize::MAX` before any non-digit give `PosOverflow` |
| Std.FormatUnsigned | src/inverter.rs:146 | `format!("{}", n)` is never empty |
| Std.FormatUnsignedSpec | src/inverter.rs:146 | the rendering is ASCII digits with no leading zero, and its value is `n` |
| Std.UsizeRoundTrip | src/inverter.rs:146-147 | parsing the decimal rendering of any `usize` gives the number back |
| Inverter.ToBeBytes | src/inverter.rs:100 | `to_be_bytes` gives two bytes that read back big-endian as the value |
| Inverter.ToBeBytesInjective | src/inverter.rs:84 | different checksums have different big-endian byte pairs |
| Inverter.RequestFrame | src/inverter.rs:92-101 | the frame is `|cmd| + 3` bytes: the command, then two bytes that read big-endian as its checksum, then `'\r'` |
| Inverter.TakeLine | src/inverter.rs:72 | `read_until(b'\r', ..)`: the line up to and including the first carriage return |
| Inverter.TakeUntil | src/inverter.rs:72 | `read_until` never collects more bytes than the input holds |
| Inverter.TakeUntilSpec | src/inverter.rs:72 | the collected line is a prefix of the input with no delimiter before its last byte; it ends in the delimiter exactly when the input contains one, and is the whole input otherwise |
| Inverter.TakeUntilFirst | src/inverter.rs:72 | with no delimiter in `a`, the line read from `a + [delim] + rest` is `a + [delim]`, whatever `rest` holds |
| Inverter.TakeUntilStep | src/inverter.rs:72 | moving one non-delimiter byte from the unread input to the collected bytes keeps the final line the same |
| Inverter.DecodeLine | src/inverter.rs:75-88 | a line under four bytes gives `InvalidResponseFormat`, and exactly those do; a longer line is accepted exactly when its two bytes before the last, read big-endian, are the checksum of the bytes between its first and those two; an accepted line yields exactly those middle bytes; the only errors are `InvalidResponseFormat` and `InvalidResponseCheckSum` |
| Inverter.ReadResponse | src/inverter.rs:70-89 | an `Io` error happens exactly when the input holds no `'\r'` and a read fails; an accepted line is the payload with one byte before it and, after it, its big-endian checksum and one last byte (`'\r'`, or any byte when the stream ended first); without an `Io` error the result is `DecodeLine` of the first line |
| Inverter.DecodeMarkedFrame | src/inverter.rs:80-88 | any marker byte followed by the request frame of `p` decodes to `p` |
| Inverter.ShortLineRejected | src/inverter.rs:75-77 | a line of three bytes or fewer is a format error, both on its own and when read from a stream |
| Inverter.MinimalLine | src/inverter.rs:75-88 | a four-byte line carries an empty payload and is accepted exactly when its checksum bytes are 0x00 0x00 |
| Inverter.DecodeParts | src/inverter.rs:80-88 | a line assembled from a marker, a payload, a checksum field and a terminator is accepted exactly when the field is the payload's big-endian checksum |
| Inverter.CorruptedPayloadRejected | src/inverter.rs:81-86 | changing one payload byte of a marked frame gives `InvalidResponseCheckSum` |
| Inverter.CorruptedHashRejected | src/inverter.rs:83-86 | changing one checksum byte of a marked frame gives `InvalidResponseCheckSum` |
| Inverter.CorruptedLineRejected | src/inverter.rs:80-86 | changing any one byte of a marked frame, other than the marker or the terminator, gives `InvalidResponseCheckSum` |
| Inverter.MarkerAndTerminatorIgnored | src/inverter.rs:80-83 | replacing the first or the last byte of a line never changes what the decoder returns |
| Inverter.ReadMarkedFrame | src/inverter.rs:70-89 | reading a stream that starts with a marked frame of `p`, where neither `p` nor its checksum contains `'\r'`, consumes exactly that frame and returns `p`, whatever follows and however the stream ends |
| Inverter.ParseProtocolId | src/inverter.rs:41-47 | panics exactly when the payload is under two bytes; any other prefix than `PI` gives `InvalidResponsePayload`; after `PI`, invalid UTF-8 gives `Utf8` with the decoder's error, a failed parse gives `ParseInt`, and success gives the parsed `usize` |
| Inverter.NonNumericProtocolId | src/inverter.rs:46-47 | `PI` followed by ASCII text that is empty, a lone sign, or holds a non-digit gives a `ParseInt` error |
| Inverter.ProtocolIdPayload | src/inverter.rs:146 | `format!("PI{}", n)` is `PI` followed by the decimal rendering of `n` |
| Inverter.ParseProtocolIdPayload | src/inverter.rs:41-47 | `PI` followed by the digits of any `usize` parses to that number |
| Inverter.ProtocolIdReply | src/inverter.rs:38-47 | a failed read is passed on unchanged, and a read line is parsed as a protocol id |
| Inverter.ProtocolIdRoundTrip | src/inverter.rs:38-47 | a device answering with a marked frame for protocol id `n` makes the query return `n`, and leaves what follows unread |
| Inverter.SerialNumberReply | src/inverter.rs:57-60 | a failed read is passed on unchanged, and any line that is read leads to the panic of `unimplemented!()` |
| Inverter.Stream | src/inverter.rs:13 | the stream the driver owns: unread input, how it ends, bytes delivered, and whether writing or flushing fails |
| Inverter.Inverter.IntoInner | src/inverter.rs:26-28 | the stream handed back is the driver's stream state, without the write buffer |
| Inverter.Inverter.FromStream | src/inverter.rs:20-22 | `from_stream` takes the stream over with an empty write buffer, so `into_inner` right after gives back the same stream |
| Inverter.Inverter.WriteAll | src/inverter.rs:104 | all of `buf` is appended to the write buffer, or a write failure leaves it unchanged |
| Inverter.Inverter.Flush | src/inverter.rs:35 | the whole buffer is delivered to the device and emptied, or a flush failure leaves both unchanged |
| Inverter.Inverter.ReadUntil | src/inverter.rs:72 | consumes exactly the bytes up to and including the first delimiter, or all input when there is none, and returns them; it fails only when no delimiter came and a read failed |
| Inverter.Inverter.WriteCmd | src/inverter.rs:92-107 | appends exactly the request frame of `cmd` to the write buffer and keeps what was there, or reports the write failure as `Io` and changes nothing |
| Inverter.Inverter.ReadResponseLine | src/inverter.rs:70-89 | consumes exactly the first line of the input, and returns what `ReadResponse` gives for the input and its ending |
| Inverter.Inverter.QueryProtocolId | src/inverter.rs:32-48 | a write failure ends the query with `Io` before anything changes; a flush failure ends it with the frame still buffered; otherwise the device receives the `QPI` frame, one line is consumed, and the result is `ProtocolIdReply` of the input |
| Inverter.Inverter.QuerySerialNumber | src/inverter.rs:52-65 | as written: the `QID` frame is only buffered, nothing reaches the device, one line is consumed, and the result is `SerialNumberReply` of the input |
| Inverter.Inverter.QuerySerialNumberFlushed | src/inverter.rs:52-65 | with a flush after the write: as `QueryProtocolId`, except that the frame is `QID` and the result is `SerialNumberReply` |
| InverterTest.MkRes | src/inverter.rs:130-144 | `mk_res`: `'('`, the payload, its checksum big-endian and `'\r'`, so `|payload| + 4` bytes whose middle is the payload |
| InverterTest.DecodeMkRes | src/inverter.rs:130-144 | `mk_res(p)` is `'('` followed by the request frame of `p`, and the decoder returns `p` from it |
| InverterTest.MockRespond | src/inverter.rs:158-180 | the mock answers a line exactly when it is the `QPI` or the `QID` frame of its table; every other line reaches `unimplemented!()` |
| InverterTest.FrameWith | src/inverter.rs:99-101 | a command with a known checksum has the frame with those two checksum bytes |
| InverterTest.QpiChecksum | src/inverter.rs:160 | the checksum of `QPI` is 0xBEAC |
| InverterTest.QidChecksum | src/inverter.rs:163 | the checksum of `QID` is 0xD6EA |
| InverterTest.QpiFrame | src/inverter.rs:160 | the driver's `QPI` frame is the mock's entry `QPI\xbe\xac\r` |
| InverterTest.QidFrame | src/inverter.rs:163 | the driver's `QID` frame is the mock's entry `QID\xd6\xea\r` |
| InverterTest.MockAnswersQpi | src/inverter.rs:160-161 | the mock answers the driver's `QPI` frame with `mk_res("PI1234")` |
| InverterTest.MockAnswersQid | src/inverter.rs:163-164 | the mock answers the driver's `QID` frame with `mk_res` of the serial number's digits |
| InverterTest.QvfwFrame | src/inverter.rs:166 | the driver's `QVFW` frame is the mock's entry |
| InverterTest.Qvfw2Frame | src/inverter.rs:167 | the driver's `QVFW2` frame is the mock's entry |
| InverterTest.QpiriFrame | src/inverter.rs:168 | the driver's `QPIRI` frame is the mock's entry |
| InverterTest.QflagFrame | src/inverter.rs:169 | the driver's `QFLAG` frame is the mock's entry |
| InverterTest.QpigsFrame | src/inverter.rs:170 | the driver's `QPIGS` frame is the mock's entry |
| InverterTest.MockQmodFrameMismatch | src/inverter.rs:171 | the mock's `QMOD` entry is not the driver's `QMOD` frame: it carries the checksum of `QPIGS` |
| InverterTest.MockQmodFrameCorrected | src/inverter.rs:171 | with 0x49C1 in place of the copied bytes, the entry is the driver's `QMOD` frame |
| InverterTest.QpiwsFrame | src/inverter.rs:172 | the driver's `QPIWS` frame is the mock's entry |
| InverterTest.QdiFrame | src/inverter.rs:173 | the driver's `QDI` frame is the mock's entry |
| InverterTest.QmchgcrFrame | src/inverter.rs:174 | the driver's `QMCHGCR` frame is the mock's entry |
| InverterTest.QmuchgcrFrame | src/inverter.rs:175 | the driver's `QMUCHGCR` frame is the mock's entry |
| InverterTest.QbootFrame | src/inverter.rs:176 | the driver's `QBOOT` frame is the mock's entry |
| InverterTest.QopmFrame | src/inverter.rs:177 | the driver's `QOPM` frame is the mock's entry |
| InverterTest.MockFormatting | src/inverter.rs:146 | `format!("PI{}", 1234)` is the bytes `PI1234` |
| InverterTest.Pi1234Checksum | src/inverter.rs:131-132 | the checksum of `PI1234` is 0x1E09 |
| InverterTest.MockProtocolIdChecksum | src/inverter.rs:146 | the checksum of the mock's protocol-id payload is 0x1E09 |
| InverterTest.Pi1234Bytes | src/inverter.rs:141 | 0x1E09 is sent as 0x1E 0x09, and neither byte is `'\r'` |
| InverterTest.MockProtocolIdResponse | src/inverter.rs:146 | the checksum bytes of the mock's protocol-id answer hold no `'\r'`, so the reply is read as one line |
| InverterTest.MkResProtocolIdReply | src/inverter.rs:130-147 | reading `mk_res` of the protocol-id payload for any `usize` `n` whose checksum bytes hold no `'\r'` returns `n` |
| InverterTest.MockQpiReply | src/inverter.rs:146 | the mock's prepared `QPI` answer, read as the whole stream, returns 1234 |
| InverterTest.ProtocolIdExchange | src/inverter.rs:32-48 | over a fresh stream holding `mk_res` of the protocol-id payload for `n`, `query_protocol_id` delivers exactly the `QPI` frame and returns `n` |
| InverterTest.MockProtocolIdExchange | src/inverter.rs:190-207 | over a fresh stream holding the mock's `QPI` answer, `query_protocol_id` delivers exactly the `QPI` frame, the mock's table answers that frame with that answer, and the query returns 1234 |
| InverterTest.MockSerialNumberExchange | src/inverter.rs:209-226 | on a fresh driver, `query_serial_number` as written delivers nothing to the mock, the `QID` frame stays in the write buffer, and without a carriage return the mock never completes a line to match |
| InverterTest.MockSerialNumberExchangeFlushed | src/inverter.rs:209-226 | with the flush in place, the mock receives exactly the `QID` frame and the write buffer is empty |

## Left out

- src/main.rs, src/mqtt_discovery.rs, src/settings.rs, src/inverter/util.rs
  and src/response_serialize.rs are not part of this model. They hold the
  runtime, MQTT publishing, configuration loading, an FFI `open` and serde
  output: I/O and glue, not codec logic.
- The async mock server loop is left out because it is concurrency: the
  `select` on a stopper channel, `spawn`, and `read_u8` one byte at a time.
  Only its match on a complete line is kept (`MockRespond`). The loop never
  clears its line buffer, so a second request on the same connection would
  not match any entry. The model looks at one request line only.
- The read side of `BufStream` is not modelled. Reading goes straight to the
  stream's unread bytes; for the reads themselves the read buffer changes
  no result.
- Inverter.Inverter.IntoInner: `BufStream::into_inner` also drops the bytes
  its `BufReader` has read ahead past the last line. The model has no read
  buffer, so `IntoInner` still hands those bytes back in `pending`.
- Inverter.Inverter.WriteAll: the 8 KiB capacity of tokio's `BufWriter` is
  not modelled. When buffered plus new bytes would exceed it, the source
  flushes first, and it writes a buffer at least that large straight to the
  stream. The model always buffers and never delivers on a write. Below
  the capacity tokio's `write_all` only copies into its buffer and cannot
  fail, so `writeFault` stands only for the failures of that unmodelled
  flush-first and write-through; a device whose writes fail is modelled by
  `flushFault`.
- The `Display` impl (src/inverter/error.rs:24-29) and the derived `Debug`
  are left out: they only format text.
- The contents of `std::io::Error` are left out. It is an opaque value that
  the driver passes on.
- Partial writes and interrupted reads are left out. `write_all` and
  `read_until` either complete or fail with an I/O error.
- Inverter.Inverter.ReadUntil: a read failure always comes after all of the
  pending bytes. A failure in the middle of a line, after some bytes were
  appended, is not modelled.
- InverterTest.MockRespond: it matches the mock's two answered entries. The
  remaining twelve entries all reach `unimplemented!()`, like any unknown
  line, so they are covered by the per-command frame lemmas rather than by
  thirteen separate match arms.
- InverterTest.MockSerialNumberExchange: the test compares the serial
  number with `MOCK_PROTOCOL_ID` (src/inverter.rs:219), not with
  `MOCK_SERIAL_NUMBER`. The test is disabled and the query never returns a
  number, so the comparison itself is not modelled.

## Findings

| source | as written | input that shows it | evidently intended | confidence | as-written member | corrected member |
|---|---|---|---|---|---|---|
| src/inverter.rs:171 | the mock's `QMOD` entry is `QMOD\xb7\xa9\r`, which is the checksum of `QPIGS` | the driver's `QMOD` request `QMOD\x49\xc1\r` (checksum 0x49C1, src/crc.rs:15) matches no entry and reaches the catch-all `unimplemented!()` | `QMOD\x49\xc1\r` | not executed | InverterTest.MockQmodFrameMismatch | InverterTest.MockQmodFrameCorrected |
| src/inverter.rs:52-65 | `query_serial_number` writes `QID` into the buffered stream and starts reading without `flush`, unlike `query_protocol_id` (src/inverter.rs:35) | a fresh driver over the mock: the `QID` frame stays in the write buffer and the mock receives nothing, so the read waits for a reply that never comes | a `flush` after `write_cmd(b"QID")` | not executed | Inverter.Inverter.QuerySerialNumber | Inverter.Inverter.QuerySerialNumberFlushed |
