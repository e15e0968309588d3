/** The inverter driver (`src/inverter.rs`): it owns one duplex byte stream
    behind a buffer, frames each command with its CRC-16/XMODEM checksum and
    a carriage return, and reads and checks one response line per command.

    Request frame:  command ++ checksum (2 bytes, big-endian) ++ '\r'
    Response line:  marker ++ payload ++ checksum (2 bytes, big-endian) ++ '\r'

    The marker (conventionally '(') and the byte in the terminator's place are
    never looked at by the decoder. */
module Inverter {
  import opened Std
  import opened Crc
  import opened InverterError

  /** `'\r'`, the line terminator and the delimiter of `read_until`. */
  const CR: byte := 0x0D
  /** `size_of::<u8>() + size_of::<u16>() + size_of::<u8>()`: a marker, a
      checksum and a terminator, around a possibly empty payload. */
  const MIN_LINE_LEN: nat := 1 + 2 + 1

  // Command mnemonics and the protocol id tag, as the ASCII bytes `b"..."` spells.
  const QPI: seq<byte> := [0x51, 0x50, 0x49]
  const QID: seq<byte> := [0x51, 0x49, 0x44]
  const PI: seq<byte> := [0x50, 0x49]

  // ---------------------------------------------------------------------------
  // Framing
  // ---------------------------------------------------------------------------

  /** `u16::to_be_bytes`. */
  function ToBeBytes(h: bv16): (b: seq<byte>)
    ensures |b| == 2 && FromBeBytes(b) == h
  {
    [(h >> 8) as byte, (h & 0xFF) as byte]
  }

  /** The number two bytes spell, most significant first. */
  function FromBeBytes(b: seq<byte>): bv16
    requires |b| == 2
  {
    ((b[0] as bv16) << 8) | (b[1] as bv16)
  }

  lemma ToBeBytesInjective(a: bv16, b: bv16)
    requires a != b
    ensures ToBeBytes(a) != ToBeBytes(b)
  {
    assert FromBeBytes(ToBeBytes(a)) != FromBeBytes(ToBeBytes(b));
  }

  /** The buffer `write_cmd` hands to the stream: the command, its checksum
      most significant byte first, and a carriage return. */
  function RequestFrame(cmd: seq<byte>): (f: seq<byte>)
    ensures |f| == |cmd| + 3
    ensures f[..|cmd|] == cmd
    ensures FromBeBytes(f[|cmd|..|cmd| + 2]) == Checksum(cmd)
    ensures f[|cmd| + 2] == CR
  {
    cmd + ToBeBytes(Checksum(cmd)) + [CR]
  }

  /** What `read_until(delim, ..)` collects: every byte up to and including the
      first `delim`, or the whole input when there is none. */
  function TakeUntil(s: seq<byte>, delim: byte): (line: seq<byte>)
    ensures |line| <= |s|
    decreases |s|
  {
    if s == [] then []
    else if s[0] == delim then [delim]
    else [s[0]] + TakeUntil(s[1..], delim)
  }

  /** The line is a prefix of the input with no `delim` before its last byte;
      it ends in `delim` exactly when the input holds one, and is the whole
      input otherwise. */
  lemma {:induction false} TakeUntilSpec(s: seq<byte>, delim: byte)
    ensures TakeUntil(s, delim) <= s
    ensures forall i :: 0 <= i < |TakeUntil(s, delim)| - 1 ==> TakeUntil(s, delim)[i] != delim
    ensures delim in s <==> |TakeUntil(s, delim)| > 0 && TakeUntil(s, delim)[|TakeUntil(s, delim)| - 1] == delim
    ensures delim !in s ==> TakeUntil(s, delim) == s
    decreases |s|
  {
    if s != [] && s[0] != delim {
      TakeUntilSpec(s[1..], delim);
      var tail := TakeUntil(s[1..], delim);
      assert TakeUntil(s, delim) == [s[0]] + tail;
      assert delim in s <==> delim in s[1..] by {
        assert s == [s[0]] + s[1..];
      }
    }
  }

  /** Bytes free of `delim`, then `delim`: the line ends there, whatever follows. */
  lemma {:induction false} TakeUntilFirst(a: seq<byte>, delim: byte, rest: seq<byte>)
    requires delim !in a
    ensures TakeUntil(a + [delim] + rest, delim) == a + [delim]
    decreases |a|
  {
    if a == [] {
      assert ([] + [delim] + rest)[0] == delim;
    } else {
      assert (a + [delim] + rest)[1..] == a[1..] + [delim] + rest;
      TakeUntilFirst(a[1..], delim, rest);
    }
  }

  /** One step of `read_until` past a byte other than `delim`: move it from
      what is left to what has been collected. */
  lemma TakeUntilStep(buf: seq<byte>, rest: seq<byte>, delim: byte)
    requires rest != [] && rest[0] != delim
    ensures buf + TakeUntil(rest, delim) == (buf + [rest[0]]) + TakeUntil(rest[1..], delim)
  {
    var tail := TakeUntil(rest[1..], delim);
    assert TakeUntil(rest, delim) == [rest[0]] + tail;
  }

  function TakeLine(s: seq<byte>): seq<byte> {
    TakeUntil(s, CR)
  }

  /** The checks `read_response_line` applies to the collected line. A line
      that cannot hold a marker, a checksum and a terminator is a format
      error. Otherwise the payload is everything after the first byte and
      before the last three, and the line is accepted exactly when the two
      bytes before the last one, read big-endian, are the payload's checksum. */
  function DecodeLine(buf: seq<byte>): (r: Result<seq<byte>, Error>)
    ensures |buf| < MIN_LINE_LEN <==> r == Err(InvalidResponseFormat)
    ensures r.Ok? ==> |buf| >= MIN_LINE_LEN && r.value == buf[1..|buf| - 3]
    ensures |buf| >= MIN_LINE_LEN ==>
      (r.Ok? <==> FromBeBytes(buf[|buf| - 3..|buf| - 1]) == Checksum(buf[1..|buf| - 3]))
    ensures r.Err? ==> r.error.InvalidResponseFormat? || r.error.InvalidResponseCheckSum?
  {
    if |buf| < MIN_LINE_LEN then Err(InvalidResponseFormat)
    else
      var payload := buf[1..|buf| - 3];
      var hash := buf[|buf| - 3..|buf| - 1];
      if ToBeBytes(Checksum(payload)) != hash then Err(InvalidResponseCheckSum)
      else Ok(payload)
  }

  /** The outcome of `read_response_line` on a stream whose unread bytes are
      `pending`, followed by end of stream (`readFault == None`) or by an I/O
      failure. A line that ends before any carriage return is still decoded
      at end of stream; an I/O failure before the carriage return is
      reported as `Io`. */
  function ReadResponse(pending: seq<byte>, readFault: Option<IoError>): (r: Result<seq<byte>, Error>)
    ensures r.Err? && r.error.Io? <==> CR !in pending && readFault.Some?
    ensures r.Ok? ==>
      var line := TakeLine(pending);
      |line| == |r.value| + MIN_LINE_LEN && line[1..|line| - 3] == r.value &&
      line[|line| - 3..|line| - 1] == ToBeBytes(Checksum(r.value))
    ensures CR in pending || readFault.None? ==> r == DecodeLine(TakeLine(pending))
  {
    if CR !in pending && readFault.Some? then Err(FromIoError(readFault.value))
    else
      var r := DecodeLine(TakeLine(pending));
      assert r.Ok? ==> FromBeBytes(TakeLine(pending)[|TakeLine(pending)| - 3..|TakeLine(pending)| - 1]) == Checksum(r.value);
      r
  }

  // ---------------------------------------------------------------------------
  // Properties of the line codec
  // ---------------------------------------------------------------------------

  /** A response line is a request frame behind a marker byte, so decoding any
      marker followed by the frame of `payload` gives back `payload`. */
  lemma DecodeMarkedFrame(marker: byte, payload: seq<byte>)
    ensures DecodeLine([marker] + RequestFrame(payload)) == Ok(payload)
  {
    var line := [marker] + RequestFrame(payload);
    var n := |line|;
    assert line[1..n - 3] == payload;
    assert line[n - 3..n - 1] == ToBeBytes(Checksum(payload));
  }

  /** A line of three bytes or fewer is always a format error. */
  lemma ShortLineRejected(buf: seq<byte>)
    requires |buf| < MIN_LINE_LEN
    ensures DecodeLine(buf) == Err(InvalidResponseFormat)
    ensures forall pending, fault :: TakeLine(pending) == buf && CR in pending ==>
      ReadResponse(pending, fault) == Err(InvalidResponseFormat)
  {
  }

  /** The shortest line that passes the length check carries an empty
      payload, whose checksum is 0x0000: it is accepted exactly when its two
      checksum bytes are zero. */
  lemma MinimalLine(buf: seq<byte>)
    requires |buf| == MIN_LINE_LEN
    ensures DecodeLine(buf) == if buf[1] == 0 && buf[2] == 0 then Ok([]) else Err(InvalidResponseCheckSum)
  {
    assert buf[1..1] == [];
    assert ToBeBytes(Checksum([])) == [0, 0];
  }

  /** A line assembled from its four parts decodes by comparing the
      checksum field with the payload's checksum. */
  lemma DecodeParts(marker: byte, payload: seq<byte>, hash: seq<byte>, terminator: byte)
    requires |hash| == 2
    ensures DecodeLine([marker] + payload + hash + [terminator]) ==
      if ToBeBytes(Checksum(payload)) == hash then Ok(payload) else Err(InvalidResponseCheckSum)
  {
    var line := [marker] + payload + hash + [terminator];
    var n := |line|;
    assert line[1..n - 3] == payload;
    assert line[n - 3..n - 1] == hash;
  }

  /** Corrupting one byte of the payload of a marked frame. */
  lemma CorruptedPayloadRejected(marker: byte, payload: seq<byte>, i: nat, x: byte)
    requires i < |payload| && x != payload[i]
    ensures DecodeLine([marker] + payload[i := x] + ToBeBytes(Checksum(payload)) + [CR]) == Err(InvalidResponseCheckSum)
  {
    SingleByteErrorDetected(payload, i, x);
    ToBeBytesInjective(Checksum(payload[i := x]), Checksum(payload));
    DecodeParts(marker, payload[i := x], ToBeBytes(Checksum(payload)), CR);
  }

  /** Corrupting one byte of the checksum field of a marked frame. */
  lemma CorruptedHashRejected(marker: byte, payload: seq<byte>, j: nat, x: byte)
    requires j < 2 && x != ToBeBytes(Checksum(payload))[j]
    ensures DecodeLine([marker] + payload + ToBeBytes(Checksum(payload))[j := x] + [CR]) == Err(InvalidResponseCheckSum)
  {
    DecodeParts(marker, payload, ToBeBytes(Checksum(payload))[j := x], CR);
  }

  /** Corrupting any one byte of a marked frame's payload or checksum makes the
      decoder report a checksum mismatch. */
  lemma CorruptedLineRejected(marker: byte, payload: seq<byte>, k: nat, x: byte)
    requires 1 <= k < |payload| + 3 && x != ([marker] + RequestFrame(payload))[k]
    ensures DecodeLine(([marker] + RequestFrame(payload))[k := x]) == Err(InvalidResponseCheckSum)
  {
    var hash := ToBeBytes(Checksum(payload));
    var line := [marker] + RequestFrame(payload);
    assert line == [marker] + payload + hash + [CR];
    if k <= |payload| {
      assert line[k := x] == [marker] + payload[k - 1 := x] + hash + [CR];
      CorruptedPayloadRejected(marker, payload, k - 1, x);
    } else {
      assert line[k := x] == [marker] + payload + hash[k - 1 - |payload| := x] + [CR];
      CorruptedHashRejected(marker, payload, k - 1 - |payload|, x);
    }
  }

  /** The decoder never looks at the first byte of the line or at its last. */
  lemma MarkerAndTerminatorIgnored(buf: seq<byte>, marker: byte, terminator: byte)
    requires |buf| >= MIN_LINE_LEN
    ensures DecodeLine(buf[0 := marker][|buf| - 1 := terminator]) == DecodeLine(buf)
  {
    var other := buf[0 := marker][|buf| - 1 := terminator];
    var n := |buf|;
    assert other[1..n - 3] == buf[1..n - 3];
    assert other[n - 3..n - 1] == buf[n - 3..n - 1];
  }

  /** Reading a stream that starts with a marked frame returns its payload and
      consumes exactly that line, provided neither the payload nor its
      checksum holds a carriage return. */
  lemma ReadMarkedFrame(marker: byte, payload: seq<byte>, rest: seq<byte>, readFault: Option<IoError>)
    requires marker != CR && CR !in payload && CR !in ToBeBytes(Checksum(payload))
    ensures TakeLine([marker] + RequestFrame(payload) + rest) == [marker] + RequestFrame(payload)
    ensures ReadResponse([marker] + RequestFrame(payload) + rest, readFault) == Ok(payload)
  {
    var line := [marker] + RequestFrame(payload);
    var body := [marker] + payload + ToBeBytes(Checksum(payload));
    assert line == body + [CR];
    assert CR !in body by {
      forall i | 0 <= i < |body| ensures body[i] != CR {
        if 0 < i <= |payload| {
          assert body[i] == payload[i - 1];
        } else if i > |payload| {
          assert body[i] == ToBeBytes(Checksum(payload))[i - 1 - |payload|];
        }
      }
    }
    TakeUntilFirst(body, CR, rest);
    assert line + rest == body + [CR] + rest;
    assert CR in line + rest by {
      assert (line + rest)[|body|] == CR;
    }
    DecodeMarkedFrame(marker, payload);
  }

  // ---------------------------------------------------------------------------
  // Parsing the replies
  // ---------------------------------------------------------------------------

  /** How a call ends: it returns a `Result`, or the task panics. */
  datatype Completion<T> = Returns(result: Result<T, Error>) | Panics

  /** The parsing half of `query_protocol_id`: `split_at(2)` (which panics on
      a payload shorter than two bytes), the `PI` tag, UTF-8 decoding, and a
      decimal `usize`. */
  function ParseProtocolId(payload: seq<byte>): (r: Completion<nat>)
    ensures r.Panics? <==> |payload| < 2
    ensures |payload| >= 2 && payload[..2] != PI ==> r == Returns(Err(InvalidResponsePayload))
    ensures r.Returns? && r.result.Ok? ==>
      payload[..2] == PI && UsizeFromStr(payload[2..]) == Ok(r.result.value) && r.result.value <= USIZE_MAX
    ensures r.Returns? && r.result.Err? && r.result.error.ParseInt? ==>
      payload[..2] == PI && FromUtf8(payload[2..]).Ok? && UsizeFromStr(payload[2..]).Err?
    ensures |payload| >= 2 && payload[..2] == PI && FromUtf8(payload[2..]).Err? ==>
      r == Returns(Err(Utf8(FromUtf8(payload[2..]).error)))
    ensures |payload| >= 2 && payload[..2] == PI && FromUtf8(payload[2..]).Ok? && UsizeFromStr(payload[2..]).Ok? ==>
      r == Returns(Ok(UsizeFromStr(payload[2..]).value))
    ensures |payload| >= 2 && payload[..2] == PI && FromUtf8(payload[2..]).Ok? && UsizeFromStr(payload[2..]).Err? ==>
      r == Returns(Err(ParseInt(UsizeFromStr(payload[2..]).error)))
  {
    if |payload| < 2 then Panics
    else
      var prefix, rest := payload[..2], payload[2..];
      if prefix != PI then Returns(Err(InvalidResponsePayload))
      else match FromUtf8(rest)
        case Err(e) => Returns(Err(FromUtf8Error(e)))
        case Ok(text) =>
          match UsizeFromStr(text)
          case Err(e) => Returns(Err(FromParseIntError(e)))
          case Ok(id) => Returns(Ok(id))
  }

  /** The payload a device sends in answer to `QPI` when its protocol id is `n`. */
  function ProtocolIdPayload(n: nat): (p: seq<byte>)
    ensures |p| >= 2 && p[..2] == PI && p[2..] == FormatUnsigned(n)
  {
    PI + FormatUnsigned(n)
  }

  /** `PI` followed by the decimal digits of `n` parses to `n`. */
  lemma ParseProtocolIdPayload(n: nat)
    requires n <= USIZE_MAX
    ensures ParseProtocolId(ProtocolIdPayload(n)) == Returns(Ok(n))
  {
    FormatUnsignedSpec(n);
    AsciiIsUtf8(FormatUnsigned(n));
    UsizeRoundTrip(n);
  }

  /** `PI` followed by text that is empty, a lone sign, or holds a non-digit
      gives a `ParseInt` error. */
  lemma NonNumericProtocolId(rest: seq<byte>)
    requires IsAscii(rest) && (Unsigned(rest) == [] || !AllDigits(Unsigned(rest)))
    ensures ParseProtocolId(PI + rest).Returns?
    ensures ParseProtocolId(PI + rest).result.Err? && ParseProtocolId(PI + rest).result.error.ParseInt?
  {
    var p := PI + rest;
    assert p[..2] == PI && p[2..] == rest;
    AsciiIsUtf8(rest);
  }

  /** What `query_protocol_id` returns once its request is out, given the
      stream's unread bytes and what follows them. */
  function ProtocolIdReply(pending: seq<byte>, readFault: Option<IoError>): (r: Completion<nat>)
    ensures ReadResponse(pending, readFault).Err? ==> r == Returns(Err(ReadResponse(pending, readFault).error))
    ensures ReadResponse(pending, readFault).Ok? ==> r == ParseProtocolId(ReadResponse(pending, readFault).value)
  {
    match ReadResponse(pending, readFault)
    case Err(e) => Returns(Err(e))
    case Ok(payload) => ParseProtocolId(payload)
  }

  /** A device that answers with a marked frame of protocol id `n` has its
      query return `n`, and whatever follows stays unread. */
  lemma ProtocolIdRoundTrip(marker: byte, n: nat, rest: seq<byte>, readFault: Option<IoError>)
    requires marker != CR && n <= USIZE_MAX
    requires CR !in ToBeBytes(Checksum(ProtocolIdPayload(n)))
    ensures TakeLine([marker] + RequestFrame(ProtocolIdPayload(n)) + rest) == [marker] + RequestFrame(ProtocolIdPayload(n))
    ensures ProtocolIdReply([marker] + RequestFrame(ProtocolIdPayload(n)) + rest, readFault) == Returns(Ok(n))
  {
    var p := ProtocolIdPayload(n);
    FormatUnsignedSpec(n);
    assert CR !in p by {
      forall i | 0 <= i < |p| ensures p[i] != CR {
        if i >= 2 {
          assert p[i] == FormatUnsigned(n)[i - 2];
        }
      }
    }
    ReadMarkedFrame(marker, p, rest, readFault);
    ParseProtocolIdPayload(n);
  }

  /** What `query_serial_number` does once its line is read: it reports a
      failed read, and otherwise reaches `unimplemented!()`. */
  function SerialNumberReply(pending: seq<byte>, readFault: Option<IoError>): (r: Completion<nat>)
    ensures r.Panics? <==> ReadResponse(pending, readFault).Ok?
    ensures r.Returns? ==> r.result == Err(ReadResponse(pending, readFault).error)
  {
    match ReadResponse(pending, readFault)
    case Err(e) => Returns(Err(e))
    case Ok(_) => Panics
  }

  // ---------------------------------------------------------------------------
  // The driver
  // ---------------------------------------------------------------------------

  /** The duplex byte stream the driver is given: the bytes the device has
      sent and the driver has not yet read, what a read meets once they run
      out (end of stream, or an I/O failure), the bytes delivered to the
      device so far, whether writing fails, and whether flushing fails. */
  datatype Stream = Stream(
    pending: seq<byte>,
    readFault: Option<IoError>,
    sent: seq<byte>,
    writeFault: Option<IoError>,
    flushFault: Option<IoError>)

  /** `Inverter<T>`: the driver, owning its stream behind a `BufStream`.
      `buffered` holds what was written and not yet flushed to the device. */
  class Inverter {
    var pending: seq<byte>
    var readFault: Option<IoError>
    var sent: seq<byte>
    var writeFault: Option<IoError>
    var flushFault: Option<IoError>
    var buffered: seq<byte>

    /** `into_inner`: the stream, handed back without the buffer, so bytes
        written and not flushed are lost. */
    function IntoInner(): Stream
      reads this
    {
      Stream(pending, readFault, sent, writeFault, flushFault)
    }

    /** `from_stream`: the driver takes the stream over with an empty buffer,
        so that `into_inner` hands back the very stream it was given. */
    constructor FromStream(inner: Stream)
      ensures pending == inner.pending && readFault == inner.readFault && sent == inner.sent
      ensures writeFault == inner.writeFault && flushFault == inner.flushFault
      ensures buffered == []
      ensures IntoInner() == inner
    {
      pending := inner.pending;
      readFault := inner.readFault;
      sent := inner.sent;
      writeFault := inner.writeFault;
      flushFault := inner.flushFault;
      buffered := [];
    }

    /** The buffered stream's `write_all`: all of `buf` joins the buffer, or
        an I/O failure and nothing. */
    method WriteAll(buf: seq<byte>) returns (r: Result<(), IoError>)
      modifies this`buffered
      ensures writeFault.None? ==> r == Ok(()) && buffered == old(buffered) + buf
      ensures writeFault.Some? ==> r == Err(writeFault.value) && buffered == old(buffered)
    {
      if writeFault.Some? {
        return Err(writeFault.value);
      }
      buffered := buffered + buf;
      return Ok(());
    }

    /** The buffered stream's `flush`: the buffer goes to the device, or an I/O
        failure leaves it where it is. */
    method Flush() returns (r: Result<(), IoError>)
      modifies this`buffered, this`sent
      ensures flushFault.None? ==> r == Ok(()) && sent == old(sent) + old(buffered) && buffered == []
      ensures flushFault.Some? ==> r == Err(flushFault.value) && sent == old(sent) && buffered == old(buffered)
    {
      if flushFault.Some? {
        return Err(flushFault.value);
      }
      sent := sent + buffered;
      buffered := [];
      return Ok(());
    }

    /** The stream's `read_until`: takes bytes one at a time, up to and
        including the first `delim`. Running out of bytes is not an error at
        end of stream; it is at an I/O failure. */
    method ReadUntil(delim: byte) returns (buf: seq<byte>, r: Result<nat, IoError>)
      modifies this`pending
      ensures buf == TakeUntil(old(pending), delim)
      ensures pending == old(pending)[|buf|..]
      ensures delim in buf || readFault.None? ==> r == Ok(|buf|)
      ensures delim !in buf && readFault.Some? ==> r == Err(readFault.value)
    {
      var input := pending;
      var i := 0;
      while i < |input| && input[i] != delim
        invariant i <= |input|
        invariant delim !in input[..i]
        invariant TakeUntil(input, delim) == input[..i] + TakeUntil(input[i..], delim)
        decreases |input| - i
      {
        TakeUntilStep(input[..i], input[i..], delim);
        assert input[i..][1..] == input[i + 1..];
        assert input[..i + 1] == input[..i] + [input[i]];
        i := i + 1;
      }
      var found := i < |input|;
      if found {
        assert TakeUntil(input[i..], delim) == [delim];
        assert input[..i + 1] == input[..i] + [delim];
        buf := input[..i + 1];
      } else {
        assert input[..i] == input;
        buf := input;
      }
      pending := input[|buf|..];
      if found || readFault.None? {
        r := Ok(|buf|);
      } else {
        r := Err(readFault.value);
      }
    }

    /** `write_cmd`: builds the frame by appending the command, the two
        checksum bytes and the carriage return, then writes it out. */
    method WriteCmd(cmd: seq<byte>) returns (r: Result<(), Error>)
      modifies this`buffered
      ensures writeFault.None? ==> r == Ok(()) && buffered == old(buffered) + RequestFrame(cmd)
      ensures writeFault.Some? ==> r == Err(Io(writeFault.value)) && buffered == old(buffered)
    {
      var hash := DigestCrc(cmd);
      var buf: seq<byte> := [];
      buf := buf + cmd;
      buf := buf + ToBeBytes(hash);
      buf := buf + [CR];
      var w := WriteAll(buf);
      if w.Err? {
        return Err(FromIoError(w.error));
      }
      return Ok(());
    }

    /** `read_response_line`: reads up to the first carriage return and checks
        the line. */
    method ReadResponseLine() returns (r: Result<seq<byte>, Error>)
      modifies this`pending
      ensures pending == old(pending)[|TakeLine(old(pending))|..]
      ensures r == ReadResponse(old(pending), readFault)
    {
      ghost var input := pending;
      TakeUntilSpec(input, CR);
      var buf, n := ReadUntil(CR);
      if n.Err? {
        return Err(FromIoError(n.error));
      }
      r := DecodeLine(buf);
    }

    /** `query_protocol_id`: sends `QPI`, flushes it to the device, reads one
        response line and parses it. A failed write or flush ends the query
        before anything is read. */
    method QueryProtocolId() returns (r: Completion<nat>)
      modifies this`pending, this`sent, this`buffered
      ensures writeFault.Some? ==>
        && r == Returns(Err(Io(writeFault.value)))
        && sent == old(sent) && buffered == old(buffered) && pending == old(pending)
      ensures writeFault.None? && flushFault.Some? ==>
        && r == Returns(Err(Io(flushFault.value)))
        && sent == old(sent) && buffered == old(buffered) + RequestFrame(QPI) && pending == old(pending)
      ensures writeFault.None? && flushFault.None? ==>
        && sent == old(sent) + old(buffered) + RequestFrame(QPI) && buffered == []
        && pending == old(pending)[|TakeLine(old(pending))|..]
        && r == ProtocolIdReply(old(pending), readFault)
    {
      var w := WriteCmd(QPI);
      if w.Err? {
        return Returns(Err(w.error));
      }
      var f := Flush();
      if f.Err? {
        return Returns(Err(FromIoError(f.error)));
      }
      var res := ReadResponseLine();
      if res.Err? {
        return Returns(Err(res.error));
      }
      r := ParseProtocolId(res.value);
    }

    /** `query_serial_number` as written: it queues `QID` but reads the reply
        without flushing, so when the read starts the request is still in the
        buffer and nothing new has reached the device. */
    method QuerySerialNumber() returns (r: Completion<nat>)
      modifies this`pending, this`buffered
      ensures writeFault.Some? ==>
        r == Returns(Err(Io(writeFault.value))) && buffered == old(buffered) && pending == old(pending)
      ensures writeFault.None? ==>
        && buffered == old(buffered) + RequestFrame(QID)
        && pending == old(pending)[|TakeLine(old(pending))|..]
        && r == SerialNumberReply(old(pending), readFault)
      ensures sent == old(sent)
    {
      var w := WriteCmd(QID);
      if w.Err? {
        return Returns(Err(w.error));
      }
      var res := ReadResponseLine();
      if res.Err? {
        return Returns(Err(res.error));
      }
      r := Panics;
    }

    /** `query_serial_number` with the flush `query_protocol_id` has: the
        request reaches the device before the reply is read. Parsing the
        reply is still `unimplemented!()`. */
    method QuerySerialNumberFlushed() returns (r: Completion<nat>)
      modifies this`pending, this`sent, this`buffered
      ensures writeFault.Some? ==>
        && r == Returns(Err(Io(writeFault.value)))
        && sent == old(sent) && buffered == old(buffered) && pending == old(pending)
      ensures writeFault.None? && flushFault.Some? ==>
        && r == Returns(Err(Io(flushFault.value)))
        && sent == old(sent) && buffered == old(buffered) + RequestFrame(QID) && pending == old(pending)
      ensures writeFault.None? && flushFault.None? ==>
        && sent == old(sent) + old(buffered) + RequestFrame(QID) && buffered == []
        && pending == old(pending)[|TakeLine(old(pending))|..]
        && r == SerialNumberReply(old(pending), readFault)
    {
      var w := WriteCmd(QID);
      if w.Err? {
        return Returns(Err(w.error));
      }
      var f := Flush();
      if f.Err? {
        return Returns(Err(FromIoError(f.error)));
      }
      var res := ReadResponseLine();
      if res.Err? {
        return Returns(Err(res.error));
      }
      r := Panics;
    }
  }
}
