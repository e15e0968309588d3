/** The mock device of the driver's tests (`mod test` in `src/inverter.rs`):
    `mk_res`, the reference response builder, the table of request frames the
    mock recognises, and the two exchanges the tests run against it. */
module InverterTest {
  import opened Std
  import opened Crc
  import opened InverterError
  import opened Inverter

  /** `'('`, the marker the mock puts in front of every response. */
  const OPEN_PAREN: byte := 0x28

  const MOCK_PROTOCOL_ID: nat := 1234
  const MOCK_SERIAL_NUMBER: nat := 0xDEAD_BEEF

  // Further command mnemonics the mock's table names, as ASCII bytes.
  const QVFW: seq<byte> := [0x51, 0x56, 0x46, 0x57]
  const QVFW2: seq<byte> := [0x51, 0x56, 0x46, 0x57, 0x32]
  const QFLAG: seq<byte> := [0x51, 0x46, 0x4C, 0x41, 0x47]
  const QDI: seq<byte> := [0x51, 0x44, 0x49]
  const QMCHGCR: seq<byte> := [0x51, 0x4D, 0x43, 0x48, 0x47, 0x43, 0x52]
  const QMUCHGCR: seq<byte> := [0x51, 0x4D, 0x55, 0x43, 0x48, 0x47, 0x43, 0x52]
  const QBOOT: seq<byte> := [0x51, 0x42, 0x4F, 0x4F, 0x54]
  const QOPM: seq<byte> := [0x51, 0x4F, 0x50, 0x4D]

  // The frames the mock answers, written out byte by byte as its table has them.
  const MOCK_QPI_FRAME: seq<byte> := [0x51, 0x50, 0x49, 0xBE, 0xAC, 0x0D]
  const MOCK_QID_FRAME: seq<byte> := [0x51, 0x49, 0x44, 0xD6, 0xEA, 0x0D]
  /** The table's `QMOD` entry, which carries the checksum of `QPIGS`. */
  const MOCK_QMOD_FRAME: seq<byte> := [0x51, 0x4D, 0x4F, 0x44, 0xB7, 0xA9, 0x0D]
  /** The `QMOD` entry with the checksum of `QMOD`. */
  const MOCK_QMOD_FRAME_CORRECTED: seq<byte> := [0x51, 0x4D, 0x4F, 0x44, 0x49, 0xC1, 0x0D]

  // The mock's two prepared answers: `PI` and the protocol id, and the serial number.
  const MOCK_RES_QPI: seq<byte> := MkRes(ProtocolIdPayload(MOCK_PROTOCOL_ID))
  const MOCK_RES_QID: seq<byte> := MkRes(FormatUnsigned(MOCK_SERIAL_NUMBER))

  /** `mk_res`: the marker, the payload, its checksum big-endian, carriage return. */
  function MkRes(payload: seq<byte>): (res: seq<byte>)
    ensures |res| == |payload| + MIN_LINE_LEN && res[0] == OPEN_PAREN && res[|res| - 1] == CR
    ensures res[1..|res| - 3] == payload
    ensures res[|res| - 3..|res| - 1] == ToBeBytes(Checksum(payload))
  {
    [OPEN_PAREN] + payload + ToBeBytes(Checksum(payload)) + [CR]
  }

  /** A reference response is a request frame behind the marker, so the
      driver's decoder returns its payload. */
  lemma DecodeMkRes(payload: seq<byte>)
    ensures MkRes(payload) == [OPEN_PAREN] + RequestFrame(payload)
    ensures DecodeLine(MkRes(payload)) == Ok(payload)
  {
    DecodeMarkedFrame(OPEN_PAREN, payload);
  }

  /** What the mock does on a complete request line. */
  datatype MockAction = Reply(bytes: seq<byte>) | Unimplemented

  /** The mock's match on the bytes it has collected up to a carriage return:
      it answers the `QPI` and `QID` frames, and every other line, the other
      entries of its table included, reaches `unimplemented!()`. */
  function MockRespond(line: seq<byte>): (a: MockAction)
    ensures a.Reply? <==> line == MOCK_QPI_FRAME || line == MOCK_QID_FRAME
  {
    if line == MOCK_QPI_FRAME then Reply(MOCK_RES_QPI)
    else if line == MOCK_QID_FRAME then Reply(MOCK_RES_QID)
    else Unimplemented
  }

  /** A command whose checksum is known has a known frame. */
  lemma FrameWith(cmd: seq<byte>, h: bv16, hi: byte, lo: byte)
    requires Checksum(cmd) == h && (h >> 8) as byte == hi && (h & 0xFF) as byte == lo
    ensures RequestFrame(cmd) == cmd + [hi, lo, CR]
  {
  }

  lemma QpiChecksum()
    ensures Checksum(QPI) == 0xBEAC
  {
    assert UpdateByte(0x0000, 0x51) == 0x4AD4;  // Q
    assert UpdateByte(0x4AD4, 0x50) == 0x677B;  // QP
    assert UpdateByte(0x677B, 0x49) == 0xBEAC;  // QPI
  }

  lemma QidChecksum()
    ensures Checksum(QID) == 0xD6EA
  {
    assert UpdateByte(0x0000, 0x51) == 0x4AD4;  // Q
    assert UpdateByte(0x4AD4, 0x49) == 0xE463;  // QI
    assert UpdateByte(0xE463, 0x44) == 0xD6EA;  // QID
  }

  lemma QpiFrame()
    ensures RequestFrame(QPI) == MOCK_QPI_FRAME
  {
    QpiChecksum();
    FrameWith(QPI, 0xBEAC, 0xBE, 0xAC);
  }

  lemma QidFrame()
    ensures RequestFrame(QID) == MOCK_QID_FRAME
  {
    QidChecksum();
    FrameWith(QID, 0xD6EA, 0xD6, 0xEA);
  }

  /** The driver's `QPI` frame is the one the mock answers with its protocol id. */
  lemma MockAnswersQpi()
    ensures MockRespond(RequestFrame(QPI)) == Reply(MOCK_RES_QPI)
  {
    QpiFrame();
  }

  /** The driver's `QID` frame is the one the mock answers with its serial number. */
  lemma MockAnswersQid()
    ensures MockRespond(RequestFrame(QID)) == Reply(MOCK_RES_QID)
  {
    QidFrame();
  }

  lemma QvfwFrame()
    ensures RequestFrame(QVFW) == QVFW + [0x62, 0x99, 0x0D]
  {
    assert Checksum(QVFW) == 0x6299 by {
      assert UpdateByte(0x0000, 0x51) == 0x4AD4;  // Q
      assert UpdateByte(0x4AD4, 0x56) == 0x07BD;  // QV
      assert UpdateByte(0x07BD, 0x46) == 0xE5E5;  // QVF
      assert UpdateByte(0xE5E5, 0x57) == 0x6299;  // QVFW
    }
    FrameWith(QVFW, 0x6299, 0x62, 0x99);
  }

  lemma Qvfw2Frame()
    ensures RequestFrame(QVFW2) == QVFW2 + [0xC3, 0xF5, 0x0D]
  {
    assert Checksum(QVFW2) == 0xC3F5 by {
      assert UpdateByte(0x0000, 0x51) == 0x4AD4;  // Q
      assert UpdateByte(0x4AD4, 0x56) == 0x07BD;  // QV
      assert UpdateByte(0x07BD, 0x46) == 0xE5E5;  // QVF
      assert UpdateByte(0xE5E5, 0x57) == 0x6299;  // QVFW
      assert UpdateByte(0x6299, 0x32) == 0xC3F5;  // QVFW2
    }
    FrameWith(QVFW2, 0xC3F5, 0xC3, 0xF5);
  }

  lemma QflagFrame()
    ensures RequestFrame(QFLAG) == QFLAG + [0x98, 0x74, 0x0D]
  {
    assert Checksum(QFLAG) == 0x9874 by {
      assert UpdateByte(0x0000, 0x51) == 0x4AD4;  // Q
      assert UpdateByte(0x4AD4, 0x46) == 0x158C;  // QF
      assert UpdateByte(0x158C, 0x4C) == 0x47DC;  // QFL
      assert UpdateByte(0x47DC, 0x41) == 0xBCC6;  // QFLA
      assert UpdateByte(0xBCC6, 0x47) == 0x9874;  // QFLAG
    }
    FrameWith(QFLAG, 0x9874, 0x98, 0x74);
  }

  lemma QdiFrame()
    ensures RequestFrame(QDI) == QDI + [0x71, 0x1B, 0x0D]
  {
    assert Checksum(QDI) == 0x711B by {
      assert UpdateByte(0x0000, 0x51) == 0x4AD4;  // Q
      assert UpdateByte(0x4AD4, 0x44) == 0x35CE;  // QD
      assert UpdateByte(0x35CE, 0x49) == 0x711B;  // QDI
    }
    FrameWith(QDI, 0x711B, 0x71, 0x1B);
  }

  lemma QmchgcrFrame()
    ensures RequestFrame(QMCHGCR) == QMCHGCR + [0xD8, 0x55, 0x0D]
  {
    assert Checksum(QMCHGCR) == 0xD855 by {
      assert UpdateByte(0x0000, 0x51) == 0x4AD4;  // Q
      assert UpdateByte(0x4AD4, 0x4D) == 0xA4E7;  // QM
      assert UpdateByte(0xA4E7, 0x43) == 0x6AC9;  // QMC
      assert UpdateByte(0x6AC9, 0x48) == 0xCD20;  // QMCH
      assert UpdateByte(0xCD20, 0x47) == 0x10C2;  // QMCHG
      assert UpdateByte(0x10C2, 0x43) == 0xA896;  // QMCHGC
      assert UpdateByte(0xA896, 0x52) == 0xD855;  // QMCHGCR
    }
    FrameWith(QMCHGCR, 0xD855, 0xD8, 0x55);
  }

  lemma QmuchgcrFrame()
    ensures RequestFrame(QMUCHGCR) == QMUCHGCR + [0x26, 0x34, 0x0D]
  {
    assert Checksum(QMUCHGCR) == 0x2634 by {
      assert UpdateByte(0x0000, 0x51) == 0x4AD4;  // Q
      assert UpdateByte(0x4AD4, 0x4D) == 0xA4E7;  // QM
      assert UpdateByte(0xA4E7, 0x55) == 0x183E;  // QMU
      assert UpdateByte(0x183E, 0x43) == 0xD59E;  // QMUC
      assert UpdateByte(0xD59E, 0x48) == 0xCC14;  // QMUCH
      assert UpdateByte(0xCC14, 0x47) == 0x34E3;  // QMUCHG
      assert UpdateByte(0x34E3, 0x43) == 0xED70;  // QMUCHGC
      assert UpdateByte(0xED70, 0x52) == 0x2634;  // QMUCHGCR
    }
    FrameWith(QMUCHGCR, 0x2634, 0x26, 0x34);
  }

  lemma QbootFrame()
    ensures RequestFrame(QBOOT) == QBOOT + [0x0A, 0x88, 0x0D]
  {
    assert Checksum(QBOOT) == 0x0A88 by {
      assert UpdateByte(0x0000, 0x51) == 0x4AD4;  // Q
      assert UpdateByte(0x4AD4, 0x42) == 0x5508;  // QB
      assert UpdateByte(0x5508, 0x4F) == 0xBB7B;  // QBO
      assert UpdateByte(0xBB7B, 0x4F) == 0xD49B;  // QBOO
      assert UpdateByte(0xD49B, 0x54) == 0x0A88;  // QBOOT
    }
    FrameWith(QBOOT, 0x0A88, 0x0A, 0x88);
  }

  lemma QopmFrame()
    ensures RequestFrame(QOPM) == QOPM + [0xA5, 0xC5, 0x0D]
  {
    assert Checksum(QOPM) == 0xA5C5 by {
      assert UpdateByte(0x0000, 0x51) == 0x4AD4;  // Q
      assert UpdateByte(0x4AD4, 0x4F) == 0x84A5;  // QO
      assert UpdateByte(0x84A5, 0x50) == 0x2EF9;  // QOP
      assert UpdateByte(0x2EF9, 0x4D) == 0xA5C5;  // QOPM
    }
    FrameWith(QOPM, 0xA5C5, 0xA5, 0xC5);
  }

  lemma QpiriFrame()
    ensures RequestFrame(QPIRI) == QPIRI + [0xF8, 0x54, 0x0D]
  {
    assert Checksum(QPIRI) == 0xF854 by { KnownVectors(); }
    FrameWith(QPIRI, 0xF854, 0xF8, 0x54);
  }

  lemma QpigsFrame()
    ensures RequestFrame(QPIGS) == QPIGS + [0xB7, 0xA9, 0x0D]
  {
    assert Checksum(QPIGS) == 0xB7A9 by { KnownVectors(); }
    FrameWith(QPIGS, 0xB7A9, 0xB7, 0xA9);
  }

  lemma QpiwsFrame()
    ensures RequestFrame(QPIWS) == QPIWS + [0xB4, 0xDA, 0x0D]
  {
    assert Checksum(QPIWS) == 0xB4DA by { KnownVectors(); }
    FrameWith(QPIWS, 0xB4DA, 0xB4, 0xDA);
  }

  /** As written, the table's `QMOD` entry is not the frame the driver sends
      for `QMOD`: its checksum bytes are those of `QPIGS`. */
  lemma MockQmodFrameMismatch()
    ensures MOCK_QMOD_FRAME != RequestFrame(QMOD)
    ensures MOCK_QMOD_FRAME == QMOD + ToBeBytes(Checksum(QPIGS)) + [CR]
  {
    MockQmodFrameCorrected();
    QpigsFrame();
    assert MOCK_QMOD_FRAME[4] != MOCK_QMOD_FRAME_CORRECTED[4];
  }

  /** With the checksum of `QMOD` in its place, the entry is the driver's frame. */
  lemma MockQmodFrameCorrected()
    ensures MOCK_QMOD_FRAME_CORRECTED == RequestFrame(QMOD)
  {
    assert Checksum(QMOD) == 0x49C1 by { KnownVectors(); }
    FrameWith(QMOD, 0x49C1, 0x49, 0xC1);
  }

  lemma MockFormatting()
    ensures FormatUnsigned(MOCK_PROTOCOL_ID) == [0x31, 0x32, 0x33, 0x34]
    ensures ProtocolIdPayload(MOCK_PROTOCOL_ID) == [0x50, 0x49, 0x31, 0x32, 0x33, 0x34]
  {
    assert FormatUnsigned(1) == [0x31];
    assert FormatUnsigned(12) == [0x31, 0x32];
    assert FormatUnsigned(123) == [0x31, 0x32, 0x33];
  }

  /** The checksum of the mock's `PI1234`. */
  lemma Pi1234Checksum()
    ensures Checksum([0x50, 0x49, 0x31, 0x32, 0x33, 0x34]) == 0x1E09
  {
    assert UpdateByte(0x0000, 0x50) == 0x5AF5;  // P
    assert UpdateByte(0x5AF5, 0x49) == 0xD752;  // PI
    assert UpdateByte(0xD752, 0x31) == 0xCFE8;  // PI1
    assert UpdateByte(0xCFE8, 0x32) == 0xD6B2;  // PI12
    assert UpdateByte(0xD6B2, 0x33) == 0x1F8B;  // PI123
    assert UpdateByte(0x1F8B, 0x34) == 0x1E09;  // PI1234
  }

  /** The checksum of the mock's answer to `QPI`. */
  lemma MockProtocolIdChecksum()
    ensures Checksum(ProtocolIdPayload(MOCK_PROTOCOL_ID)) == 0x1E09
  {
    var p := ProtocolIdPayload(MOCK_PROTOCOL_ID);
    assert p == [0x50, 0x49, 0x31, 0x32, 0x33, 0x34] by { MockFormatting(); }
    Pi1234Checksum();
  }

  /** The mock's answer to `QPI` has a checksum free of carriage returns. */
  lemma MockProtocolIdResponse()
    ensures CR !in ToBeBytes(Checksum(ProtocolIdPayload(MOCK_PROTOCOL_ID)))
  {
    MockProtocolIdChecksum();
    Pi1234Bytes(Checksum(ProtocolIdPayload(MOCK_PROTOCOL_ID)));
  }

  lemma Pi1234Bytes(h: bv16)
    requires h == 0x1E09
    ensures ToBeBytes(h) == [0x1E, 0x09] && CR !in ToBeBytes(h)
  {
  }

  /** Read from a mock configured with protocol id `n`, the answer to `QPI` is `n`. */
  lemma MkResProtocolIdReply(n: nat)
    requires n <= USIZE_MAX && CR !in ToBeBytes(Checksum(ProtocolIdPayload(n)))
    ensures ProtocolIdReply(MkRes(ProtocolIdPayload(n)), None) == Returns(Ok(n))
  {
    var p := ProtocolIdPayload(n);
    DecodeMkRes(p);
    ProtocolIdRoundTrip(OPEN_PAREN, n, [], None);
    assert [OPEN_PAREN] + RequestFrame(p) + [] == MkRes(p);
  }

  /** The mock's prepared answer to `QPI`, read as a whole stream, returns 1234. */
  lemma MockQpiReply()
    ensures ProtocolIdReply(MOCK_RES_QPI, None) == Returns(Ok(MOCK_PROTOCOL_ID))
  {
    MockProtocolIdResponse();
    MkResProtocolIdReply(MOCK_PROTOCOL_ID);
  }

  /** The state `from_stream` leaves a driver in on a fresh stream to the
      mock: the mock's bytes `reply` ready to be read, nothing sent, nothing
      buffered, and no I/O failure. */
  predicate FreshOnMock(inverter: Inverter, reply: seq<byte>)
    reads inverter
  {
    && inverter.pending == reply && inverter.readFault == None
    && inverter.sent == [] && inverter.buffered == []
    && inverter.writeFault == None && inverter.flushFault == None
  }

  /** `query_protocol_id` over a fresh stream holding `mk_res` of the
      protocol-id payload for `n`: the driver sends exactly its `QPI` frame
      and the query returns `n`. */
  method ProtocolIdExchange(n: nat, inverter: Inverter) returns (id: Completion<nat>, request: seq<byte>)
    requires n <= USIZE_MAX && CR !in ToBeBytes(Checksum(ProtocolIdPayload(n)))
    requires FreshOnMock(inverter, MkRes(ProtocolIdPayload(n)))
    modifies inverter
    ensures request == RequestFrame(QPI)
    ensures id == Returns(Ok(n))
  {
    ghost var expected := ProtocolIdReply(inverter.pending, inverter.readFault);
    assert expected == Returns(Ok(n)) by { MkResProtocolIdReply(n); }
    ghost var frame := RequestFrame(QPI);
    id := inverter.QueryProtocolId();
    request := inverter.sent;
    assert request == frame by {
      assert [] + [] + frame == frame;
    }
  }

  /** `test_query_protocol_id`: over a fresh stream holding the mock's
      protocol-id reply, the driver sends exactly its `QPI` frame, the mock
      answers that frame with that reply, and the query returns 1234. */
  method MockProtocolIdExchange(inverter: Inverter) returns (id: Completion<nat>, request: seq<byte>)
    requires FreshOnMock(inverter, MOCK_RES_QPI)
    modifies inverter
    ensures request == RequestFrame(QPI)
    ensures MockRespond(request) == Reply(MOCK_RES_QPI)
    ensures id == Returns(Ok(MOCK_PROTOCOL_ID))
  {
    MockProtocolIdResponse();
    MockAnswersQpi();
    id, request := ProtocolIdExchange(MOCK_PROTOCOL_ID, inverter);
  }

  /** `test_query_serial_number` against `query_serial_number` as written:
      whatever the mock holds ready, when the driver starts reading the mock
      has received nothing, because the `QID` frame is still in the driver's
      write buffer. Without a carriage return the mock never completes a line,
      so it never reaches its match and never answers. */
  method MockSerialNumberExchange(reply: seq<byte>, inverter: Inverter) returns (request: seq<byte>, unflushed: seq<byte>)
    requires FreshOnMock(inverter, reply)
    modifies inverter
    ensures request == []
    ensures unflushed == RequestFrame(QID)
    ensures CR !in request
  {
    var _ := inverter.QuerySerialNumber();
    request := inverter.sent;
    unflushed := inverter.buffered;
  }

  /** The same exchange with the flush in place: the mock receives exactly
      the `QID` frame, which `QidFrame` shows is the one it answers. */
  method MockSerialNumberExchangeFlushed(reply: seq<byte>, inverter: Inverter) returns (request: seq<byte>, unflushed: seq<byte>)
    requires FreshOnMock(inverter, reply)
    modifies inverter
    ensures request == RequestFrame(QID)
    ensures unflushed == []
  {
    var _ := inverter.QuerySerialNumberFlushed();
    request := inverter.sent;
    unflushed := inverter.buffered;
  }
}
