/** `digest_crc`: CRC-16/XMODEM over a byte sequence. The parameters are those
    of the catalogue entry of that name: width 16, polynomial 0x1021, initial
    register 0x0000, input and output not reflected, final XOR 0x0000. With
    no reflection the bits of each byte enter most significant first. */
module Crc {
  import opened Std

  const POLY: bv16 := 0x1021
  const INIT: bv16 := 0x0000
  const XOROUT: bv16 := 0x0000

  /** One step of the polynomial division: shift the register left by one and,
      if the bit shifted out was set, subtract (XOR) the polynomial. */
  function ShiftBit(r: bv16): bv16 {
    if r & 0x8000 != 0 then (r << 1) ^ POLY else r << 1
  }

  function ShiftBits(r: bv16, n: nat): bv16
    decreases n
  {
    if n == 0 then r else ShiftBits(ShiftBit(r), n - 1)
  }

  /** Feeds one byte into the register: the byte enters the top eight bits,
      then eight division steps follow. */
  function UpdateByte(r: bv16, b: byte): bv16 {
    ShiftBits(r ^ ((b as bv16) << 8), 8)
  }

  /** The register after feeding `data`, first byte first, into register `r`. */
  function CrcFrom(r: bv16, data: seq<byte>): bv16
    decreases |data|
  {
    if data == [] then r else CrcFrom(UpdateByte(r, data[0]), data[1..])
  }

  /** `digest_crc(data)`. Its result is a `bv16`, so it always fits in 16 bits,
      and as a function it depends on `data` alone. */
  function Checksum(data: seq<byte>): bv16 {
    CrcFrom(INIT, data) ^ XOROUT
  }

  // Command mnemonics, as the ASCII bytes `b"..."` spells.
  const QMOD: seq<byte> := [0x51, 0x4D, 0x4F, 0x44]
  const QPIGS: seq<byte> := [0x51, 0x50, 0x49, 0x47, 0x53]
  const QPIRI: seq<byte> := [0x51, 0x50, 0x49, 0x52, 0x49]
  const QPIWS: seq<byte> := [0x51, 0x50, 0x49, 0x57, 0x53]

  // ---------------------------------------------------------------------------
  // The register loop
  // ---------------------------------------------------------------------------

  lemma {:induction false} ShiftBitsSnoc(r: bv16, n: nat)
    ensures ShiftBits(r, n + 1) == ShiftBit(ShiftBits(r, n))
    decreases n
  {
    if n > 0 {
      ShiftBitsSnoc(ShiftBit(r), n - 1);
    }
  }

  /** Feeding `a + b` is feeding `a`, then feeding `b` from where `a` left the
      register: the digest keeps no state besides the register. */
  lemma {:induction false} CrcFromConcat(r: bv16, a: seq<byte>, b: seq<byte>)
    ensures CrcFrom(r, a + b) == CrcFrom(CrcFrom(r, a), b)
    decreases |a|
  {
    if a == [] {
      assert a + b == b;
    } else {
      assert (a + b)[1..] == a[1..] + b;
      CrcFromConcat(UpdateByte(r, a[0]), a[1..], b);
    }
  }

  lemma CrcFromSnoc(r: bv16, data: seq<byte>, b: byte)
    ensures CrcFrom(r, data + [b]) == UpdateByte(CrcFrom(r, data), b)
  {
    CrcFromConcat(r, data, [b]);
    assert [b][1..] == [];
  }

  /** XMODEM's final XOR value is zero: the register is the checksum. */
  lemma NoFinalXor(r: bv16)
    ensures r ^ XOROUT == r
  {
  }

  /** Runs `n` division steps on the register, one bit at a time. */
  method ShiftLoop(r0: bv16, n: nat) returns (r: bv16)
    ensures r == ShiftBits(r0, n)
  {
    r := r0;
    for k := 0 to n
      invariant r == ShiftBits(r0, k)
    {
      ShiftBitsSnoc(r0, k);
      r := ShiftBit(r);
    }
  }

  /** Feeds one byte into the register, one bit at a time. */
  method FeedByte(crc: bv16, b: byte) returns (r: bv16)
    ensures r == UpdateByte(crc, b)
  {
    r := ShiftLoop(crc ^ ((b as bv16) << 8), 8);
  }

  /** The digest as the library runs it: a 16-bit register that takes the
      input one byte at a time. */
  method DigestCrc(data: seq<byte>) returns (crc: bv16)
    ensures crc == Checksum(data)
  {
    crc := INIT;
    for i := 0 to |data|
      invariant crc == CrcFrom(INIT, data[..i])
    {
      crc := FeedByte(crc, data[i]);
      assert data[..i + 1] == data[..i] + [data[i]];
      CrcFromSnoc(INIT, data[..i], data[i]);
    }
    assert data[..|data|] == data;
    NoFinalXor(crc);
    crc := crc ^ XOROUT;
  }

  // ---------------------------------------------------------------------------
  // Known values
  // ---------------------------------------------------------------------------

  /** The repository's own vectors, plus the empty input, which leaves the
      initial register 0x0000 untouched. Each step names the register after
      one more byte. */
  lemma KnownVectors()
    ensures Checksum([]) == 0x0000
    ensures Checksum(QMOD) == 0x49C1
    ensures Checksum(QPIGS) == 0xB7A9
    ensures Checksum(QPIRI) == 0xF854
    ensures Checksum(QPIWS) == 0xB4DA
  {
    assert UpdateByte(0x0000, 0x51) == 0x4AD4;  // Q
    assert UpdateByte(0x4AD4, 0x4D) == 0xA4E7;  // QM
    assert UpdateByte(0xA4E7, 0x4F) == 0xAB45;  // QMO
    assert UpdateByte(0xAB45, 0x44) == 0x49C1;  // QMOD

    assert UpdateByte(0x4AD4, 0x50) == 0x677B;  // QP
    assert UpdateByte(0x677B, 0x49) == 0xBEAC;  // QPI
    assert UpdateByte(0xBEAC, 0x47) == 0xD236;  // QPIG
    assert UpdateByte(0xD236, 0x53) == 0xB7A9;  // QPIGS

    assert UpdateByte(0xBEAC, 0x52) == 0x90A2;  // QPIR
    assert UpdateByte(0x90A2, 0x49) == 0xF854;  // QPIRI

    assert UpdateByte(0xBEAC, 0x57) == 0xC007;  // QPIW
    assert UpdateByte(0xC007, 0x53) == 0xB4DA;  // QPIWS
  }

  // ---------------------------------------------------------------------------
  // Error detection
  // ---------------------------------------------------------------------------

  /** A division step is injective. When the two registers agree in the bit
      shifted out, the same polynomial is folded into both shifted registers;
      when they disagree, only one result has its lowest bit set, the
      polynomial's constant term. */
  lemma ShiftBitInjective(a: bv16, b: bv16)
    requires a != b
    ensures ShiftBit(a) != ShiftBit(b)
  {
    if a & 0x8000 != 0 {
      if b & 0x8000 != 0 {
        assert a << 1 != b << 1;
      } else {
        assert ShiftBit(a) & 1 == 1 && ShiftBit(b) & 1 == 0;
      }
    } else {
      if b & 0x8000 != 0 {
        assert ShiftBit(a) & 1 == 0 && ShiftBit(b) & 1 == 1;
      } else {
        assert a << 1 != b << 1;
      }
    }
  }

  lemma {:induction false} ShiftBitsInjective(a: bv16, b: bv16, n: nat)
    requires a != b
    ensures ShiftBits(a, n) != ShiftBits(b, n)
    decreases n
  {
    if n > 0 {
      ShiftBitInjective(a, b);
      ShiftBitsInjective(ShiftBit(a), ShiftBit(b), n - 1);
    }
  }

  lemma XorSeparates(a: bv16, b: bv16, t: bv16)
    requires a != b
    ensures a ^ t != b ^ t
  {
  }

  lemma FedBytesSeparate(r: bv16, b1: byte, b2: byte)
    requires b1 != b2
    ensures r ^ ((b1 as bv16) << 8) != r ^ ((b2 as bv16) << 8)
  {
    assert (b1 as bv16) << 8 != (b2 as bv16) << 8;
  }

  /** Two different registers stay different after the same byte. */
  lemma UpdateByteSeparatesRegisters(r1: bv16, r2: bv16, b: byte)
    requires r1 != r2
    ensures UpdateByte(r1, b) != UpdateByte(r2, b)
  {
    XorSeparates(r1, r2, (b as bv16) << 8);
    ShiftBitsInjective(r1 ^ ((b as bv16) << 8), r2 ^ ((b as bv16) << 8), 8);
  }

  /** One register fed two different bytes gives two different registers. */
  lemma UpdateByteSeparatesBytes(r: bv16, b1: byte, b2: byte)
    requires b1 != b2
    ensures UpdateByte(r, b1) != UpdateByte(r, b2)
  {
    FedBytesSeparate(r, b1, b2);
    ShiftBitsInjective(r ^ ((b1 as bv16) << 8), r ^ ((b2 as bv16) << 8), 8);
  }

  lemma {:induction false} CrcFromSeparates(r1: bv16, r2: bv16, data: seq<byte>)
    requires r1 != r2
    ensures CrcFrom(r1, data) != CrcFrom(r2, data)
    decreases |data|
  {
    if data != [] {
      UpdateByteSeparatesRegisters(r1, r2, data[0]);
      CrcFromSeparates(UpdateByte(r1, data[0]), UpdateByte(r2, data[0]), data[1..]);
    }
  }

  /** Any corruption confined to a single byte, a single flipped bit among
      them, changes the checksum. */
  lemma SingleByteErrorDetected(data: seq<byte>, i: nat, x: byte)
    requires i < |data| && x != data[i]
    ensures Checksum(data[i := x]) != Checksum(data)
  {
    var bad := data[i := x];
    var before, after := data[..i], data[i + 1..];
    assert data == before + [data[i]] + after;
    assert bad == before + [x] + after;
    CrcFromConcat(INIT, before + [data[i]], after);
    CrcFromConcat(INIT, before + [x], after);
    CrcFromConcat(INIT, before, [data[i]]);
    CrcFromConcat(INIT, before, [x]);
    UpdateByteSeparatesBytes(CrcFrom(INIT, before), data[i], x);
    CrcFromSeparates(CrcFrom(INIT, before + [data[i]]), CrcFrom(INIT, before + [x]), after);
  }

  lemma SingleBitErrorDetected(data: seq<byte>, i: nat, bit: nat)
    requires i < |data| && bit < 8
    ensures Checksum(data[i := data[i] ^ ((1 as byte) << bit)]) != Checksum(data)
  {
    assert (1 as byte) << bit != 0;
    SingleByteErrorDetected(data, i, data[i] ^ ((1 as byte) << bit));
  }
}
