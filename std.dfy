/** The parts of Rust's standard library that the inverter codec leans on:
    `Option`, `Result`, the error types it wraps (`std::io::Error`,
    `std::str::Utf8Error`, `std::num::ParseIntError`), UTF-8 validation as
    done by `std::str::from_utf8`, `usize::from_str`, and the decimal
    rendering of a `usize` by `format!("{}", n)`. */
module Std {

  /** `u8`. */
  type byte = bv8

  datatype Option<T> = None | Some(value: T)

  datatype Result<T, E> = Ok(value: T) | Err(error: E)

  /** `std::io::Error`. The codec never looks inside one; it only passes it on. */
  datatype IoError = IoError(code: int)

  /** `std::str::Utf8Error`: how many leading bytes were valid, and the length
      of the invalid sequence that follows (`None` when the input ended in the
      middle of a character). */
  datatype Utf8Error = Utf8Error(validUpTo: nat, errorLen: Option<nat>)

  /** The kinds of `std::num::IntErrorKind` that an unsigned decimal parse can produce. */
  datatype IntErrorKind = Empty | InvalidDigit | PosOverflow

  /** `std::num::ParseIntError`. */
  datatype ParseIntError = ParseIntError(kind: IntErrorKind)

  /** `usize::MAX` on a 64-bit target. */
  const USIZE_MAX: nat := 0xFFFF_FFFF_FFFF_FFFF

  const PLUS: byte := 0x2B
  const MINUS: byte := 0x2D
  const ZERO: byte := 0x30

  // ---------------------------------------------------------------------------
  // UTF-8 validation (`std::str::from_utf8`)
  // ---------------------------------------------------------------------------

  predicate IsAscii(s: seq<byte>) {
    forall i :: 0 <= i < |s| ==> s[i] < 0x80
  }

  predicate IsContinuation(b: byte) {
    0x80 <= b <= 0xBF
  }

  /** What the validator finds at the start of a non-empty input: a character
      of the given width, or an invalid sequence. */
  datatype CharScan = Char(width: nat) | Bad(errorLen: Option<nat>)

  /** One step of the standard library's validator. A lead byte announces a
      width of 2 (C2..DF), 3 (E0..EF) or 4 (F0..F4); the second byte's range
      depends on the lead byte so that overlong forms, surrogates and code
      points above U+10FFFF are refused. The reported error length is the
      number of bytes up to, not including, the first one that is wrong. */
  function ScanChar(v: seq<byte>): (c: CharScan)
    requires |v| > 0
    ensures c.Char? ==> 1 <= c.width <= 4 && c.width <= |v|
    ensures c.Char? && c.width == 1 <==> v[0] < 0x80
    ensures c.Bad? && c.errorLen.Some? ==> 1 <= c.errorLen.value <= 3
  {
    var b0 := v[0];
    if b0 < 0x80 then Char(1)
    else if 0xC2 <= b0 <= 0xDF then
      if |v| < 2 then Bad(None)
      else if !IsContinuation(v[1]) then Bad(Some(1))
      else Char(2)
    else if 0xE0 <= b0 <= 0xEF then
      if |v| < 2 then Bad(None)
      else if !SecondOfThree(b0, v[1]) then Bad(Some(1))
      else if |v| < 3 then Bad(None)
      else if !IsContinuation(v[2]) then Bad(Some(2))
      else Char(3)
    else if 0xF0 <= b0 <= 0xF4 then
      if |v| < 2 then Bad(None)
      else if !SecondOfFour(b0, v[1]) then Bad(Some(1))
      else if |v| < 3 then Bad(None)
      else if !IsContinuation(v[2]) then Bad(Some(2))
      else if |v| < 4 then Bad(None)
      else if !IsContinuation(v[3]) then Bad(Some(3))
      else Char(4)
    else Bad(Some(1))
  }

  predicate SecondOfThree(b0: byte, b1: byte) {
    || (b0 == 0xE0 && 0xA0 <= b1 <= 0xBF)
    || (0xE1 <= b0 <= 0xEC && IsContinuation(b1))
    || (b0 == 0xED && 0x80 <= b1 <= 0x9F)
    || (0xEE <= b0 <= 0xEF && IsContinuation(b1))
  }

  predicate SecondOfFour(b0: byte, b1: byte) {
    || (b0 == 0xF0 && 0x90 <= b1 <= 0xBF)
    || (0xF1 <= b0 <= 0xF3 && IsContinuation(b1))
    || (b0 == 0xF4 && 0x80 <= b1 <= 0x8F)
  }

  /** Validates `v[start..]`, reporting error positions relative to the whole of `v`. */
  function ValidateFrom(v: seq<byte>, start: nat): (r: Result<(), Utf8Error>)
    requires start <= |v|
    ensures r.Err? ==> start <= r.error.validUpTo < |v|
    ensures r.Err? && r.error.errorLen.Some? ==> 1 <= r.error.errorLen.value <= 3
    decreases |v| - start
  {
    if start == |v| then Ok(())
    else
      match ScanChar(v[start..])
      case Char(w) => ValidateFrom(v, start + w)
      case Bad(len) => Err(Utf8Error(start, len))
  }

  /** `std::str::from_utf8`: the same bytes, now known to be text, or the first error. */
  function FromUtf8(v: seq<byte>): (r: Result<seq<byte>, Utf8Error>)
    ensures r.Ok? ==> r.value == v
    ensures r.Err? ==> r.error.validUpTo < |v|
  {
    match ValidateFrom(v, 0)
    case Ok(_) => Ok(v)
    case Err(e) => Err(e)
  }

  lemma {:induction false} AsciiValidFrom(v: seq<byte>, start: nat)
    requires start <= |v| && IsAscii(v)
    ensures ValidateFrom(v, start) == Ok(())
    decreases |v| - start
  {
    if start < |v| {
      assert v[start..][0] == v[start];
      AsciiValidFrom(v, start + 1);
    }
  }

  /** ASCII text is always valid UTF-8. */
  lemma AsciiIsUtf8(v: seq<byte>)
    requires IsAscii(v)
    ensures FromUtf8(v) == Ok(v)
  {
    AsciiValidFrom(v, 0);
  }

  // ---------------------------------------------------------------------------
  // Decimal numbers (`usize::from_str`, `format!("{}", n)`)
  // ---------------------------------------------------------------------------

  predicate IsDigit(b: byte) {
    0x30 <= b <= 0x39
  }

  predicate AllDigits(s: seq<byte>) {
    forall i :: 0 <= i < |s| ==> IsDigit(s[i])
  }

  function DigitValue(b: byte): (d: nat)
    requires IsDigit(b)
    ensures d < 10
  {
    (b - ZERO) as nat
  }

  function DigitByte(d: nat): (b: byte)
    requires d < 10
    ensures IsDigit(b) && DigitValue(b) == d
  {
    ZERO + d as byte
  }

  /** The mathematical value of the digits `s` read after the value `acc`
      (Horner's rule), with no bound. */
  function Horner(acc: nat, s: seq<byte>): nat
    requires AllDigits(s)
    decreases |s|
  {
    if s == [] then acc else Horner(acc * 10 + DigitValue(s[0]), s[1..])
  }

  lemma {:induction false} HornerGrows(acc: nat, s: seq<byte>)
    requires AllDigits(s)
    ensures Horner(acc, s) >= acc
    ensures s != [] ==> Horner(acc, s) >= acc * 10 + DigitValue(s[0])
    decreases |s|
  {
    if s != [] {
      HornerGrows(acc * 10 + DigitValue(s[0]), s[1..]);
    }
  }

  lemma {:induction false} HornerSnoc(acc: nat, s: seq<byte>, b: byte)
    requires AllDigits(s) && IsDigit(b)
    ensures AllDigits(s + [b])
    ensures Horner(acc, s + [b]) == Horner(acc, s) * 10 + DigitValue(b)
    decreases |s|
  {
    if s == [] {
      assert [b][1..] == [];
    } else {
      assert (s + [b])[1..] == s[1..] + [b];
      HornerSnoc(acc * 10 + DigitValue(s[0]), s[1..], b);
    }
  }

  /** The digit loop of `from_str_radix`: at each byte the digit check comes
      first, then the checked multiply-and-add, so the first offending byte
      decides between `InvalidDigit` and `PosOverflow`. */
  function AccumulateDigits(acc: nat, s: seq<byte>): (r: Result<nat, ParseIntError>)
    requires acc <= USIZE_MAX
    ensures r.Ok? <==> AllDigits(s) && Horner(acc, s) <= USIZE_MAX
    ensures r.Ok? ==> r.value == Horner(acc, s)
    ensures r.Err? && r.error.kind == InvalidDigit ==> !AllDigits(s)
    ensures r.Err? && AllDigits(s) ==> r.error.kind == PosOverflow
    ensures r.Err? ==> r.error.kind != Empty
    decreases |s|
  {
    if s == [] then Ok(acc)
    else if !IsDigit(s[0]) then Err(ParseIntError(InvalidDigit))
    else
      var next := acc * 10 + DigitValue(s[0]);
      if next > USIZE_MAX then
        assert AllDigits(s) ==> Horner(acc, s) > USIZE_MAX by {
          if AllDigits(s) { HornerGrows(acc, s); }
        }
        Err(ParseIntError(PosOverflow))
      else
        assert AllDigits(s) <==> AllDigits(s[1..]) by {
          if AllDigits(s[1..]) {
            forall i | 0 <= i < |s| ensures IsDigit(s[i]) {
              if i > 0 { assert s[i] == s[1..][i - 1]; }
            }
          }
        }
        AccumulateDigits(next, s[1..])
  }

  /** The first offending byte decides the error: a non-digit reached while
      the digits before it still fit gives `InvalidDigit`, and a digit prefix
      whose value exceeds `usize::MAX` gives `PosOverflow`. */
  lemma {:induction false} AccumulateDigitsFirstFault(acc: nat, s: seq<byte>)
    requires acc <= USIZE_MAX
    ensures (exists k :: 0 <= k < |s| && !IsDigit(s[k]) && AllDigits(s[..k]) && Horner(acc, s[..k]) <= USIZE_MAX) ==>
      AccumulateDigits(acc, s) == Err(ParseIntError(InvalidDigit))
    ensures (exists k :: 0 < k <= |s| && AllDigits(s[..k]) && Horner(acc, s[..k]) > USIZE_MAX) ==>
      AccumulateDigits(acc, s) == Err(ParseIntError(PosOverflow))
    decreases |s|
  {
    if s != [] {
      PrefixStep(acc, s);
      if IsDigit(s[0]) && acc * 10 + DigitValue(s[0]) <= USIZE_MAX {
        var next := acc * 10 + DigitValue(s[0]);
        var rest := s[1..];
        AccumulateDigitsFirstFault(next, rest);
        if k :| 0 < k <= |s| && AllDigits(s[..k]) && Horner(acc, s[..k]) > USIZE_MAX {
          assert AllDigits(rest[..k - 1]) && Horner(next, rest[..k - 1]) > USIZE_MAX;
          assert 0 < k - 1;
        }
        if k :| 0 <= k < |s| && !IsDigit(s[k]) && AllDigits(s[..k]) && Horner(acc, s[..k]) <= USIZE_MAX {
          assert k > 0 && rest[k - 1] == s[k];
          assert AllDigits(rest[..k - 1]) && Horner(next, rest[..k - 1]) <= USIZE_MAX;
        }
      }
    }
  }

  /** A digit prefix of `s` read after `acc` is the shorter prefix of
      `s[1..]` read after the first step, which carries the clauses of
      `AccumulateDigitsFirstFault` over its induction step; a prefix that
      starts with a non-digit is never all digits. */
  lemma PrefixStep(acc: nat, s: seq<byte>)
    requires |s| > 0
    ensures !IsDigit(s[0]) ==> forall k :: 0 < k <= |s| ==> !AllDigits(s[..k])
    ensures IsDigit(s[0]) ==> forall k :: 0 < k <= |s| ==> (AllDigits(s[..k]) <==> AllDigits(s[1..][..k - 1]))
    ensures IsDigit(s[0]) ==> forall k :: 0 < k <= |s| && AllDigits(s[..k]) ==>
      Horner(acc, s[..k]) == Horner(acc * 10 + DigitValue(s[0]), s[1..][..k - 1]) &&
      Horner(acc, s[..k]) >= acc * 10 + DigitValue(s[0])
  {
    forall k | 0 < k <= |s|
      ensures !IsDigit(s[0]) ==> !AllDigits(s[..k])
      ensures IsDigit(s[0]) ==> (AllDigits(s[..k]) <==> AllDigits(s[1..][..k - 1]))
      ensures IsDigit(s[0]) && AllDigits(s[..k]) ==>
        Horner(acc, s[..k]) == Horner(acc * 10 + DigitValue(s[0]), s[1..][..k - 1]) &&
        Horner(acc, s[..k]) >= acc * 10 + DigitValue(s[0])
    {
      assert s[..k][1..] == s[1..][..k - 1];
      assert s[..k][0] == s[0];
      if AllDigits(s[..k]) { HornerGrows(acc, s[..k]); }
      if IsDigit(s[0]) && AllDigits(s[1..][..k - 1]) {
        forall i | 0 <= i < k ensures IsDigit(s[..k][i]) {
          if i > 0 { assert s[..k][i] == s[1..][..k - 1][i - 1]; }
        }
      }
    }
  }

  /** The bytes `usize::from_str` reads as digits: all of them, or all but a leading `+`. */
  function Unsigned(s: seq<byte>): seq<byte> {
    if |s| > 0 && s[0] == PLUS then s[1..] else s
  }

  /** `usize::from_str`: an optional `+` followed by one or more decimal
      digits whose value is at most `usize::MAX`. */
  function UsizeFromStr(s: seq<byte>): (r: Result<nat, ParseIntError>)
    ensures s == [] ==> r == Err(ParseIntError(Empty))
    ensures r.Ok? <==> |Unsigned(s)| > 0 && AllDigits(Unsigned(s)) && Horner(0, Unsigned(s)) <= USIZE_MAX
    ensures r.Ok? ==> r.value == Horner(0, Unsigned(s))
    ensures r.Err? && r.error.kind == Empty <==> s == []
    ensures r.Err? && r.error.kind == InvalidDigit ==> s != [] && (Unsigned(s) == [] || !AllDigits(Unsigned(s)))
    ensures r.Err? && |Unsigned(s)| > 0 && AllDigits(Unsigned(s)) ==> r.error.kind == PosOverflow
    ensures s == [PLUS] || s == [MINUS] ==> r == Err(ParseIntError(InvalidDigit))
    ensures (exists k :: 0 <= k < |Unsigned(s)| && !IsDigit(Unsigned(s)[k]) && AllDigits(Unsigned(s)[..k]) &&
               Horner(0, Unsigned(s)[..k]) <= USIZE_MAX) ==>
      r == Err(ParseIntError(InvalidDigit))
    ensures (exists k :: 0 < k <= |Unsigned(s)| && AllDigits(Unsigned(s)[..k]) && Horner(0, Unsigned(s)[..k]) > USIZE_MAX) ==>
      r == Err(ParseIntError(PosOverflow))
  {
    if s == [] then Err(ParseIntError(Empty))
    else if s == [PLUS] || s == [MINUS] then Err(ParseIntError(InvalidDigit))
    else
      AccumulateDigitsFirstFault(0, Unsigned(s));
      AccumulateDigits(0, Unsigned(s))
  }

  /** `format!("{}", n)` for an unsigned integer: the digits of `n / 10`,
      then the last digit. */
  function FormatUnsigned(n: nat): (s: seq<byte>)
    ensures |s| > 0
  {
    if n < 10 then [DigitByte(n)]
    else FormatUnsigned(n / 10) + [DigitByte(n % 10)]
  }

  /** The rendering is decimal digits only, no sign and no leading zero, and
      its value is `n`. */
  lemma {:induction false} FormatUnsignedSpec(n: nat)
    ensures AllDigits(FormatUnsigned(n)) && Horner(0, FormatUnsigned(n)) == n
    ensures IsAscii(FormatUnsigned(n))
    ensures |FormatUnsigned(n)| > 1 ==> FormatUnsigned(n)[0] != ZERO
  {
    if n >= 10 {
      FormatUnsignedSpec(n / 10);
      HornerSnoc(0, FormatUnsigned(n / 10), DigitByte(n % 10));
    }
  }

  /** Rendering a `usize` and parsing it back gives the number. */
  lemma UsizeRoundTrip(n: nat)
    requires n <= USIZE_MAX
    ensures UsizeFromStr(FormatUnsigned(n)) == Ok(n)
  {
    var s := FormatUnsigned(n);
    FormatUnsignedSpec(n);
    assert Unsigned(s) == s by { assert IsDigit(s[0]); }
  }
}
