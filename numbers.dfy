/** Fixed-width integers and the decimal text parser of Rust's integer
    `FromStr`, together with the canonical decimal rendering it inverts. */
module Numbers {
  import opened Bytes
  import opened Errors

  type u8 = x: int | 0 <= x < 0x100
  type u16 = x: int | 0 <= x < 0x1_0000
  type u32 = x: int | 0 <= x < 0x1_0000_0000
  type u64 = x: int | 0 <= x < 0x1_0000_0000_0000_0000
  /** `usize` on a 64-bit target. */
  type usize = u64
  type i32 = x: int | -0x8000_0000 <= x < 0x8000_0000

  const U8_MAX: nat := 0xFF
  const U16_MAX: nat := 0xFFFF
  const U32_MAX: nat := 0xFFFF_FFFF
  const U64_MAX: nat := 0xFFFF_FFFF_FFFF_FFFF
  const USIZE_MAX: nat := U64_MAX
  const I32_MIN: int := -0x8000_0000
  const I32_MAX: nat := 0x7FFF_FFFF

  predicate IsDigit(b: byte) {
    '0' as int <= b <= '9' as int
  }

  predicate AllDigits(s: Bytes) {
    forall i :: 0 <= i < |s| ==> IsDigit(s[i])
  }

  /** The number the decimal digits `s` denote (most significant first). */
  function DigitsValue(s: Bytes): nat
    requires AllDigits(s)
    decreases |s|
  {
    if s == [] then 0 else DigitsValue(s[..|s| - 1]) * 10 + (s[|s| - 1] - '0' as int)
  }

  /** `<uN as FromStr>::from_str` for the unsigned type whose largest value is
      `max`: an optional `+`, then at least one ASCII digit, denoting at most `max`.
      Everything else (the empty string, a lone sign, a `-`, any other byte,
      overflow) is an error. */
  function ParseUnsigned(s: Bytes, max: nat): (r: Option<nat>)
    ensures r.Some? ==> r.value <= max
  {
    var digits := if |s| > 0 && s[0] == PLUS then s[1..] else s;
    if digits != [] && AllDigits(digits) && DigitsValue(digits) <= max then Some(DigitsValue(digits))
    else None
  }

  /** `<iN as FromStr>::from_str` for the signed type with range `min..=max`:
      a leading `-` negates, otherwise as `ParseUnsigned`. */
  function ParseSigned(s: Bytes, min: int, max: nat): (r: Option<int>)
    requires min <= 0
    ensures r.Some? ==> min <= r.value <= max
  {
    if |s| > 0 && s[0] == MINUS then
      var digits := s[1..];
      if digits != [] && AllDigits(digits) && min <= -(DigitsValue(digits) as int) then Some(-(DigitsValue(digits) as int))
      else None
    else
      match ParseUnsigned(s, max)
      case Some(n) => Some(n)
      case None => None
  }

  function DigitByte(d: nat): byte
    requires d < 10
  {
    '0' as int + d
  }

  /** The canonical decimal text of `n`: no sign, no leading zeros. */
  function Decimal(n: nat): Bytes
    decreases n
  {
    if n < 10 then [DigitByte(n)] else Decimal(n / 10) + [DigitByte(n % 10)]
  }

  /** The canonical decimal text of a signed number. */
  function SignedDecimal(x: int): Bytes {
    if x < 0 then [MINUS] + Decimal(-x) else Decimal(x)
  }

  lemma {:induction false} DecimalDigits(n: nat)
    ensures Decimal(n) != [] && AllDigits(Decimal(n))
    ensures DigitsValue(Decimal(n)) == n
    decreases n
  {
    if n >= 10 {
      DecimalDigits(n / 10);
      var s := Decimal(n);
      assert s[..|s| - 1] == Decimal(n / 10);
    }
  }

  /** Decimal text is ASCII, so it is valid UTF-8 whatever checks it. */
  lemma {:induction false} DecimalAscii(n: nat)
    ensures forall i :: 0 <= i < |Decimal(n)| ==> Decimal(n)[i] < 0x80
    decreases n
  {
    if n >= 10 {
      DecimalAscii(n / 10);
    }
  }

  /** The parser reads back every canonical rendering, and rejects it exactly
      when the number does not fit. */
  lemma UnsignedRoundTrip(n: nat, max: nat)
    ensures ParseUnsigned(Decimal(n), max) == if n <= max then Some(n) else None
  {
    DecimalDigits(n);
    assert IsDigit(Decimal(n)[0]);
  }

  /** A leading `+` is accepted as well. */
  lemma UnsignedPlus(n: nat, max: nat)
    ensures ParseUnsigned([PLUS] + Decimal(n), max) == if n <= max then Some(n) else None
  {
    DecimalDigits(n);
    assert ([PLUS] + Decimal(n))[1..] == Decimal(n);
  }

  lemma SignedRoundTrip(x: int, min: int, max: nat)
    requires min <= 0
    ensures ParseSigned(SignedDecimal(x), min, max) == if min <= x <= max then Some(x) else None
  {
    if x < 0 {
      DecimalDigits(-x);
      assert ([MINUS] + Decimal(-x))[1..] == Decimal(-x);
    } else {
      DecimalDigits(x);
      assert IsDigit(Decimal(x)[0]);
      UnsignedRoundTrip(x, max);
    }
  }

  /** Whatever the unsigned parser accepts is ASCII (an optional `+` and digits). */
  lemma UnsignedAscii(s: Bytes, max: nat)
    requires ParseUnsigned(s, max).Some?
    ensures forall i :: 0 <= i < |s| ==> s[i] < 0x80
  {
    var digits := if |s| > 0 && s[0] == PLUS then s[1..] else s;
    forall i | 0 <= i < |s| ensures s[i] < 0x80 {
      if |s| > 0 && s[0] == PLUS && i > 0 {
        assert s[i] == digits[i - 1];
      }
    }
  }

  /** Text containing a byte that is neither a digit nor a sign never parses. */
  lemma UnsignedRejectsOther(s: Bytes, max: nat, i: nat)
    requires i < |s| && !IsDigit(s[i]) && s[i] != PLUS
    ensures ParseUnsigned(s, max) == None
  {
    var digits := if |s| > 0 && s[0] == PLUS then s[1..] else s;
    if |s| > 0 && s[0] == PLUS {
      assert digits[i - 1] == s[i];
    } else {
      assert digits[i] == s[i];
    }
  }
}
