/**
 * The parts of the Java runtime the core depends on: 64-bit `long` and 32-bit `int`
 * arithmetic with wrap-around, `String.valueOf(long)`, `Long.parseLong`, the
 * `hashCode` recipes of `String` and `long`, and the unchecked exceptions that
 * escape the core.
 */
module Java {
  import opened Wrappers

  const LONG_MIN: int := -0x8000_0000_0000_0000
  const LONG_MAX: int := 0x7FFF_FFFF_FFFF_FFFF
  const INT_MIN: int := -0x8000_0000
  const INT_MAX: int := 0x7FFF_FFFF

  /** A Java `long`. */
  type Long = x: int | LONG_MIN <= x <= LONG_MAX

  /** A Java `int`. */
  type Int = x: int | INT_MIN <= x <= INT_MAX

  /** The unchecked exceptions that can leave the modelled code. */
  datatype Exception =
    | NumberFormatException
    | StringIndexOutOfBoundsException
    | NullPointerException
    | IllegalArgumentException(message: string)

  /** Two's-complement truncation of an integer to a `long`. */
  function WrapLong(x: int): (r: Long)
    ensures LONG_MIN <= x <= LONG_MAX ==> r == x
  {
    (x - LONG_MIN) % 0x1_0000_0000_0000_0000 + LONG_MIN
  }

  /** The truncation keeps `x` modulo 2^64. */
  lemma WrapLongCongruent(x: int)
    ensures (WrapLong(x) - x) % 0x1_0000_0000_0000_0000 == 0
  {
  }

  /** Two's-complement truncation of an integer to an `int`. */
  function WrapInt(x: int): (r: Int)
    ensures INT_MIN <= x <= INT_MAX ==> r == x
  {
    (x - INT_MIN) % 0x1_0000_0000 + INT_MIN
  }

  /** The truncation keeps `x` modulo 2^32. */
  lemma WrapIntCongruent(x: int)
    ensures (WrapInt(x) - x) % 0x1_0000_0000 == 0
  {
  }

  /** The Java expression `r + 1` on a `long`: it overflows from `LONG_MAX` to `LONG_MIN`. */
  function Inc(r: Long): (s: Long)
    ensures r < LONG_MAX ==> s == r + 1
    ensures r == LONG_MAX ==> s == LONG_MIN
    ensures s != r
  {
    WrapLong(r + 1)
  }

  predicate IsDigit(c: char) {
    '0' <= c <= '9'
  }

  function DigitChar(d: nat): (c: char)
    requires d < 10
    ensures IsDigit(c)
  {
    ('0' as int + d) as char
  }

  function DigitValue(c: char): (d: nat)
    requires IsDigit(c)
    ensures d < 10
  {
    c as int - '0' as int
  }

  /** Decimal digits of a natural number, most significant first, with no leading zero. */
  function NatToDecimal(n: nat): (s: string)
    decreases n
  {
    if n < 10 then [DigitChar(n)] else NatToDecimal(n / 10) + [DigitChar(n % 10)]
  }

  predicate AllDigits(s: string) {
    forall i :: 0 <= i < |s| ==> IsDigit(s[i])
  }

  /** The value of a string of decimal digits. */
  function DecimalValue(s: string): (n: nat)
    requires AllDigits(s)
    decreases |s|
  {
    if s == [] then 0 else DecimalValue(s[..|s| - 1]) * 10 + DigitValue(s[|s| - 1])
  }

  /** `String.valueOf(long)`: an optional minus sign followed by the decimal digits. */
  function LongToString(r: Long): (s: string)
    ensures |s| > 0 && (s[0] == '-' <==> r < 0)
    ensures var digits := if r < 0 then s[1..] else s;
      digits != [] && AllDigits(digits) && DecimalValue(digits) == (if r < 0 then -(r as int) else r as int)
  {
    var magnitude: nat := if r < 0 then -(r as int) else r;
    NatToDecimalDigits(magnitude);
    if r < 0 then
      var s := "-" + NatToDecimal(magnitude);
      assert s[1..] == NatToDecimal(magnitude);
      s
    else
      assert IsDigit(NatToDecimal(magnitude)[0]);
      NatToDecimal(magnitude)
  }

  /**
   * `Long.parseLong(String)` in radix 10: an optional leading `-` or `+`, then at least one
   * digit; the value must fit in a `long`, otherwise `NumberFormatException`.
   */
  function ParseLong(s: string): (r: Result<Long, Exception>)
    ensures r.Failure? ==> r.error == NumberFormatException
  {
    if s == [] then Failure(NumberFormatException)
    else
      var negative := s[0] == '-';
      var digits := if s[0] == '-' || s[0] == '+' then s[1..] else s;
      if digits == [] || !AllDigits(digits) then Failure(NumberFormatException)
      else
        var v: int := if negative then -(DecimalValue(digits) as int) else DecimalValue(digits);
        if LONG_MIN <= v <= LONG_MAX then Success(v) else Failure(NumberFormatException)
  }

  lemma {:induction false} NatToDecimalDigits(n: nat)
    ensures |NatToDecimal(n)| > 0
    ensures AllDigits(NatToDecimal(n))
    ensures DecimalValue(NatToDecimal(n)) == n
    decreases n
  {
    if n >= 10 {
      NatToDecimalDigits(n / 10);
      var p := NatToDecimal(n / 10);
      var s := p + [DigitChar(n % 10)];
      assert s[..|s| - 1] == p;
      assert DecimalValue(s) == DecimalValue(p) * 10 + n % 10;
    }
  }

  /** A character other than a digit, and other than a leading sign, makes `parseLong` throw. */
  lemma ParseLongRejectsNonDigit(s: string, i: int)
    requires 0 <= i < |s|
    requires !IsDigit(s[i])
    requires !(i == 0 && (s[0] == '-' || s[0] == '+'))
    ensures ParseLong(s) == Failure(NumberFormatException)
  {
    var digits := if s[0] == '-' || s[0] == '+' then s[1..] else s;
    if s[0] == '-' || s[0] == '+' {
      assert digits[i - 1] == s[i];
    } else {
      assert digits[i] == s[i];
    }
  }

  /** `Long.parseLong(String.valueOf(r)) == r` for every `long`, `LONG_MIN` included. */
  lemma ParseLongOfLongToString(r: Long)
    ensures ParseLong(LongToString(r)) == Success(r)
  {
    var s := LongToString(r);
    if r >= 0 {
      assert IsDigit(s[0]);
    }
  }

  /**
   * The documented value of `String.hashCode()` over unbounded integers:
   * `s[0]*31^(n-1) + s[1]*31^(n-2) + ... + s[n-1]`, in Horner form.
   */
  ghost function HashPolynomial(s: string): int
    decreases |s|
  {
    if s == [] then 0 else 31 * HashPolynomial(s[..|s| - 1]) + s[|s| - 1] as int
  }

  /** Scaling and shifting keep a congruence modulo 2^32. */
  lemma CongruentStep(a: int, b: int, c: int)
    requires (a - b) % 0x1_0000_0000 == 0
    ensures ((31 * a + c) - (31 * b + c)) % 0x1_0000_0000 == 0
  {
    var q := (a - b) / 0x1_0000_0000;
    assert a - b == q * 0x1_0000_0000;
    assert (31 * a + c) - (31 * b + c) == (31 * q) * 0x1_0000_0000;
  }

  /** Congruence modulo 2^32 is transitive. */
  lemma CongruentTrans(a: int, b: int, c: int)
    requires (a - b) % 0x1_0000_0000 == 0 && (b - c) % 0x1_0000_0000 == 0
    ensures (a - c) % 0x1_0000_0000 == 0
  {
    var p := (a - b) / 0x1_0000_0000;
    var q := (b - c) / 0x1_0000_0000;
    assert a - c == (p + q) * 0x1_0000_0000;
  }

  /**
   * `String.hashCode()`: `h = 31 * h + c` over the characters, in `int` arithmetic. The
   * result is the documented polynomial up to the multiples of 2^32 that overflow drops.
   */
  function StringHashCode(s: string): (h: Int)
    ensures (h - HashPolynomial(s)) % 0x1_0000_0000 == 0
    decreases |s|
  {
    if s == [] then 0
    else
      var prefix := s[..|s| - 1];
      var c := s[|s| - 1] as int;
      var x := 31 * StringHashCode(prefix) + c;
      CongruentStep(StringHashCode(prefix), HashPolynomial(prefix), c);
      WrapIntCongruent(x);
      CongruentTrans(WrapInt(x), x, HashPolynomial(s));
      WrapInt(x)
  }

  /**
   * `(int) (v ^ (v >>> 32))`: the low word of `v` xor-ed with its high word. A
   * non-negative `long` that fits in an `int` hashes to itself, and -1 to 0.
   */
  function LongHashCode(v: Long): (h: Int)
    ensures 0 <= v <= INT_MAX ==> h == v
    ensures v == -1 ==> h == 0
  {
    var u: nat := v % 0x1_0000_0000_0000_0000;
    LongWords(v);
    XorWords(u % 0x1_0000_0000, u / 0x1_0000_0000)
  }

  /** The `int` whose bits are the xor of two 32-bit words. */
  function XorWords(low: nat, high: nat): (h: Int)
    requires low < 0x1_0000_0000 && high < 0x1_0000_0000
    ensures high == 0 ==> h == WrapInt(low)
    ensures low == high ==> h == 0
  {
    Pow2Word();
    XorZero(low, 32);
    XorSelf(low, 32);
    WrapInt(Xor(low, high, 32))
  }

  /** `2^n`. */
  function Pow2(n: nat): (p: nat)
    ensures p > 0
  {
    if n == 0 then 1 else 2 * Pow2(n - 1)
  }

  lemma {:induction false} Pow2Add(m: nat, n: nat)
    ensures Pow2(m + n) == Pow2(m) * Pow2(n)
  {
    if m > 0 {
      Pow2Add(m - 1, n);
      calc {
        Pow2(m + n);
        2 * Pow2(m - 1 + n);
        2 * (Pow2(m - 1) * Pow2(n));
        (2 * Pow2(m - 1)) * Pow2(n);
        Pow2(m) * Pow2(n);
      }
    }
  }

  lemma Pow2Word()
    ensures Pow2(32) == 0x1_0000_0000
  {
    assert Pow2(4) == 0x10;
    Pow2Add(4, 4);
    assert Pow2(8) == 0x100;
    Pow2Add(8, 8);
    assert Pow2(16) == 0x1_0000;
    Pow2Add(16, 16);
  }

  /** Bitwise exclusive or of the low `width` bits of `a` and `b`. */
  function Xor(a: nat, b: nat, width: nat): (r: nat)
    ensures r < Pow2(width)
  {
    if width == 0 then 0
    else (if a % 2 == b % 2 then 0 else 1) + 2 * Xor(a / 2, b / 2, width - 1)
  }

  lemma {:induction false} XorZero(a: nat, width: nat)
    requires a < Pow2(width)
    ensures Xor(a, 0, width) == a
  {
    if width > 0 {
      XorZero(a / 2, width - 1);
    }
  }

  lemma {:induction false} XorSelf(a: nat, width: nat)
    ensures Xor(a, a, width) == 0
  {
    if width > 0 {
      XorSelf(a / 2, width - 1);
    }
  }

  /** The two words of a small non-negative `long` and of -1. */
  lemma LongWords(v: Long)
    ensures 0 <= v <= INT_MAX ==>
      v % 0x1_0000_0000_0000_0000 == v && v % 0x1_0000_0000 == v && v / 0x1_0000_0000 == 0
    ensures v == -1 ==>
      var u := v % 0x1_0000_0000_0000_0000;
      u % 0x1_0000_0000 == u / 0x1_0000_0000 == 0xFFFF_FFFF
  {
  }
}
