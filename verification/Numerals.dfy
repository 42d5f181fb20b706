// Numbers as text: what std::to_string and the stream inserter write, and what
// std::stoull reads.

module Numerals {
  import opened Options

  function Digit(d: nat): char
    requires d < 10
  {
    "0123456789"[d]
  }

  /** std::to_string of a natural number. */
  function Decimal(n: nat): string {
    if n < 10 then [Digit(n)] else Decimal(n / 10) + [Digit(n % 10)]
  }

  lemma {:induction false} DecimalInjective(m: nat, n: nat)
    requires Decimal(m) == Decimal(n)
    ensures m == n
  {
    var s, t := Decimal(m), Decimal(n);
    assert s[|s| - 1] == Digit(m % 10) && t[|t| - 1] == Digit(n % 10);
    DigitInjective(m % 10, n % 10);
    DecimalLength(m);
    DecimalLength(n);
    if m >= 10 && n >= 10 {
      assert Decimal(m / 10) == s[..|s| - 1] && Decimal(n / 10) == t[..|t| - 1];
      DecimalInjective(m / 10, n / 10);
    }
  }

  lemma DecimalLength(n: nat)
    ensures |Decimal(n)| >= 1 && (|Decimal(n)| == 1 <==> n < 10)
  {
  }

  lemma DigitInjective(a: nat, b: nat)
    requires a < 10 && b < 10 && Digit(a) == Digit(b)
    ensures a == b
  {
  }

  lemma {:induction false} DecimalHasDigits(n: nat)
    ensures |Decimal(n)| >= 1 && forall c | c in Decimal(n) :: DigitValue(c) < 10
  {
    if n >= 10 { DecimalHasDigits(n / 10); }
    assert forall d: nat | d < 10 :: DigitValue(Digit(d)) == d;
  }

  /** No leading zero, except for zero itself. */
  lemma {:induction false} DecimalFirst(n: nat)
    ensures |Decimal(n)| >= 1 && (Decimal(n)[0] == '0' <==> n == 0)
  {
    if n >= 10 { DecimalFirst(n / 10); }
  }

  function Pow10(k: nat): (p: nat)
    ensures p >= 1
  {
    if k == 0 then 1 else 10 * Pow10(k - 1)
  }

  lemma {:induction false} DecimalIsShort(n: nat, k: nat)
    requires n < Pow10(k) && k >= 1
    ensures |Decimal(n)| <= k
  {
    if n >= 10 {
      assert k > 1;
      DecimalIsShort(n / 10, k - 1);
    }
  }

  lemma {:induction false} ShortIsSmall(n: nat, k: nat)
    requires |Decimal(n)| <= k
    ensures n < Pow10(k)
    decreases k
  {
    DecimalLength(n);
    if n >= 10 {
      ShortIsSmall(n / 10, k - 1);
    } else {
      assert Pow10(k) == 10 * Pow10(k - 1);
    }
  }

  // --------------------------------------------------------------- std::stoull

  /** The value of a digit in bases up to 36, or 36. */
  function DigitValue(c: char): nat {
    if '0' <= c <= '9' then c as nat - '0' as nat
    else if 'a' <= c <= 'z' then c as nat - 'a' as nat + 10
    else if 'A' <= c <= 'Z' then c as nat - 'A' as nat + 10
    else 36
  }

  /** Length of the longest prefix of digits. */
  function DigitsLength(s: string, base: nat): (n: nat)
    ensures n <= |s|
  {
    if s == "" || DigitValue(s[0]) >= base then 0 else 1 + DigitsLength(s[1..], base)
  }

  function ValueOf(s: string, base: nat): nat {
    if s == "" then 0 else ValueOf(s[..|s| - 1], base) * base + DigitValue(s[|s| - 1])
  }

  const TWO58: int := 0x400_0000_0000_0000
  const TWO59: int := 0x800_0000_0000_0000
  const TWO62: int := 0x4000_0000_0000_0000
  const TWO63: int := 0x8000_0000_0000_0000
  const TWO64: int := 0x1_0000_0000_0000_0000

  /** What std::stoull makes of a string: the 64-bit value and how many
      characters it used, or the exception it throws. */
  datatype Unsigned = Parsed(value: nat, used: nat) | NoDigits | TooBig

  /** A hexadecimal prefix with a digit after it, where the radix allows one. */
  predicate HexPrefixed(t: string, radix: nat) {
    (radix == 0 || radix == 16) && |t| >= 3 && t[0] == '0' && (t[1] == 'x' || t[1] == 'X') && DigitValue(t[2]) < 16
  }

  function BaseOf(t: string, radix: nat): nat {
    if radix != 0 then radix else if HexPrefixed(t, radix) then 16 else if t != "" && t[0] == '0' then 8 else 10
  }

  /** The value of the digits t starts with, after a prefix if there is one, and
      how many characters they take; nothing when there are none. */
  function ReadDigits(t: string, radix: nat): (r: Option<(nat, nat)>)
    ensures r.Some? ==> 0 < r.value.1 <= |t|
  {
    var start := if HexPrefixed(t, radix) then 2 else 0;
    var n := DigitsLength(t[start..], BaseOf(t, radix));
    if n == 0 then None else Some((ValueOf(t[start..start + n], BaseOf(t, radix)), start + n))
  }

  function Stoull(s: string, radix: nat): (u: Unsigned)
    ensures u.Parsed? ==> u.value < TWO64 && 0 < u.used <= |s|
  {
    var sign := if s != "" && (s[0] == '-' || s[0] == '+') then 1 else 0;
    match ReadDigits(s[sign..], radix)
    case None => NoDigits
    case Some((v, used)) =>
      if v >= TWO64 then TooBig
      else Parsed(if s[0] == '-' then (TWO64 - v) % TWO64 else v, sign + used)
  }

  /** A 64-bit value shifted left by five into a tag and arithmetically back. */
  function Wrap59(v: nat): (n: int)
    ensures -TWO58 <= n < TWO58 && (v - n) % TWO59 == 0
  {
    var m := v % TWO59;
    if m >= TWO58 then m - TWO59 else m
  }

  lemma {:induction false} DigitsOfDecimal(n: nat)
    ensures ValueOf(Decimal(n), 10) == n
  {
    var s := Decimal(n);
    if n >= 10 {
      assert s[..|s| - 1] == Decimal(n / 10) && s[|s| - 1] == Digit(n % 10);
      DigitsOfDecimal(n / 10);
    } else {
      assert s[..0] == "";
    }
  }

  lemma {:induction false} AllDigits(s: string, base: nat)
    requires forall c | c in s :: DigitValue(c) < base
    ensures DigitsLength(s, base) == |s|
  {
    if s != "" { AllDigits(s[1..], base); }
  }

  /** The 64-bit form of an integer. */
  function TwosComplement(n: int): int { if n < 0 then TWO64 + n else n }

  function IntText(n: int): string {
    if n < 0 then "-" + Decimal(-n) else Decimal(n)
  }

  /** stoull undoes the decimal text of any integer of less than 64 bits, up to
      the two's complement of negatives, and refuses all others. */
  lemma StoullOfText(n: int)
    ensures Stoull(IntText(n), 0) ==
            if -TWO64 < n < TWO64 then Parsed(TwosComplement(n), |IntText(n)|) else TooBig
  {
    hide Decimal, DigitsLength, ValueOf, DigitValue;
    var m: nat := if n < 0 then -n else n;
    var s, d := IntText(n), Decimal(m);
    var sign := if n < 0 then 1 else 0;
    DecimalScans(m);
    assert s[sign..] == d && d[0..] == d && d[0..0 + |d|] == d;
    assert d[0] != '-' && d[0] != '+' && (|d| >= 2 ==> d[1] != 'x' && d[1] != 'X') by {
      DecimalChars(m);
      assert d[0] in d && (|d| >= 2 ==> d[1] in d);
    }
  }

  /** stoull's base for a decimal text is 10, except that "0" is octal. */
  lemma DecimalScans(m: nat)
    ensures var d := Decimal(m); var base := if d != "" && d[0] == '0' then 8 else 10;
            |d| >= 1 && DigitsLength(d, base) == |d| && ValueOf(d, base) == m
  {
    var d := Decimal(m);
    DecimalHasDigits(m);
    DecimalFirst(m);
    if m == 0 {
      assert d == "0" && d[1..] == "" && d[..0] == "";
    } else {
      DigitsOfDecimal(m);
      AllDigits(d, 10);
    }
  }

  lemma DecimalChars(m: nat)
    ensures forall c | c in Decimal(m) :: '0' <= c <= '9'
  {
    DecimalHasDigits(m);
  }
}
