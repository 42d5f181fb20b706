// The rest of the notation: radixed and signed numerals, block comments, character
// and byte vectors, and printing without escapes.

module Notation {
  import opened Options
  import opened ReadTable
  import opened Numerals
  import opened Reading
  import opened Printing
  import opened RoundTrip

  // -------------------------------------------------------------------- numerals

  function DigitChar(d: nat): char
    requires d < 16
  {
    "0123456789abcdef"[d]
  }

  /** The digits of n in a base of up to sixteen. */
  function Digits(n: nat, base: nat): string
    requires 2 <= base <= 16
    decreases n
  {
    if n < base then [DigitChar(n)] else Digits(n / base, base) + [DigitChar(n % base)]
  }

  lemma DigitCharValue(d: nat)
    requires d < 16
    ensures DigitValue(DigitChar(d)) == d && (DigitChar(d) == '0' <==> d == 0)
  {
  }

  lemma {:induction false} DigitsRead(n: nat, base: nat)
    requires 2 <= base <= 16
    ensures var s := Digits(n, base);
            && s != "" && ValueOf(s, base) == n && (s[0] == '0' <==> n == 0) && (n == 0 ==> s == "0")
            && forall c | c in s :: DigitValue(c) < base
    decreases n
  {
    hide DigitValue, DigitChar, ValueOf;
    DivMod(n, base);
    DigitCharValue(n % base);
    if n < base {
      ValueOfPush("", DigitChar(n), base);
      assert "" + [DigitChar(n)] == [DigitChar(n)];
    } else {
      DigitsRead(n / base, base);
      ValueOfPush(Digits(n / base, base), DigitChar(n % base), base);
    }
  }

  lemma ValueOfPush(s: string, c: char, base: nat)
    ensures ValueOf(s + [c], base) == ValueOf(s, base) * base + DigitValue(c)
    ensures ValueOf("", base) == 0
  {
    assert (s + [c])[..|s|] == s;
  }

  lemma TwiceQuotient(n: nat, base: nat)
    requires base >= 2
    ensures 2 * (n / base) <= n && (n / base) * base + n % base == n
  {
    var q := n / base;
    Distribute(base - 2, q);
    assert n == base * q + n % base;
  }

  lemma Distribute(a: nat, q: nat)
    ensures (a + 2) * q == a * q + 2 * q && a * q >= 0
  {
  }

  lemma DivMod(n: nat, base: nat)
    requires base >= 2
    ensures (n / base) * base + n % base == n && n % base < base
    ensures n > 0 ==> n / base < n
    ensures n >= base ==> n / base >= 1
    ensures n < base ==> n % base == n
  {
    TwiceQuotient(n, base);
  }

  function Pow2(k: nat): nat { if k == 0 then 1 else 2 * Pow2(k - 1) }

  lemma {:induction false} DigitsAreShort(n: nat, base: nat, k: nat)
    requires 2 <= base <= 16 && n < Pow2(k) && k >= 1
    ensures |Digits(n, base)| <= k
    decreases n
  {
    if n >= base {
      TwiceQuotient(n, base);
      DigitsAreShort(n / base, base, k - 1);
    }
  }

  lemma FixnumBits()
    ensures Pow2(60) > TWO58
  {
    assert Pow2(5) == 32;
    assert Pow2(10) == 1024;
    assert Pow2(15) == 0x8000;
    assert Pow2(20) == 0x10_0000;
    assert Pow2(25) == 0x200_0000;
    assert Pow2(30) == 0x4000_0000;
    assert Pow2(35) == 0x8_0000_0000;
    assert Pow2(40) == 0x100_0000_0000;
    assert Pow2(45) == 0x2000_0000_0000;
    assert Pow2(50) == 0x4_0000_0000_0000;
    assert Pow2(55) == 0x80_0000_0000_0000;
    assert Pow2(60) == 0x1000_0000_0000_0000;
  }

  /** Written with no sign, a plus or a minus. */
  datatype Sign = NoSign | Plus | Minus

  function SignText(sign: Sign): string {
    match sign case NoSign => "" case Plus => "+" case Minus => "-"
  }

  function Signed(sign: Sign, n: int): int { if sign.Minus? then -n else n }

  /** The prefixes under which std::stoull reads digits of a base, by the radix it
      is given; 0 leaves the choice to the prefix. */
  predicate Prefixes(radix: nat, prefix: string, base: nat) {
    || (prefix == "" && base == 10 && (radix == 0 || radix == 10))
    || (prefix == "" && base == 16 && radix == 16)
    || ((prefix == "0x" || prefix == "0X") && base == 16 && (radix == 0 || radix == 16))
    || (prefix == "0" && base == 8 && radix == 0)
  }

  function Numeral(sign: Sign, prefix: string, n: nat, base: nat): string
    requires 2 <= base <= 16
  {
    SignText(sign) + prefix + Digits(n, base)
  }

  lemma {:induction false} LeadingZero(s: string, base: nat)
    ensures ValueOf("0" + s, base) == ValueOf(s, base)
    decreases |s|
  {
    var t := "0" + s;
    if s == "" {
      assert t[..0] == "";
    } else {
      assert t[..|t| - 1] == "0" + s[..|s| - 1] && t[|t| - 1] == s[|s| - 1];
      LeadingZero(s[..|s| - 1], base);
    }
  }

  /** std::stoull on the digits after the sign: it takes them all, in the base its
      prefix gives. */
  lemma PrefixedDigits(radix: nat, prefix: string, n: nat, base: nat)
    requires Prefixes(radix, prefix, base)
    ensures var t := prefix + Digits(n, base);
            t != "" && t[0] != '-' && t[0] != '+' && ReadDigits(t, radix) == Some((n, |t|))
  {
    hide Digits, ReadDigits;
    if prefix == "" {
      PlainDigits(radix, n, base);
      assert "" + Digits(n, base) == Digits(n, base);
    } else if prefix == "0" {
      OctalDigits(n);
    } else {
      HexDigits(radix, prefix, n);
    }
  }

  lemma DigitsAreDigits(n: nat, base: nat)
    requires 2 <= base <= 16
    ensures var d := Digits(n, base);
            && d != "" && ValueOf(d, base) == n && DigitsLength(d, base) == |d| && d[0..] == d && d[0..0 + |d|] == d
            && (d[0] == '0' <==> n == 0) && (n == 0 ==> d == "0")
            && DigitValue(d[0]) < base && (|d| >= 2 ==> DigitValue(d[1]) < 16)
  {
    hide ValueOf, Digits, DigitsLength, DigitValue;
    var d := Digits(n, base);
    DigitsRead(n, base);
    assert d[0] in d && (|d| >= 2 ==> d[1] in d);
    AllDigits(d, base);
  }

  lemma NoMarks(c: char)
    requires DigitValue(c) < 16
    ensures c != '-' && c != '+' && c != 'x' && c != 'X'
  {
  }

  lemma PlainDigits(radix: nat, n: nat, base: nat)
    requires Prefixes(radix, "", base)
    ensures var t := Digits(n, base);
            t != "" && t[0] != '-' && t[0] != '+' && ReadDigits(t, radix) == Some((n, |t|))
  {
    hide ValueOf, Digits, DigitsLength, DigitValue;
    var t := Digits(n, base);
    DigitsAreDigits(n, base);
    NoMarks(t[0]);
    if |t| >= 2 { NoMarks(t[1]); }
    assert !HexPrefixed(t, radix);
    if n == 0 {
      ZeroInAnyBase();
      AllDigits("0", BaseOf(t, radix));
    }
  }

  lemma OctalDigits(n: nat)
    ensures var t := "0" + Digits(n, 8);
            t != "" && t[0] != '-' && t[0] != '+' && ReadDigits(t, 0) == Some((n, |t|))
  {
    hide ValueOf, Digits, DigitsLength, DigitValue;
    var d := Digits(n, 8);
    var t := "0" + d;
    DigitsRead(n, 8);
    DigitsAreDigits(n, 8);
    ZeroInAnyBase();
    NoMarks(d[0]);
    assert t[1] == d[0];
    LeadingZero(d, 8);
    AllDigits(t, 8);
    assert t[0..] == t && t[0..0 + |t|] == t;
  }

  lemma HexDigits(radix: nat, prefix: string, n: nat)
    requires (prefix == "0x" || prefix == "0X") && (radix == 0 || radix == 16)
    ensures var t := prefix + Digits(n, 16);
            t != "" && t[0] != '-' && t[0] != '+' && ReadDigits(t, radix) == Some((n, |t|))
  {
    hide ValueOf, Digits, DigitsLength, DigitValue;
    var d := Digits(n, 16);
    var t := prefix + d;
    DigitsAreDigits(n, 16);
    assert t[2..] == d && t[2] == d[0] && t[2..2 + |d|] == d;
  }

  /** std::stoull in terms of what follows the sign. */
  lemma StoullParts(sign: Sign, t: string, radix: nat)
    requires t != "" && t[0] != '-' && t[0] != '+'
    ensures Stoull(SignText(sign) + t, radix) ==
            match ReadDigits(t, radix)
            case None => NoDigits
            case Some((n, used)) =>
              if n >= TWO64 then TooBig
              else Parsed(if sign.Minus? then (TWO64 - n) % TWO64 else n, |SignText(sign)| + used)
  {
    hide ReadDigits;
    var s := SignText(sign) + t;
    assert s[|SignText(sign)|..] == t && (sign.NoSign? ==> s == t);
  }

  lemma ZeroInAnyBase()
    ensures forall b :: ValueOf("0", b) == 0
    ensures DigitValue('0') == 0
  {
    assert "0"[..0] == "";
  }

  /** A numeral of any of these forms reads as its value's 64-bit form. */
  lemma StoullOfNumeral(radix: nat, sign: Sign, prefix: string, n: nat, base: nat)
    requires Prefixes(radix, prefix, base)
    ensures var s := Numeral(sign, prefix, n, base);
            Stoull(s, radix) == if n >= TWO64 then TooBig else Parsed(TwosComplement(Signed(sign, n)), |s|)
  {
    hide Digits, ReadDigits, Stoull, Prefixes;
    assert 2 <= base <= 16 by { BasesAreSmall(radix, prefix, base); }
    var t := prefix + Digits(n, base);
    PrefixedDigits(radix, prefix, n, base);
    assert Numeral(sign, prefix, n, base) == SignText(sign) + t;
    StoullParts(sign, t, radix);
  }

  lemma BasesAreSmall(radix: nat, prefix: string, base: nat)
    requires Prefixes(radix, prefix, base)
    ensures 2 <= base <= 16
  {
  }

  lemma NumeralIsToken(sign: Sign, prefix: string, n: nat, base: nat)
    requires 2 <= base <= 16 && prefix in {"", "0", "0x", "0X"} && n <= TWO58
    ensures var s := Numeral(sign, prefix, n, base);
            && s != "" && AllConstituent(s) && |s| <= MAX_LENGTH && s[0] != '.' && s[0] != '}'
  {
    hide DigitValue, IsConstituent;
    DigitsRead(n, base);
    FixnumBits();
    DigitsAreShort(n, base, 60);
    var d := Digits(n, base);
    DigitsAreConstituents(d, base);
    assert d[0] in d;
    MarksAreConstituents();
  }

  lemma DigitsAreConstituents(s: string, base: nat)
    requires base <= 16 && forall c | c in s :: DigitValue(c) < base
    ensures forall c | c in s :: IsConstituent(c) && c != '.' && c != '}'
  {
  }

  lemma MarksAreConstituents()
    ensures IsConstituent('+') && IsConstituent('-') && IsConstituent('0') && IsConstituent('x') && IsConstituent('X')
  {
  }

  /** Decimal, hexadecimal and octal numerals of fixnums, with either sign or
      none, read as their values. */
  lemma NumeralReads(env: Env, sign: Sign, prefix: string, n: nat, base: nat, rest: string)
    requires Prefixes(0, prefix, base) && InFixnum(Signed(sign, n)) && Delimits(rest)
    ensures Read(env, Numeral(sign, prefix, n, base) + rest) == (Got(Fix(Signed(sign, n))), rest)
  {
    hide Stoull, Wrap59, TopBitsDiffer, Numeral, IsConstituent, Delimits, Read;
    var s := Numeral(sign, prefix, n, base);
    NumeralIsToken(sign, prefix, n, base);
    TokenBack(env, s, rest);
    StoullOfNumeral(0, sign, prefix, n, base);
    TopBits(TwosComplement(Signed(sign, n)));
    WrapKeeps(Signed(sign, n));
  }

  /** What #x and #d read: the number, wrapped around 59 bits, if its two top bits
      agree; a range error otherwise. */
  lemma RadixReads(radix: nat, sign: Sign, prefix: string, n: nat, rest: string)
    requires Prefixes(radix, prefix, radix) && radix != 0 && Delimits(rest)
    requires var s := Numeral(sign, prefix, n, radix); AllConstituent(s) && |s| <= MAX_LENGTH
    ensures var v := TwosComplement(Signed(sign, n));
            RadixFixnum(radix, Numeral(sign, prefix, n, radix) + rest) ==
            (if n >= TWO64 || TWO62 <= v < TWO64 - TWO62 then Raised("rd-rdx", "range") else Got(Fix(Wrap59(v))), rest)
  {
    hide Stoull, Wrap59, TopBitsDiffer, IsConstituent, Delimits, ReadAtom;
    var s := Numeral(sign, prefix, n, radix);
    DigitsRead(n, radix);
    AtomBack(s, rest);
    StoullOfNumeral(radix, sign, prefix, n, radix);
    if n < TWO64 { TopBits(TwosComplement(Signed(sign, n))); }
  }

  /** Every fixnum reads back from its hexadecimal and its decimal text. */
  lemma SharpRadixReads(env: Env, hex: bool, sign: Sign, n: nat, rest: string)
    requires InFixnum(Signed(sign, n)) && Delimits(rest)
    ensures Read(env, (if hex then "#x" else "#d") + Numeral(sign, "", n, if hex then 16 else 10) + rest) ==
            (Got(Fix(Signed(sign, n))), rest)
  {
    hide Wrap59, RadixFixnum, Numeral, IsConstituent, Delimits;
    var radix := if hex then 16 else 10;
    var s := Numeral(sign, "", n, radix);
    NumeralIsToken(sign, "", n, radix);
    RadixReads(radix, sign, "", n, rest);
    WrapKeeps(Signed(sign, n));
    var t := (if hex then "#x" else "#d") + s + rest;
    SharpStarts(t);
    assert t[0] == '#' && t[1..] == (if hex then "x" else "d") + s + rest && t[1..][1..] == s + rest;
    assert ReadSharp(env, t[1..]) == RadixFixnum(radix, s + rest);
  }

  // -------------------------------------------------------------- block comments

  /** A block comment ends at the first "|#", and nowhere else. */
  lemma {:induction false} BlockEndsAtFirst(s: string)
    ensures SkipBlock(s) == match Find(s, "|#") case None => None case Some(k) => Some(s[k + 2..])
    decreases |s|
  {
    hide Find;
    if s != "" {
      if |s| > 1 && s[0] == '|' && s[1] == '#' {
        assert s[0..0 + 2] == "|#" && OccursAt(s, "|#", 0);
      } else {
        BlockEndsAtFirst(s[1..]);
        FindLater(s);
      }
    }
  }

  lemma FindLater(s: string)
    requires s != "" && !(|s| > 1 && s[0] == '|' && s[1] == '#')
    ensures Find(s, "|#") == match Find(s[1..], "|#") case None => None case Some(k) => Some(k + 1)
    ensures Find(s[1..], "|#").Some? ==> s[1..][Find(s[1..], "|#").value + 2..] == s[Find(s[1..], "|#").value + 3..]
  {
    if |s| >= 2 { assert s[..2] == [s[0], s[1]]; } else { assert |s[1..]| == 0; }
  }

  /** Text inside a block comment is as if it were not there. */
  lemma CommentReads(env: Env, comment: string, rest: string)
    requires Find(comment + "|", "|#") == None
    ensures Read(env, "#|" + comment + "|#" + rest) == Read(env, rest)
  {
    hide Find, Read;
    var inside := comment + "|#" + rest;
    FirstEnd(comment, rest);
    BlockEndsAtFirst(inside);
    assert inside[|comment| + 2..] == rest;
    var t := "#|" + comment + "|#" + rest;
    SharpStarts(t);
    assert t[0] == '#' && t[1..] == "|" + inside && t[1..][1..] == inside;
    assert ReadSharp(env, t[1..]) == Read(env, rest);
    ReadsSharp(env, t);
  }

  lemma ReadsSharp(env: Env, t: string)
    requires t != "" && t[0] == '#'
    ensures Read(env, t) == ReadSharp(env, t[1..])
  {
    hide ReadSharp;
    SharpStarts(t);
  }

  lemma FirstEnd(comment: string, rest: string)
    requires Find(comment + "|", "|#") == None
    ensures Find(comment + "|#" + rest, "|#") == Some(|comment|)
  {
    hide Find;
    var s, t := comment + "|#" + rest, comment + "|";
    OccursHere(comment, "|#", rest);
    forall j: nat | j < |comment| ensures !OccursAt(s, "|#", j) {
      assert t[j..j + 2] == s[j..j + 2];
      assert !OccursAt(t, "|#", j);
    }
    if Find(s, "|#") != Some(|comment|) { assert OccursAt(s, "|#", |comment|); }
  }

  // --------------------------------------------------- character and byte vectors

  function Chrs(text: string): seq<Obj> {
    seq(|text|, i requires 0 <= i < |text| => Chr(text[i]))
  }

  /** #(:char #\a ...) reads as the string of its characters. */
  lemma CharVectorReads(env: Env, text: string, rest: string)
    ensures Read(env, "#(:" + "char" + PrintItems(env, VecT(Chrs(text)), 0, true) + rest) == (Got(Str(text)), rest)
  {
    hide PrintItems, ReadList, Read;
    var o := VecT(Chrs(text));
    assert Readable(env, o);
    ItemsListBack(env, o, rest);
    assert IsConstituent('c') && IsConstituent('h') && IsConstituent('a') && IsConstituent('r');
    VectorHead(env, "char", PrintItems(env, o, 0, true), rest);
    CharsToString(text);
  }

  lemma CharsToString(text: string)
    ensures ListToVector(Key("char"), OnTo(Chrs(text), NIL)) == Got(Str(text))
  {
    ElementsOfList(Chrs(text));
    assert forall o | o in Chrs(text) :: o.Chr?;
    assert Chars(Chrs(text)) == text;
  }

  /** Whether an element may be in a vector of this type. */
  predicate Fits(kind: string, o: Obj) {
    match kind
    case "t" => true
    case "fixnum" => o.Fix?
    case "byte" => o.Fix? && o.n < 256
    case "char" => o.Chr?
    case "float" => o.Float?
    case _ => false
  }

  /** A vector of readable elements, whatever its type: an element that does not
      fit the type raises, and a type that is none of the five stops the program. */
  lemma VectorReads(env: Env, kind: string, items: seq<Obj>, rest: string)
    requires ReadableKey(kind) && forall i | 0 <= i < |items| :: Readable(env, items[i])
    ensures var (r, u) := Read(env, "#(:" + kind + PrintItems(env, VecT(items), 0, true) + rest);
            && u == rest
            && (r.Abort? <==> kind !in {"t", "fixnum", "byte", "char", "float"})
            && (r.Got? <==> kind in {"t", "fixnum", "byte", "char", "float"} && forall o | o in items :: Fits(kind, o))
            && (r.Raised? ==> r == Raised("sv-list", "type"))
  {
    hide PrintItems, ReadList, Read, ListToVector, Fits, ReadableKey;
    var o := VecT(items);
    assert Readable(env, o) by { ItemsReadable(env, items); }
    ItemsListBack(env, o, rest);
    VectorHead(env, kind, PrintItems(env, o, 0, true), rest);
    ElementsChecked(kind, items);
  }

  lemma ItemsReadable(env: Env, items: seq<Obj>)
    requires forall i | 0 <= i < |items| :: Readable(env, items[i])
    ensures Readable(env, VecT(items))
  {
  }

  lemma ElementsChecked(kind: string, items: seq<Obj>)
    ensures var r := ListToVector(Key(kind), OnTo(items, NIL));
            && (r.Abort? <==> kind !in {"t", "fixnum", "byte", "char", "float"})
            && (r.Got? <==> kind in {"t", "fixnum", "byte", "char", "float"} && forall o | o in items :: Fits(kind, o))
            && (r.Raised? ==> r == Raised("sv-list", "type"))
  {
    hide Elements, OnTo, Numbers, Bytes, Chars, Floats;
    ElementsOfList(items);
  }

  /** #(:byte n ...) keeps the low eight bits of numbers below 256, negative ones
      too, and refuses the others. */
  lemma ByteVectorWraps(env: Env, vals: seq<int>, rest: string)
    requires forall i | 0 <= i < |vals| :: InFixnum(vals[i])
    ensures Read(env, "#(:" + "byte" + PrintNumbers(vals) + rest) ==
            (if forall i | 0 <= i < |vals| :: vals[i] < 256
             then Got(VecByte(seq(|vals|, i requires 0 <= i < |vals| => vals[i] % 256)))
             else Raised("sv-list", "type"), rest)
  {
    hide ReadElements, Read, SkipWhitespace, IntText, ListToVector, InFixnum;
    var text := PrintNumbers(vals);
    NumbersListBack(env, vals, rest);
    assert IsConstituent('b') && IsConstituent('y') && IsConstituent('t') && IsConstituent('e');
    VectorHead(env, "byte", text, rest);
    NumbersToBytes(vals);
  }

  lemma NumbersToBytes(vals: seq<int>)
    ensures ListToVector(Key("byte"), OnTo(Fixes(vals), NIL)) ==
            if forall i | 0 <= i < |vals| :: vals[i] < 256
            then Got(VecByte(seq(|vals|, i requires 0 <= i < |vals| => vals[i] % 256)))
            else Raised("sv-list", "type")
  {
    var items := Fixes(vals);
    ElementsOfList(items);
    assert forall o | o in items :: o.Fix?;
    if forall i | 0 <= i < |vals| :: vals[i] < 256 {
      assert forall o | o in items :: o.n < 256;
      assert Numbers(items) == vals;
    } else {
      var i :| 0 <= i < |vals| && vals[i] >= 256;
      assert items[i] in items && items[i].n >= 256;
    }
  }

  // ------------------------------------------------------- printing without escapes

  /** Without escapes a string is its text, a character itself, a symbol its name;
      with them each has its marks. */
  lemma EscapesAreMarks(env: Env, text: string, c: char, ns: string, extern: bool, name: string)
    ensures Print(env, Str(text), false) == text
    ensures Print(env, Str(text), true) == "\"" + Print(env, Str(text), false) + "\""
    ensures Print(env, Chr(c), false) == [c]
    ensures Print(env, Chr(c), true) == "#\\" + Print(env, Chr(c), false)
    ensures Print(env, Sym(ns, extern, name), false) == name
    ensures Print(env, Sym(ns, extern, name), true) == ns + Colons(env, ns, name) + Print(env, Sym(ns, extern, name), false)
    ensures forall o | o == Bare(name) || o == Fresh(name) ::
              Print(env, o, false) == name && Print(env, o, true) == "#:" + Print(env, o, false)
  {
    assert "" + text == text && "" + [c] == [c] && "" + name == name;
  }

  /** An object with nothing in it that escapes would mark. */
  predicate Plain(o: Obj)
    decreases o
  {
    match o
    case Sym(_, _, _) => false case Bare(_) => false case Fresh(_) => false
    case Chr(_) => false case Str(_) => false
    case Pair(a, d) => Plain(a) && Plain(d)
    case VecT(items) => forall i | 0 <= i < |items| :: Plain(items[i])
    case _ => true
  }

  /** Such an object prints the same with and without escapes. */
  lemma {:induction false} PlainPrintsTheSame(env: Env, o: Obj)
    requires Plain(o)
    ensures Print(env, o, true) == Print(env, o, false)
    decreases o, 2
  {
    hide PrintTail, PrintItems, IntText;
    match o
    case Pair(_, _) => PlainTail(env, o);
    case VecT(items) => PlainItems(env, o, 0);
    case _ =>
  }

  lemma PlainParts(o: Obj)
    requires Plain(o)
    ensures o.Pair? ==> Plain(o.car) && Plain(o.cdr)
    ensures o.VecT? ==> forall i | 0 <= i < |o.items| :: Plain(o.items[i])
  {
  }

  lemma {:induction false} PlainTail(env: Env, o: Obj)
    requires o.Pair? && Plain(o)
    ensures PrintTail(env, o, true) == PrintTail(env, o, false)
    decreases o, 1
  {
    hide Print, Plain;
    PlainParts(o);
    PlainPrintsTheSame(env, o.car);
    if o.cdr.Pair? { PlainTail(env, o.cdr); } else { PlainPrintsTheSame(env, o.cdr); }
  }

  lemma {:induction false} PlainItems(env: Env, o: Obj, i: nat)
    requires o.VecT? && Plain(o) && i <= |o.items|
    ensures PrintItems(env, o, i, true) == PrintItems(env, o, i, false)
    decreases o, 1, |o.items| - i
  {
    hide Print, Plain;
    PlainParts(o);
    if i < |o.items| {
      PlainPrintsTheSame(env, o.items[i]);
      PlainItems(env, o, i + 1);
    }
  }

  /** The texts of some objects, with a space between two of them. */
  function Joined(env: Env, items: seq<Obj>, esc: bool): string
    requires items != []
  {
    if |items| == 1 then Print(env, items[0], esc)
    else Print(env, items[0], esc) + " " + Joined(env, items[1..], esc)
  }

  /** The text of a list, with escapes or without: its elements' texts between
      parentheses, and a dotted tail if it has one. */
  lemma {:induction false} ListText(env: Env, items: seq<Obj>, tail: Obj, esc: bool)
    requires items != [] && !tail.Pair?
    ensures Print(env, OnTo(items, tail), esc) ==
            "(" + Joined(env, items, esc) + (if tail == NIL then "" else " . " + Print(env, tail, esc)) + ")"
  {
    hide Print, Joined, PrintTail;
    TailText(env, items, tail, esc);
    PairText(env, OnTo(items, tail), esc);
    Rejoin("(", Joined(env, items, esc), if tail == NIL then "" else " . " + Print(env, tail, esc), ")");
  }

  lemma PairText(env: Env, o: Obj, esc: bool)
    requires o.Pair?
    ensures Print(env, o, esc) == "(" + PrintTail(env, o, esc)
  {
  }

  lemma Rejoin(a: string, b: string, c: string, d: string)
    ensures a + (b + c + d) == a + b + c + d
  {
  }

  lemma {:induction false} TailText(env: Env, items: seq<Obj>, tail: Obj, esc: bool)
    requires items != [] && !tail.Pair?
    ensures OnTo(items, tail).Pair?
    ensures PrintTail(env, OnTo(items, tail), esc) ==
            Joined(env, items, esc) + (if tail == NIL then "" else " . " + Print(env, tail, esc)) + ")"
    decreases |items|
  {
    hide Print;
    var o := OnTo(items, tail);
    var end := if tail == NIL then "" else " . " + Print(env, tail, esc);
    if |items| == 1 {
      assert items[1..] == [] && OnTo([], tail) == tail;
      assert o == Pair(items[0], tail);
      assert Joined(env, items, esc) == Print(env, items[0], esc);
      Rejoin(Print(env, items[0], esc), "", end, ")");
      assert "" + end == end;
    } else {
      TailText(env, items[1..], tail, esc);
      Rejoin(Print(env, items[0], esc) + " ", Joined(env, items[1..], esc), end, ")");
      assert Print(env, items[0], esc) + (" " + PrintTail(env, o.cdr, esc)) ==
             Print(env, items[0], esc) + " " + PrintTail(env, o.cdr, esc);
    }
  }

  // ------------------------------------------------------- strings with escapes

  /** The text with a backslash before each double quote, backslash and closing
      brace. */
  function Escaped(text: string): string {
    if text == "" then ""
    else (if text[0] == '"' || text[0] == '\\' || text[0] == '}' then ['\\', text[0]] else [text[0]]) + Escaped(text[1..])
  }

  lemma {:induction false} EscapedScans(kept: string, text: string, rest: string)
    requires |kept| + |text| <= MAX_LENGTH
    ensures ScanString(Escaped(text) + "\"" + rest, kept) == (Got(Str(kept + text)), rest)
    decreases |text|
  {
    var s := Escaped(text) + "\"" + rest;
    if text == "" {
      assert s[0] == '"' && s[1..] == rest && kept + text == kept;
    } else {
      var after := Escaped(text[1..]) + "\"" + rest;
      EscapedScans(kept + [text[0]], text[1..], rest);
      assert kept + [text[0]] + text[1..] == kept + text;
      EscapedStep(s, kept, text[0], after);
      if text[0] == '"' || text[0] == '\\' || text[0] == '}' {
        assert s == ['\\', text[0]] + after;
      } else {
        assert s == [text[0]] + after;
      }
    }
  }

  /** One character, escaped or not. */
  lemma EscapedStep(s: string, kept: string, c: char, after: string)
    requires after != "" && |kept| < MAX_LENGTH
    ensures s == ['\\', c] + after ==> ScanString(s, kept) == ScanString(after, kept + [c])
    ensures s == [c] + after && c != '"' && c != '\\' && c != '}' ==> ScanString(s, kept) == ScanString(after, kept + [c])
  {
    if s == ['\\', c] + after { assert s[2..] == after && s[1] == c; }
    if s == [c] + after { assert s[1..] == after; }
  }

  /** With escapes every string that is short enough can be read. */
  lemma EscapedStringReads(env: Env, text: string, rest: string)
    requires |text| <= MAX_LENGTH
    ensures Read(env, "\"" + Escaped(text) + "\"" + rest) == (Got(Str(text)), rest)
  {
    hide Read, ScanString;
    QuoteStarts(env, Escaped(text) + "\"" + rest);
    assert "\"" + Escaped(text) + "\"" + rest == "\"" + (Escaped(text) + "\"" + rest);
    EscapedScans("", text, rest);
    assert "" + text == text;
  }

  // ------------------------------------------------------------ unfinished input

  lemma {:induction false} OpenScans(kept: string, text: string)
    requires |kept| + |text| <= MAX_LENGTH && text != "" && '"' !in text && '\\' !in text && '}' !in text
    ensures ScanString(text, kept) == (Raised("vc-rdst", "eof"), "")
    decreases |text|
  {
    assert text[0] in text;
    if |text| > 1 { OpenScans(kept + [text[0]], text[1..]); }
  }

  /** A string that is not closed raises; so does a closing parenthesis alone. */
  lemma OpenStringRaises(env: Env, text: string)
    requires text != "" && ReadableText(text)
    ensures Read(env, "\"" + text) == (Raised("vc-rdst", "eof"), "")
  {
    hide Read, ScanString;
    QuoteStarts(env, text);
    OpenScans("", text);
  }

  lemma CloseAloneRaises(env: Env, rest: string)
    ensures Read(env, ")" + rest) == (Raised("read", "syntax"), rest)
  {
    var s := ")" + rest;
    assert s[0] == ')' && s[1..] == rest;
    assert SkipWhitespace(s) == At(s);
  }

  /** The loop of Cons::Read when the input ends after an element. */
  lemma {:induction false} OpenElements(env: Env, items: seq<Obj>, read: seq<Obj>)
    requires items != [] && forall o | o in items :: Readable(env, o)
    ensures var s := Joined(env, items, true);
            && ReadElements(env, s, read) == (Raised("co-read", "eof"), "")
            && SkipWhitespace(s) == At(s) && SkipWhitespace(" " + s) == At(s) && s[0] != ')'
    decreases |items|
  {
    hide Read, SkipWhitespace, Print, Readable, ReadElements;
    var text := Print(env, items[0], true);
    assert items[0] in items;
    NotSyntax(env, items[0]);
    if |items| == 1 {
      ReadBack(env, items[0], "");
      StartsAt(env, items[0], "");
      assert text + "" == text;
      NothingLeft();
      OpenEnd(env, text, items[0], read);
    } else {
      var more := Joined(env, items[1..], true);
      assert forall o | o in items[1..] :: o in items;
      OpenElements(env, items[1..], read + [items[0]]);
      AfterDelimits(" ", more);
      ReadBack(env, items[0], " " + more);
      StartsAt(env, items[0], " " + more);
      assert Joined(env, items, true) == text + (" " + more);
      LoopStep(env, text + (" " + more), items[0], " " + more, more, read);
    }
  }

  lemma NothingLeft()
    ensures SkipWhitespace("") == Eof && Delimits("")
  {
  }

  lemma OpenEnd(env: Env, s: string, first: Obj, items: seq<Obj>)
    requires Read(env, s) == (Got(first), "") && first != Syntax('.') && SkipWhitespace("") == Eof
    ensures ReadElements(env, s, items) == (Raised("co-read", "eof"), "")
  {
    hide Read, SkipWhitespace;
  }

  /** A list that is not closed raises, after however many elements. */
  lemma OpenListRaises(env: Env, items: seq<Obj>)
    requires forall o | o in items :: Readable(env, o)
    ensures Read(env, "(" + if items == [] then "" else Joined(env, items, true)) == (Raised("co-read", "eof"), "")
  {
    hide ReadElements, Joined, Print, Readable;
    var t := if items == [] then "" else Joined(env, items, true);
    var s := "(" + t;
    if items == [] { NothingLeft(); } else { OpenElements(env, items, []); }
    ParenStarts(env, s);
    assert s[1..] == t;
  }

  lemma ParenStarts(env: Env, s: string)
    requires s != "" && s[0] == '('
    ensures Read(env, s) == ReadList(env, s[1..])
  {
    hide ReadList;
    assert SkipWhitespace(s) == At(s);
  }
}
