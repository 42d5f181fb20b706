// Reading what was printed: the reader undoes the printer, and where it does not.

module RoundTrip {
  import opened Options
  import opened ReadTable
  import opened Numerals
  import opened Reading
  import opened Printing

  predicate AllConstituent(s: string) { forall c | c in s :: IsConstituent(c) }

  /** Text that ends an atom: none, or a mapped character that is not a
      constituent. */
  predicate Delimits(s: string) {
    s == "" || (MapSyntaxType(s[0]).Some? && !IsConstituent(s[0]))
  }

  /** A 59-bit fixnum. */
  predicate InFixnum(n: int) { -TWO58 <= n < TWO58 }

  predicate ReadableKey(name: string) { 1 <= |name| <= 7 && AllConstituent(name) }

  predicate ReadableText(text: string) {
    |text| <= MAX_LENGTH && '"' !in text && '\\' !in text && '}' !in text
  }

  function Separator(extern: bool): string { if extern then ":" else "::" }

  /** The separator the reader finds is the one after the namespace's name. */
  predicate SplitsThere(ns: string, extern: bool, name: string) {
    if extern then ':' !in ns && Find(":" + name, "::") == None else Find(ns + ":", "::") == None
  }

  /** Text that reads as this symbol: of a known namespace, one atom, split in the
      right place, neither a number nor the start of other syntax. */
  predicate SymText(env: Env, ns: string, extern: bool, name: string) {
    var text := ns + Separator(extern) + name;
    && ns in env.namespaces && ns != "" && ns[0] != ':' && ns[0] != '.' && ns[0] != '}'
    && AllConstituent(ns) && AllConstituent(name) && |text| <= MAX_LENGTH
    && SplitsThere(ns, extern, name) && ParseNumber(env, text) == NotNumber
  }

  /** A symbol listed in its namespace, with no extern namesake there, and with
      such text. */
  predicate ReadableSym(env: Env, ns: string, extern: bool, name: string) {
    Maps(env, ns, extern, name) && (extern || !Maps(env, ns, true, name)) && SymText(env, ns, extern, name)
  }

  /** Objects whose printed form reads back as themselves. */
  predicate Readable(env: Env, o: Obj)
    decreases o
  {
    match o
    case Fix(n) => InFixnum(n)
    case Key(name) => ReadableKey(name)
    case Sym(ns, extern, name) => ReadableSym(env, ns, extern, name)
    case Chr(_) => true
    case Str(text) => ReadableText(text)
    case Pair(a, d) => Readable(env, a) && Readable(env, d)
    case VecT(items) => forall i | 0 <= i < |items| :: Readable(env, items[i])
    case VecFix(ns) => forall i | 0 <= i < |ns| :: InFixnum(ns[i])
    case VecByte(ns) => forall i | 0 <= i < |ns| :: 0 <= ns[i] < 256
    case _ => false
  }

  // ---------------------------------------------------------------------- atoms

  lemma {:induction false} ScanBack(s: string, rest: string, len: nat)
    requires AllConstituent(s) && Delimits(rest) && len + |s| <= MAX_LENGTH
    ensures ScanAtom(s + rest, len) == End(|s|)
    decreases |s|
  {
    hide MapSyntaxType;
    if s == "" {
      assert s + rest == rest;
    } else {
      assert s[0] in s && (s + rest)[0] == s[0] && (s + rest)[1..] == s[1..] + rest;
      ScanBack(s[1..], rest, len + 1);
    }
  }

  lemma AtomBack(s: string, rest: string)
    requires s != "" && AllConstituent(s) && Delimits(rest) && |s| <= MAX_LENGTH
    ensures ReadAtom(s + rest) == (Name(s), rest)
  {
    ScanBack(s, rest, 0);
    assert (s + rest)[..|s|] == s && (s + rest)[|s|..] == rest;
  }

  /** A token printed and read: the characters do not start other syntax. */
  lemma TokenBack(env: Env, s: string, rest: string)
    requires s != "" && AllConstituent(s) && Delimits(rest) && |s| <= MAX_LENGTH
    requires s[0] != '.' && s[0] != '}'
    ensures Read(env, s + rest) == ReadToken(env, s + rest)
    ensures ReadAtom(s + rest) == (Name(s), rest)
  {
    hide MapSyntaxType, IsConstituent, ReadAtom;
    AtomBack(s, rest);
    var t := s + rest;
    assert t[0] == s[0] && s[0] in s && IsConstituent(t[0]);
    TokenChar(t[0]);
    assert SkipWhitespace(t) == At(t);
    assert ReadAt(env, t) == ReadToken(env, t);
  }

  lemma TokenChar(c: char)
    requires IsConstituent(c) && c != '.' && c != '}'
    ensures c != ';' && c != '(' && c != '\'' && c != '"' && c != '#' && c != ')'
    ensures MapSyntaxType(c).Some? && !IsWhitespace(c)
  {
  }

  lemma EnoughDigits()
    ensures Pow10(18) > TWO58
  {
    assert Pow10(2) == 100;
    assert Pow10(4) == 10_000;
    assert Pow10(6) == 1_000_000;
    assert Pow10(8) == 100_000_000;
    assert Pow10(10) == 10_000_000_000;
    assert Pow10(12) == 1_000_000_000_000;
    assert Pow10(14) == 100_000_000_000_000;
    assert Pow10(16) == 10_000_000_000_000_000;
  }

  lemma FixChars(n: int)
    requires InFixnum(n)
    ensures var s := IntText(n);
            s != "" && AllConstituent(s) && |s| <= 20 && (s[0] == '-' || '0' <= s[0] <= '9')
  {
    var m: nat := if n < 0 then -n else n;
    DecimalChars(m);
    DecimalHasDigits(m);
    EnoughDigits();
    DecimalIsShort(m, 18);
    assert Decimal(m)[0] in Decimal(m);
  }

  lemma TopBits(v: nat)
    requires v < TWO64
    ensures TopBitsDiffer(v) <==> TWO62 <= v < TWO64 - TWO62
  {
    var q := v / TWO62;
    assert 0 <= q < 4 && v / TWO63 == q / 2;
  }

  lemma WrapKeeps(n: int)
    requires InFixnum(n)
    ensures Wrap59(TwosComplement(n)) == n
  {
    if n < 0 {
      assert TwosComplement(n) == 31 * TWO59 + (TWO59 + n);
      assert TwosComplement(n) % TWO59 == TWO59 + n;
    }
  }

  lemma FixNumber(env: Env, n: int)
    requires InFixnum(n)
    ensures ParseNumber(env, IntText(n)) == Num(n)
  {
    hide Stoull, IntText, Wrap59, TopBitsDiffer;
    StoullOfText(n);
    TopBits(TwosComplement(n));
    WrapKeeps(n);
  }

  /** Decimal text is read exactly when it fits: wider numbers are raised on only
      from 64 bits on or if the two top bits of their 64-bit form differ, and
      otherwise wrap around 59 bits. */
  lemma NumberReadingIsExact(env: Env, n: int)
    ensures var v := TwosComplement(n);
            ParseNumber(env, IntText(n)) ==
            if n <= -TWO64 || n >= TWO64 then Bad("syntax")
            else if TWO62 <= v < TWO64 - TWO62 then Bad("range")
            else Num(Wrap59(v))
    ensures ParseNumber(env, IntText(n)) == Num(n) <==> InFixnum(n)
  {
    hide Stoull, IntText, Wrap59, TopBitsDiffer;
    StoullOfText(n);
    if -TWO64 < n < TWO64 { TopBits(TwosComplement(n)); }
    if InFixnum(n) { WrapKeeps(n); }
  }

  /** The twenty digits of 2^64 - n read as -n, and with a minus sign as n. */
  lemma WideNumbersReadSmall(env: Env, n: int)
    requires 0 < n < TWO58
    ensures ParseNumber(env, IntText(n - TWO64)) == Num(n)
    ensures ParseNumber(env, IntText(TWO64 - n)) == Num(-n)
  {
    hide ParseNumber, IntText, Wrap59;
    NumberReadingIsExact(env, n - TWO64);
    NumberReadingIsExact(env, TWO64 - n);
    WrapKeeps(n);
    WrapKeeps(-n);
  }

  lemma FixBack(env: Env, n: int, rest: string)
    requires InFixnum(n) && Delimits(rest)
    ensures Read(env, IntText(n) + rest) == (Got(Fix(n)), rest)
  {
    hide ParseNumber, IntText, IsConstituent;
    FixChars(n);
    TokenBack(env, IntText(n), rest);
    FixNumber(env, n);
  }

  lemma KeyBack(env: Env, name: string, rest: string)
    requires ReadableKey(name) && Delimits(rest)
    ensures Read(env, ":" + name + rest) == (Got(Key(name)), rest)
  {
    var s := ":" + name;
    assert AllConstituent(s);
    TokenBack(env, s, rest);
    assert s[1..] == name && s[0] == ':';
    assert Stoull(s, 0) == NoDigits by {
      assert s[0..] == s && DigitValue(':') == 36;
    }
  }

  /** A keyword reads back exactly when it has one to seven constituents. */
  lemma KeyNeedsRoom(env: Env, name: string)
    ensures Read(env, ":" + name) == (Got(Key(name)), "") <==> ReadableKey(name)
  {
    hide IsConstituent, ReadToken, MapSyntaxType;
    var s := ":" + name;
    ColonIsConstituent();
    TokenChar(':');
    assert SkipWhitespace(s) == At(s) && Read(env, s) == ReadToken(env, s);
    if ReadableKey(name) {
      KeyBack(env, name, "");
      assert s + "" == s;
    }
    if Read(env, s) == (Got(Key(name)), "") { KeyToken(env, name); }
  }

  lemma KeyToken(env: Env, name: string)
    requires ReadToken(env, ":" + name) == (Got(Key(name)), "")
    ensures ReadableKey(name)
  {
    hide IsConstituent, ScanAtom, ParseNumber, Find;
    var s := ":" + name;
    var (atom, rest) := ReadAtom(s);
    assert atom.Name? && rest == "" && atom.text == s;
    ScannedAreConstituents(s, 0);
    assert ParseSymbol(env, s) == Got(Key(name));
    assert s[1..] == name;
    assert forall c | c in name :: c in s;
  }

  lemma {:induction false} ScannedAreConstituents(s: string, len: nat)
    requires len <= MAX_LENGTH && ScanAtom(s, len).End?
    ensures AllConstituent(s[..ScanAtom(s, len).n])
    decreases |s|
  {
    var n := ScanAtom(s, len).n;
    if n > 0 {
      ScannedAreConstituents(s[1..], len + 1);
      assert s[..n] == [s[0]] + s[1..][..n - 1];
    }
  }

  // --------------------------------------------------------------------- symbols

  lemma OccursHere(s: string, pattern: string, t: string)
    ensures OccursAt(s + pattern + t, pattern, |s|)
  {
    assert (s + pattern + t)[|s|..|s| + |pattern|] == pattern;
  }

  /** "::" first occurs after the namespace's name. */
  lemma InternSplits(ns: string, name: string)
    ensures Find(ns + "::" + name, "::") == Some(|ns|) <==> SplitsThere(ns, false, name)
  {
    var s, t := ns + "::" + name, ns + ":";
    OccursHere(ns, "::", name);
    forall j: nat ensures OccursAt(t, "::", j) <==> j < |ns| && OccursAt(s, "::", j) {
      if j < |ns| { assert t[j..j + 2] == s[j..j + 2]; }
    }
    if Find(t, "::").Some? { assert OccursAt(t, "::", Find(t, "::").value); }
    if Find(s, "::") != Some(|ns|) { assert OccursAt(s, "::", Find(s, "::").value); }
  }

  /** ":" first occurs after the namespace's name, and "::" nowhere. */
  lemma ExternSplits(ns: string, name: string)
    ensures var s := ns + ":" + name;
            Find(s, "::") == None && Find(s, ":") == Some(|ns|) <==> SplitsThere(ns, true, name)
  {
    var s, t := ns + ":" + name, ":" + name;
    OccursHere(ns, ":", name);
    forall j: nat ensures OccursAt(t, "::", j) <==> OccursAt(s, "::", |ns| + j) {
      if j + 2 <= |t| { assert t[j..j + 2] == s[|ns| + j..|ns| + j + 2]; }
    }
    forall j: nat | j < |ns| ensures OccursAt(s, ":", j) <==> ns[j] == ':' {
      assert s[j..j + 1] == [ns[j]];
    }
    if ':' !in ns {
      AfterNs(ns, name);
    }
    if Find(t, "::").Some? { assert OccursAt(s, "::", |ns| + Find(t, "::").value); }
  }

  lemma AfterNs(ns: string, name: string)
    requires ':' !in ns
    ensures forall j: nat | OccursAt(ns + ":" + name, "::", j) :: j >= |ns| && OccursAt(":" + name, "::", j - |ns|)
  {
    var s, t := ns + ":" + name, ":" + name;
    forall j: nat | j < |ns| ensures !OccursAt(s, "::", j) {
      assert ns[j] in ns;
      if j + 2 <= |s| { assert s[j..j + 2][0] == ns[j]; }
    }
    forall j: nat | j >= |ns| && OccursAt(s, "::", j) ensures OccursAt(t, "::", j - |ns|) {
      assert t[j - |ns|..j - |ns| + 2] == s[j..j + 2];
    }
  }

  lemma ParseQualified(env: Env, ns: string, extern: bool, name: string)
    requires ns != "" && ns[0] != ':' && SplitsThere(ns, extern, name) && ns in env.namespaces
    ensures ParseSymbol(env, ns + Separator(extern) + name) == Got(Sym(ns, extern, name))
  {
    hide Find, SplitsThere;
    var sep := Separator(extern);
    var s := ns + sep + name;
    if extern { ExternSplits(ns, name); } else { InternSplits(ns, name); }
    assert s[..|ns|] == ns && s[|ns| + |sep|..] == name;
    assert s[0] == ns[0] && |s| > 1;
  }

  /** A symbol's text read: not yet the text it prints as. */
  lemma SymTextBack(env: Env, ns: string, extern: bool, name: string, rest: string)
    requires SymText(env, ns, extern, name) && Delimits(rest)
    ensures Read(env, ns + Separator(extern) + name + rest) == (Got(Sym(ns, extern, name)), rest)
  {
    hide ParseNumber, IsConstituent, ParseSymbol, Read, ReadAtom, SplitsThere;
    var s := ns + Separator(extern) + name;
    assert AllConstituent(s) by { ColonIsConstituent(); }
    assert s[0] == ns[0];
    TokenBack(env, s, rest);
    ParseQualified(env, ns, extern, name);
  }

  lemma SymBack(env: Env, ns: string, extern: bool, name: string, rest: string)
    requires ReadableSym(env, ns, extern, name) && Delimits(rest)
    ensures Read(env, Print(env, Sym(ns, extern, name), true) + rest) == (Got(Sym(ns, extern, name)), rest)
  {
    hide SymText, Read;
    SymTextBack(env, ns, extern, name, rest);
    assert Colons(env, ns, name) == Separator(extern);
  }

  /** An intern symbol with an extern namesake prints as its namesake and reads
      back as that. */
  lemma NamesakeReadsBack(env: Env, ns: string, name: string, rest: string)
    requires Maps(env, ns, true, name) && SymText(env, ns, true, name) && Delimits(rest)
    ensures Read(env, Print(env, Sym(ns, false, name), true) + rest) == (Got(Sym(ns, true, name)), rest)
  {
    hide SymText, Read;
    SymTextBack(env, ns, true, name, rest);
  }

  lemma PlainName(name: string)
    requires ':' !in name
    ensures Find(":" + name, "::") == None
  {
    var t := ":" + name;
    forall j: nat ensures !OccursAt(t, "::", j) {
      if j + 2 <= |t| { assert t[j..j + 2][1] == t[j + 1] == name[j]; }
    }
  }

  /** core::funcall is printed as core:funcall and comes back as core:funcall. */
  lemma FuncallComesBackExtern(env: Env)
    requires Maps(env, "core", true, "funcall") && Maps(env, "core", false, "funcall")
    ensures Print(env, Sym("core", false, "funcall"), true) == "core:funcall"
    ensures Read(env, "core:funcall") == (Got(Sym("core", true, "funcall")), "")
  {
    hide Read, Find;
    var s := "core" + ":" + "funcall";
    assert s == "core:funcall" && s + "" == s;
    assert Stoull(s, 0) == NoDigits by { assert s[0..] == s && DigitValue('c') == 12; }
    PlainName("funcall");
    assert AllConstituent("core") && AllConstituent("funcall");
    NamesakeReadsBack(env, "core", "funcall", "");
  }

  /** What a symbol's text starts with when it is read. */
  predicate StartsSymbol(ns: string) {
    ns != "" && IsConstituent(ns[0]) && ns[0] != ':' && ns[0] != '.' && ns[0] != '}'
  }

  /** Qualified symbols are read by the default branch, from a token. */
  lemma {:induction false} SymbolsStart(env: Env, s: string)
    requires Read(env, s).0.Got? && Read(env, s).0.obj.Sym?
    ensures StartsSymbol(Read(env, s).0.obj.ns)
    decreases |s|, 1
  {
    hide SkipWhitespace;
    match SkipWhitespace(s)
    case At(t) => SymbolsStartAt(env, t);
    case _ =>
  }

  lemma {:induction false} SymbolsStartAt(env: Env, s: string)
    requires s != "" && ReadAt(env, s).0.Got? && ReadAt(env, s).0.obj.Sym?
    ensures StartsSymbol(ReadAt(env, s).0.obj.ns)
    decreases |s|, 0
  {
    hide ReadToken, ReadList, ReadString, Read, ReadSharp;
    var c, t := s[0], s[1..];
    match c
    case ';' => SymbolsStart(env, FromNewline(t)[1..]);
    case '(' => ListsAreNoSymbols(env, t);
    case '\'' =>
    case '"' => StringsAreNoSymbols(t);
    case '#' => SharpSymbol(env, t);
    case '.' =>
    case ')' =>
    case _ => TokenSymbol(env, s);
  }

  lemma StringsAreNoSymbols(s: string)
    ensures ReadString(s).0.Got? ==> ReadString(s).0.obj.Str?
  {
    hide ScanString;
    if s != "" && ScanString(s, "").0.Got? { StringShrinks(s, ""); }
  }

  lemma {:induction false} ListsAreNoSymbols(env: Env, s: string)
    ensures ReadList(env, s).0.Got? ==> !ReadList(env, s).0.obj.Sym?
  {
    hide ReadElements, SkipWhitespace;
    match SkipWhitespace(s)
    case At(t) => if t[0] != ')' { ElementsAreNoSymbols(env, t, []); }
    case _ =>
  }

  lemma {:induction false} ElementsAreNoSymbols(env: Env, s: string, items: seq<Obj>)
    ensures var r := ReadElements(env, s, items).0; r.Got? ==> !r.obj.Sym?
    decreases |s|
  {
    hide Read, SkipWhitespace;
    var (first, t) := Read(env, s);
    if first.Got? && first.obj != Syntax('.') {
      match SkipWhitespace(t)
      case At(w) => if w[0] != ')' { ElementsAreNoSymbols(env, w, items + [first.obj]); }
      case _ =>
    }
  }

  lemma {:induction false} SharpSymbol(env: Env, s: string)
    requires ReadSharp(env, s).0.Got? && ReadSharp(env, s).0.obj.Sym?
    ensures StartsSymbol(ReadSharp(env, s).0.obj.ns)
    decreases |s|, 2
  {
    hide ReadVector, Read, RadixFixnum, ReadUninterned;
    var c, t := s[0], s[1..];
    RadixIsNoSymbol(t);
    VectorsAreNoSymbols(env, t);
    UninternedIsFresh(env, t);
    if c == '|' { SymbolsStart(env, SkipBlock(t).value); }
  }

  lemma RadixIsNoSymbol(s: string)
    ensures forall radix :: RadixFixnum(radix, s).0.Got? ==> RadixFixnum(radix, s).0.obj.Fix?
  {
    hide ReadAtom, Stoull;
  }

  lemma UninternedIsFresh(env: Env, s: string)
    ensures ReadUninterned(env, s).0.Got? ==> ReadUninterned(env, s).0.obj.Fresh?
  {
    hide ReadAtom, ParseNumber, Find;
  }

  lemma VectorsAreNoSymbols(env: Env, s: string)
    ensures ReadVector(env, s).0.Got? ==> !ReadVector(env, s).0.obj.Sym?
  {
    hide Read, ReadList;
  }

  /** The token of a qualified symbol is the symbol's text. */
  lemma TokenSymbol(env: Env, s: string)
    requires s != "" && s[0] != '.' && s[0] != '}' && ReadToken(env, s).0.Got? && ReadToken(env, s).0.obj.Sym?
    ensures var (r, rest) := ReadToken(env, s); var o := r.obj;
            && StartsSymbol(o.ns) && o.ns in env.namespaces && o.ns[0] == s[0]
            && var text := o.ns + Separator(o.extern) + o.name;
            && s == text + rest && AllConstituent(text) && |text| <= MAX_LENGTH
            && SplitsThere(o.ns, o.extern, o.name) && ParseNumber(env, text) == NotNumber
  {
    hide ParseNumber, Find, SplitsThere, IsConstituent, ReadAtom;
    var (atom, rest) := ReadAtom(s);
    AtomIsLongest(s);
    var t := atom.text;
    assert t[0] in t;
    QualifiedText(env, t);
  }

  /** An atom is the longest run of constituents, and no longer than the limit:
      what follows it is the end of input or a character of another kind. */
  lemma AtomIsLongest(s: string)
    ensures var (atom, rest) := ReadAtom(s);
            atom.Name? ==> AllConstituent(atom.text) && |atom.text| <= MAX_LENGTH && Delimits(rest)
  {
    hide ScanAtom, IsConstituent, MapSyntaxType;
    if ScanAtom(s, 0).End? {
      ScannedAreConstituents(s, 0);
      ScanStops(s, 0);
    }
  }

  lemma {:induction false} ScanStops(s: string, len: nat)
    requires len <= MAX_LENGTH && ScanAtom(s, len).End?
    ensures Delimits(s[ScanAtom(s, len).n..])
    decreases |s|
  {
    hide IsConstituent, MapSyntaxType;
    var n := ScanAtom(s, len).n;
    if n > 0 {
      ScanStops(s[1..], len + 1);
      assert s[n..] == s[1..][n - 1..];
    }
  }

  /** White space and line comments, nothing else. */
  predicate Blank(s: string)
    decreases |s|
  {
    if s == "" then true
    else if s[0] == ';' then
      var line := FromNewline(s[1..]);
      line != "" && Blank(line)
    else IsWhitespace(s[0]) && Blank(s[1..])
  }

  /** Skipping passes over white space and comments only, and all of them. */
  lemma {:induction false} SkipsBlanksOnly(s: string)
    ensures SkipWhitespace(s).At? ==>
              var rest := SkipWhitespace(s).rest;
              && |rest| <= |s| && rest != "" && s == s[..|s| - |rest|] + rest && Blank(s[..|s| - |rest|])
              && rest[0] != ';' && !IsWhitespace(rest[0])
    decreases |s|
  {
    hide MapSyntaxType, IsWhitespace;
    if s != "" && SkipWhitespace(s).At? {
      var rest := SkipWhitespace(s).rest;
      if s[0] == ';' {
        var line := FromNewline(s[1..]);
        SkipsBlanksOnly(line);
        CommentThen(s, line, rest);
      } else if IsWhitespace(s[0]) {
        SkipsBlanksOnly(s[1..]);
        BlankThen(s, rest);
      } else {
        assert s[..0] == "";
      }
    }
  }

  lemma BlankThen(s: string, rest: string)
    requires s != "" && s[0] != ';' && IsWhitespace(s[0]) && |rest| <= |s| - 1
    requires s[1..] == s[1..][..|s| - 1 - |rest|] + rest && Blank(s[1..][..|s| - 1 - |rest|])
    ensures s == s[..|s| - |rest|] + rest && Blank(s[..|s| - |rest|])
  {
    var t := s[..|s| - |rest|];
    assert t[1..] == s[1..][..|s| - 1 - |rest|] && t[0] == s[0];
    assert s == [s[0]] + s[1..];
  }

  lemma CommentThen(s: string, line: string, rest: string)
    requires s != "" && s[0] == ';' && line == FromNewline(s[1..]) && line != "" && |rest| <= |line| && rest != ""
    requires line == line[..|line| - |rest|] + rest && Blank(line[..|line| - |rest|])
    requires rest[0] != ';' && !IsWhitespace(rest[0])
    ensures s == s[..|s| - |rest|] + rest && Blank(s[..|s| - |rest|])
  {
    hide IsWhitespace, Blank, FromNewline;
    LineIsSuffix(s[1..]);
    NewlineIsWhite(line);
    var k := |s| - |rest|;
    assert line[|line| - |rest|] == rest[0];
    LineOfPrefix(s[1..], k - 1);
    var t := s[..k];
    assert t[1..] == s[1..][..k - 1];
    assert s[k..] == line[|line| - |rest|..] == rest;
    assert s == t + rest;
    CommentIsBlank(t, line[..|line| - |rest|]);
  }

  lemma NewlineIsWhite(line: string)
    ensures line == "" || line[0] != '\n' || IsWhitespace(line[0])
  {
  }

  lemma CommentIsBlank(t: string, line: string)
    requires t != "" && t[0] == ';' && FromNewline(t[1..]) == line && line != "" && Blank(line)
    ensures Blank(t)
  {
  }

  lemma {:induction false} LineIsSuffix(s: string)
    ensures |FromNewline(s)| <= |s| && (FromNewline(s) != "" ==> FromNewline(s)[0] == '\n')
    ensures s[|s| - |FromNewline(s)|..] == FromNewline(s)
  {
    if s != "" && s[0] != '\n' { LineIsSuffix(s[1..]); }
  }

  /** Cutting the text after the newline cuts what FromNewline leaves. */
  lemma {:induction false} LineOfPrefix(s: string, n: nat)
    requires |s| - |FromNewline(s)| < n <= |s|
    ensures FromNewline(s[..n]) == FromNewline(s)[..n - (|s| - |FromNewline(s)|)]
    decreases |s|
  {
    if s[0] == '\n' {
    } else {
      LineOfPrefix(s[1..], n - 1);
      assert s[..n][1..] == s[1..][..n - 1];
    }
  }

  lemma QualifiedText(env: Env, s: string)
    requires ParseSymbol(env, s).Got? && ParseSymbol(env, s).obj.Sym?
    ensures var o := ParseSymbol(env, s).obj;
            && s == o.ns + Separator(o.extern) + o.name && o.ns in env.namespaces && s[0] != ':'
            && o.ns != "" && SplitsThere(o.ns, o.extern, o.name)
  {
    hide Find, SplitsThere;
    var o := ParseSymbol(env, s).obj;
    var sep := Separator(o.extern);
    var k := Find(s, sep).value;
    assert o.ns == s[..k] && OccursAt(s, sep, k);
    assert s == s[..k] + sep + s[k + |sep|..];
    assert s[k] == s[k..k + |sep|][0] == ':';
    if o.extern { ExternSplits(o.ns, o.name); } else { InternSplits(o.ns, o.name); }
  }

  /** A qualified symbol reads back exactly when it is listed, it is extern or has
      no extern namesake, and its text reads as a symbol. */
  lemma SymbolRoundTripIsExact(env: Env, ns: string, extern: bool, name: string)
    ensures var o := Sym(ns, extern, name);
            Read(env, Print(env, o, true)) == (Got(o), "") <==> ReadableSym(env, ns, extern, name)
  {
    hide Read, SymText, Print;
    var s := Print(env, Sym(ns, extern, name), true);
    if ReadableSym(env, ns, extern, name) {
      SymBack(env, ns, extern, name, "");
      assert s + "" == s;
    }
    if Read(env, s) == (Got(Sym(ns, extern, name)), "") { OnlyReadable(env, ns, extern, name); }
  }

  lemma OnlyReadable(env: Env, ns: string, extern: bool, name: string)
    requires Read(env, Print(env, Sym(ns, extern, name), true)) == (Got(Sym(ns, extern, name)), "")
    ensures ReadableSym(env, ns, extern, name)
  {
    hide Read, SymText, ReadToken, IsConstituent, SplitsThere, ParseNumber;
    var s := ns + Colons(env, ns, name) + name;
    SymbolsStart(env, s);
    assert s[0] == ns[0];
    StartsToken(env, s);
    TokenSymbol(env, s);
    assert s == ns + Separator(extern) + name + "" == ns + Separator(extern) + name;
    SameColons(ns, Colons(env, ns, name), Separator(extern), name);
    PartsAreConstituents(env, ns, extern, name);
  }

  lemma SameColons(ns: string, a: string, b: string, name: string)
    requires ns + a + name == ns + b + name && (a == "" || a == ":" || a == "::") && (b == ":" || b == "::")
    ensures a == b
  {
    assert |ns + a + name| == |ns| + |a| + |name| && |ns + b + name| == |ns| + |b| + |name|;
  }

  lemma StartsToken(env: Env, s: string)
    requires s != "" && StartsSymbol([s[0]])
    ensures Read(env, s) == ReadToken(env, s)
  {
    hide ReadToken;
    TokenChar(s[0]);
    assert SkipWhitespace(s) == At(s);
    assert ReadAt(env, s) == ReadToken(env, s);
  }

  lemma PartsAreConstituents(env: Env, ns: string, extern: bool, name: string)
    requires StartsSymbol(ns) && ns in env.namespaces
    requires var text := ns + Separator(extern) + name;
             && AllConstituent(text) && |text| <= MAX_LENGTH
             && SplitsThere(ns, extern, name) && ParseNumber(env, text) == NotNumber
    ensures SymText(env, ns, extern, name)
  {
    hide IsConstituent, ParseNumber, SplitsThere;
    var text := ns + Separator(extern) + name;
    assert forall c | c in ns :: c in text;
    assert forall c | c in name :: c in text;
  }

  lemma ColonIsConstituent()
    ensures IsConstituent(':')
  {
  }

  /** Symbols interned without a namespace do not survive printing: what is read
      back is a different, uninterned, symbol. */
  lemma BareSymbolsComeBackFresh(env: Env, name: string, rest: string)
    requires name != "" && AllConstituent(name) && ':' !in name && |name| <= MAX_LENGTH && Delimits(rest)
    requires ParseNumber(env, name) == NotNumber
    ensures Read(env, Print(env, Bare(name), true) + rest) == (Got(Fresh(name)), rest)
  {
    hide ParseNumber, IsConstituent;
    AtomBack(name, rest);
    var t := "#:" + name + rest;
    assert t[0] == '#' && t[1..] == ":" + name + rest && t[1..][0] == ':' && t[1..][1..] == name + rest;
    assert MapSyntaxType('#') == Some(Macro);
    assert SkipWhitespace(t) == At(t) by { SharpStarts(t); }
    NoOneColon(name);
    assert ReadUninterned(env, name + rest) == (Got(Fresh(name)), rest);
    assert ReadSharp(env, t[1..]) == ReadUninterned(env, name + rest);
  }

  lemma NoOneColon(t: string)
    requires ':' !in t
    ensures Find(t, ":") == None
  {
    forall j: nat ensures !OccursAt(t, ":", j) {
      if j < |t| { assert t[j..j + 1][0] == t[j] && t[j] in t; }
    }
  }

  /** No printout of such a symbol, whatever its name and whatever follows, reads
      as one. */
  lemma NoBareSymbolComesBack(env: Env, name: string, rest: string)
    ensures var r := Read(env, Print(env, Bare(name), true) + rest).0; r.Got? ==> !r.obj.Bare?
  {
    hide ReadUninterned;
    var t := "#:" + name + rest;
    SharpStarts(t);
    assert t[1..] == ":" + name + rest && t[1..][1..] == name + rest;
    assert ReadSharp(env, t[1..]) == ReadUninterned(env, name + rest);
    UninternedIsFresh(env, name + rest);
  }

  lemma SharpStarts(t: string)
    requires t != "" && t[0] == '#'
    ensures SkipWhitespace(t) == At(t)
  {
  }

  // --------------------------------------------------------------------- strings

  lemma {:induction false} StringBack(kept: string, text: string, rest: string)
    requires |kept| + |text| <= MAX_LENGTH && '"' !in text && '\\' !in text && '}' !in text
    ensures ScanString(text + "\"" + rest, kept) == (Got(Str(kept + text)), rest)
    decreases |text|
  {
    var s := text + "\"" + rest;
    if text == "" {
      assert s[1..] == rest && kept + text == kept;
    } else {
      assert s[0] == text[0] && text[0] in text && s[1..] == text[1..] + "\"" + rest;
      StringBack(kept + [text[0]], text[1..], rest);
      assert kept + [text[0]] + text[1..] == kept + text;
    }
  }

  /** What the scan keeps and what it leaves never exceed what it was given. */
  lemma {:induction false} StringShrinks(s: string, kept: string)
    requires s != "" && ScanString(s, kept).0.Got?
    ensures ScanString(s, kept).0.obj.Str?
    ensures |ScanString(s, kept).0.obj.text| + |ScanString(s, kept).1| < |kept| + |s|
    decreases |s|
  {
    var c := s[0];
    if c != '"' {
      var used := if c == '\\' then 2 else 1;
      StringShrinks(s[used..], kept + [s[used - 1]]);
    }
  }

  lemma {:induction false} StringOnly(kept: string, text: string)
    requires ScanString(text + "\"", kept) == (Got(Str(kept + text)), "")
    ensures '"' !in text && '\\' !in text && '}' !in text && (|kept| <= MAX_LENGTH ==> |kept| + |text| <= MAX_LENGTH)
    decreases |text|
  {
    var s := text + "\"";
    if text != "" {
      var c := s[0];
      assert c == text[0];
      assert c != '"' by { assert |s[1..]| == |text|; }
      if c == '\\' {
        StringShrinks(s[2..], kept + [s[1]]);
        assert false;
      } else {
        assert s[1..] == text[1..] + "\"" && kept + [c] + text[1..] == kept + text;
        StringOnly(kept + [c], text[1..]);
        assert text == [c] + text[1..];
      }
    }
  }

  lemma QuoteStarts(env: Env, t: string)
    requires t != ""
    ensures Read(env, "\"" + t) == ScanString(t, "")
  {
    hide ScanString;
    var s := "\"" + t;
    assert s[0] == '"' && s[1..] == t;
    assert SkipWhitespace(s) == At(s);
  }

  /** Strings are printed without escapes, so one reads back exactly when it is
      short enough and has no double quote, backslash or closing brace. */
  lemma StringRoundTripIsExact(env: Env, text: string)
    ensures Read(env, Print(env, Str(text), true)) == (Got(Str(text)), "") <==> ReadableText(text)
  {
    hide Read, ScanString;
    QuoteStarts(env, text + "\"");
    assert Print(env, Str(text), true) == "\"" + (text + "\"");
    assert "" + text == text;
    if ReadableText(text) {
      StringBack("", text, "");
      assert text + "\"" + "" == text + "\"";
    } else if ScanString(text + "\"", "") == (Got(Str(text)), "") {
      StringOnly("", text);
    }
  }

  // ------------------------------------------------------------ lists and vectors

  /** The printed form of a readable object starts neither white space, nor a
      comment, nor a closing parenthesis, nor a dot. */
  predicate Starts(c: char) {
    c != ';' && c != '}' && c != ')' && c != '.' && MapSyntaxType(c).Some? && !IsWhitespace(c)
  }

  lemma PrintStarts(env: Env, o: Obj)
    requires Readable(env, o)
    ensures Print(env, o, true) != "" && Starts(Print(env, o, true)[0])
  {
    hide IsConstituent;
    match o
    case Fix(n) => FixChars(n); DigitsStart(IntText(n)[0]);
    case Sym(ns, extern, name) =>
      assert Print(env, o, true)[0] == ns[0] && ns[0] in ns;
      ConstituentsStart(ns[0]);
    case _ =>
  }

  lemma DigitsStart(c: char)
    requires c == '-' || '0' <= c <= '9'
    ensures Starts(c)
  {
  }

  lemma ConstituentsStart(c: char)
    requires IsConstituent(c) && c != '}' && c != '.'
    ensures Starts(c)
  {
  }

  lemma StartsAt(env: Env, o: Obj, rest: string)
    requires Readable(env, o)
    ensures var s := Print(env, o, true) + rest;
            SkipWhitespace(s) == At(s) && SkipWhitespace(" " + s) == At(s) && s[0] != ')'
  {
    hide Print, Readable;
    PrintStarts(env, o);
    var s := Print(env, o, true) + rest;
    assert s[0] == Print(env, o, true)[0];
    SkipOne(s);
  }

  lemma SkipOne(s: string)
    requires s != "" && Starts(s[0])
    ensures SkipWhitespace(s) == At(s) && SkipWhitespace(" " + s) == At(s)
  {
    assert (" " + s)[1..] == s;
    assert IsWhitespace(' ');
    assert SkipWhitespace(s) == At(s);
  }

  lemma SkipTo(c: char, rest: string)
    requires c == ')' || c == '.'
    ensures SkipWhitespace([c] + rest) == At([c] + rest)
    ensures SkipWhitespace(" " + ([c] + rest)) == At([c] + rest)
  {
    var s := [c] + rest;
    assert (" " + s)[1..] == s && s[0] == c;
    assert IsWhitespace(' ');
    assert SkipWhitespace(s) == At(s);
  }

  lemma SpaceSplit(s: string, rest: string)
    requires s != "" && s[0] == ' '
    ensures s + rest == " " + (s[1..] + rest)
  {
    assert s == " " + s[1..];
  }

  /** Printing then reading is the identity: reading a readable object's escaped
      printout, followed by any text that delimits an atom, gives the object and
      leaves exactly that text. */
  lemma {:induction false} ReadBack(env: Env, o: Obj, rest: string)
    requires Readable(env, o) && Delimits(rest)
    ensures Read(env, Print(env, o, true) + rest) == (Got(o), rest)
    decreases o, 3
  {
    hide IsConstituent, ParseNumber, IntText;
    match o
    case Fix(n) => FixBack(env, n, rest);
    case Key(name) => KeyBack(env, name, rest);
    case Sym(ns, extern, name) => SymBack(env, ns, extern, name, rest);
    case Chr(c) => ChrBack(env, c, rest);
    case Str(text) => StrBack(env, text, rest);
    case Pair(_, _) => PairBack(env, o, rest);
    case VecT(_) => VecTBack(env, o, rest);
    case VecFix(vals) =>
      VecNumBack(env, "fixnum", vals, rest);
      assert "#(:" + "fixnum" == "#(:fixnum";
    case VecByte(vals) =>
      VecNumBack(env, "byte", vals, rest);
      assert "#(:" + "byte" == "#(:byte";
  }

  /** Quote syntax: a quoted symbol or list reads as the list of :quote and it,
      anything else as itself. */
  lemma QuoteReads(env: Env, o: Obj, rest: string)
    requires Readable(env, o) && Delimits(rest)
    ensures Read(env, "'" + Print(env, o, true) + rest) ==
            (Got(if IsSymbol(o) || o.Pair? then Pair(Key("quote"), Pair(o, NIL)) else o), rest)
  {
    hide Print, Delimits, Readable, Read;
    var t := Print(env, o, true) + rest;
    var s := "'" + Print(env, o, true) + rest;
    ReadBack(env, o, rest);
    assert s[0] == '\'' && s[1..] == t;
    ReadQuoted(env, s);
    assert OnTo([Key("quote"), o], NIL) == Pair(Key("quote"), Pair(o, NIL)) by { ListOfTwo(Key("quote"), o); }
  }

  lemma ReadQuoted(env: Env, s: string)
    requires s != "" && s[0] == '\''
    ensures var (r, rest) := Read(env, s[1..]);
            Read(env, s) ==
            (if r.Got? && (IsSymbol(r.obj) || r.obj.Pair?) then Got(OnTo([Key("quote"), r.obj], NIL)) else r, rest)
  {
    assert SkipWhitespace(s) == At(s);
  }

  lemma ListOfTwo(a: Obj, b: Obj)
    ensures OnTo([a, b], NIL) == Pair(a, Pair(b, NIL))
  {
    assert [a, b][1..] == [b] && [b][1..] == [];
    assert OnTo([b], NIL) == Pair(b, NIL);
  }

  lemma ChrBack(env: Env, c: char, rest: string)
    ensures Read(env, "#\\" + [c] + rest) == (Got(Chr(c)), rest)
  {
    var t := "#\\" + [c] + rest;
    SharpStarts(t);
    assert t[1..] == "\\" + [c] + rest && t[1..][1..] == [c] + rest && ([c] + rest)[1..] == rest;
    assert ReadSharp(env, t[1..]) == (Got(Chr(c)), rest);
  }

  lemma StrBack(env: Env, text: string, rest: string)
    requires ReadableText(text)
    ensures Read(env, "\"" + text + "\"" + rest) == (Got(Str(text)), rest)
  {
    hide Read, ScanString;
    QuoteStarts(env, text + "\"" + rest);
    assert "\"" + text + "\"" + rest == "\"" + (text + "\"" + rest);
    StringBack("", text, rest);
    assert "" + text == text;
  }

  lemma {:induction false} PairBack(env: Env, o: Obj, rest: string)
    requires o.Pair? && Readable(env, o)
    ensures Read(env, Print(env, o, true) + rest) == (Got(o), rest)
    decreases o, 2
  {
    hide Readable, PrintTail, ReadElements, Starts;
    var tail := PrintTail(env, o, true);
    var s := "(" + tail + rest;
    assert s[0] == '(' && s[1..] == tail + rest;
    assert SkipWhitespace(s) == At(s);
    TailStarts(env, o, rest);
    ElementsBack(env, o, [], rest);
    assert OnTo([], o) == o;
    assert Print(env, o, true) + rest == s;
    assert ReadList(env, tail + rest) == (Got(o), rest);
    assert Read(env, s) == ReadList(env, s[1..]);
  }

  lemma TailStarts(env: Env, o: Obj, rest: string)
    requires o.Pair? && Readable(env, o)
    ensures var s := PrintTail(env, o, true) + rest;
            SkipWhitespace(s) == At(s) && SkipWhitespace(" " + s) == At(s) && s[0] != ')'
  {
    hide SkipWhitespace, Print;
    var first := Print(env, o.car, true);
    var after := PrintTail(env, o, true)[|first|..];
    assert PrintTail(env, o, true) + rest == first + (after + rest);
    StartsAt(env, o.car, after + rest);
  }

  /** One turn of the loop of Cons::Read. */
  lemma LoopStep(env: Env, s: string, first: Obj, t: string, w: string, items: seq<Obj>)
    requires Read(env, s) == (Got(first), t) && first != Syntax('.') && SkipWhitespace(t) == At(w)
    ensures ReadElements(env, s, items) ==
            if w[0] == ')' then (Got(OnTo(items + [first], NIL)), w[1..])
            else ReadElements(env, w, items + [first])
  {
    hide Read, SkipWhitespace, OnTo;
  }

  /** The loop of Cons::Read over the printed elements of a list. */
  lemma {:induction false} ElementsBack(env: Env, o: Obj, items: seq<Obj>, rest: string)
    requires o.Pair? && Readable(env, o)
    ensures ReadElements(env, PrintTail(env, o, true) + rest, items) == (Got(OnTo(items, o)), rest)
    decreases o, 1
  {
    hide Print, Read, SkipWhitespace, Delimits, ReadElements;
    var first := Print(env, o.car, true);
    var s := PrintTail(env, o, true) + rest;
    var after :=
      if o.cdr.Pair? then " " + PrintTail(env, o.cdr, true)
      else if o.cdr == NIL then ")"
      else " . " + Print(env, o.cdr, true) + ")";
    assert PrintTail(env, o, true) == first + after;
    assert first + after + rest == first + (after + rest);
    AfterDelimits(after, rest);
    ReadBack(env, o.car, after + rest);
    assert o.car != Syntax('.');
    OnToPush(items, o.car, o.cdr);
    if o.cdr.Pair? {
      TailStarts(env, o.cdr, rest);
      var w := PrintTail(env, o.cdr, true) + rest;
      assert after + rest == " " + w;
      LoopStep(env, s, o.car, after + rest, w, items);
      ElementsBack(env, o.cdr, items + [o.car], rest);
    } else if o.cdr == NIL {
      SkipTo(')', rest);
      assert (")" + rest)[1..] == rest;
      LoopStep(env, s, o.car, after + rest, ")" + rest, items);
    } else {
      DottedBack(env, o, items, rest);
    }
  }

  lemma AfterDelimits(after: string, rest: string)
    requires after != "" && (after[0] == ' ' || after[0] == ')')
    ensures Delimits(after + rest)
  {
    assert (after + rest)[0] == after[0];
  }

  lemma {:induction false} DottedBack(env: Env, o: Obj, items: seq<Obj>, rest: string)
    requires o.Pair? && Readable(env, o) && !o.cdr.Pair? && o.cdr != NIL
    requires var after := " . " + Print(env, o.cdr, true) + ")" + rest;
             Read(env, PrintTail(env, o, true) + rest) == (Got(o.car), after)
    requires o.car != Syntax('.')
    ensures ReadElements(env, PrintTail(env, o, true) + rest, items) == (Got(OnTo(items, o)), rest)
    decreases o, 0
  {
    hide Print, SkipWhitespace, Delimits, PrintTail, Readable, OnTo, Read, ReadElements, ListDot;
    var last, end := Print(env, o.cdr, true), ")" + rest;
    var after := " . " + last + ")" + rest;
    var dot := ['.'] + (" " + (last + end));
    assert after == " " + dot;
    SkipTo('.', " " + (last + end));
    DotReads(env, " " + (last + end));
    AfterDelimits(")", rest);
    PairReadable(env, o);
    ReadBack(env, o.cdr, end);
    StartsAt(env, o.cdr, end);
    ReadSkips(env, last + end);
    SkipTo(')', rest);
    assert end[1..] == rest;
    var items' := items + [o.car];
    DotCloses(env, dot, " " + (last + end), o.cdr, end, items');
    DottedList(items', o.cdr);
    LoopStep(env, PrintTail(env, o, true) + rest, o.car, after, dot, items);
    OnToPush(items, o.car, o.cdr);
    assert Pair(o.car, o.cdr) == o;
  }

  lemma DotReads(env: Env, t: string)
    ensures Read(env, ['.'] + t) == (Got(Syntax('.')), t)
  {
    var s := ['.'] + t;
    assert s[0] == '.' && s[1..] == t && SkipWhitespace(s) == At(s);
  }

  /** The turn of the loop that reads a dot, the tail and the parenthesis. */
  lemma DotCloses(env: Env, s: string, after: string, last: Obj, end: string, items: seq<Obj>)
    requires Read(env, s) == (Got(Syntax('.')), after) && Read(env, after) == (Got(last), end)
    requires end != "" && SkipWhitespace(end) == At(end) && end[0] == ')'
    ensures ReadElements(env, s, items) == (ListDot(items + [last]), end[1..])
  {
    hide Read, SkipWhitespace, ListDot;
  }

  lemma DottedList(items: seq<Obj>, last: Obj)
    requires items != []
    ensures ListDot(items + [last]) == Got(OnTo(items, last))
  {
    assert (items + [last])[..|items|] == items;
  }

  lemma PairReadable(env: Env, o: Obj)
    requires o.Pair? && Readable(env, o)
    ensures Readable(env, o.car) && Readable(env, o.cdr)
  {
  }

  lemma ReadSkips(env: Env, s: string)
    requires SkipWhitespace(" " + s) == At(s) && SkipWhitespace(s) == At(s)
    ensures Read(env, " " + s) == Read(env, s)
  {
  }

  // --------------------------------------------------------------------- vectors

  lemma {:induction false} ItemsBack(env: Env, o: Obj, i: nat, items: seq<Obj>, rest: string)
    requires o.VecT? && Readable(env, o) && i < |o.items|
    ensures PrintItems(env, o, i, true) != "" && PrintItems(env, o, i, true)[0] == ' '
    ensures var s := PrintItems(env, o, i, true)[1..] + rest;
            && SkipWhitespace(s) == At(s) && SkipWhitespace(" " + s) == At(s) && s[0] != ')'
            && ReadElements(env, s, items) == (Got(OnTo(items + o.items[i..], NIL)), rest)
    decreases o, 0, |o.items| - i
  {
    hide Print, Read, SkipWhitespace, Delimits, Readable, ReadElements, OnTo;
    var first := Print(env, o.items[i], true);
    var after := PrintItems(env, o, i + 1, true);
    var s := PrintItems(env, o, i, true)[1..] + rest;
    assert s == first + (after + rest);
    assert Readable(env, o.items[i]) by { ItemReadable(env, o, i); }
    StartsAt(env, o.items[i], after + rest);
    if i + 1 < |o.items| { ItemsBack(env, o, i + 1, items + [o.items[i]], rest); }
    AfterDelimits(after, rest);
    ReadBack(env, o.items[i], after + rest);
    assert o.items[i] != Syntax('.') by { ItemReadable(env, o, i); NotSyntax(env, o.items[i]); }
    if i + 1 == |o.items| {
      SkipTo(')', rest);
      assert (")" + rest)[1..] == rest;
      assert o.items[i..] == [o.items[i]];
      LoopStep(env, s, o.items[i], after + rest, ")" + rest, items);
    } else {
      SpaceSplit(after, rest);
      LoopStep(env, s, o.items[i], after + rest, after[1..] + rest, items);
      assert items + o.items[i..] == items + [o.items[i]] + o.items[i + 1..];
    }
  }

  lemma ItemReadable(env: Env, o: Obj, i: nat)
    requires o.VecT? && Readable(env, o) && i < |o.items|
    ensures Readable(env, o.items[i])
  {
  }

  lemma NotSyntax(env: Env, o: Obj)
    requires Readable(env, o)
    ensures !o.Syntax?
  {
  }

  /** Vector::Read after a vector's type keyword. */
  lemma VectorHead(env: Env, kind: string, items: string, rest: string)
    requires ReadableKey(kind) && items != "" && (items[0] == ' ' || items[0] == ')')
    ensures var s := "#(:" + kind + items + rest;
            var (list, u) := ReadList(env, items + rest);
            Read(env, s) == (if list.Got? then ListToVector(Key(kind), list.obj) else list, u)
  {
    hide ReadList, ListToVector, ReadableKey, Delimits;
    var s := "#(:" + kind + items + rest;
    SharpStarts(s);
    assert s[1..] == "(:" + kind + items + rest;
    assert s[1..][1..] == ":" + kind + (items + rest);
    AfterDelimits(items, rest);
    KeyBack(env, kind, items + rest);
    assert ReadSharp(env, s[1..]) == ReadVector(env, s[1..][1..]);
  }

  /** The printed items of a vector, read as a list. */
  lemma {:induction false} ItemsListBack(env: Env, o: Obj, rest: string)
    requires o.VecT? && Readable(env, o)
    ensures var text := PrintItems(env, o, 0, true);
            && text != "" && (text[0] == ' ' || text[0] == ')')
            && ReadList(env, text + rest) == (Got(OnTo(o.items, NIL)), rest)
    decreases o, 1
  {
    hide Readable, PrintItems, ReadElements, Read, SkipWhitespace;
    var text := PrintItems(env, o, 0, true);
    if |o.items| > 0 {
      ItemsBack(env, o, 0, [], rest);
      SpaceSplit(text, rest);
      assert [] + o.items[0..] == o.items;
    } else {
      NoItems(env, o);
      SkipTo(')', rest);
      assert (")" + rest)[1..] == rest;
      assert OnTo(o.items, NIL) == NIL;
    }
  }

  lemma {:induction false} VecTBack(env: Env, o: Obj, rest: string)
    requires o.VecT? && Readable(env, o)
    ensures Read(env, Print(env, o, true) + rest) == (Got(o), rest)
    decreases o, 2
  {
    hide Readable, PrintItems, ReadList, Read, SkipWhitespace;
    var text := PrintItems(env, o, 0, true);
    ItemsListBack(env, o, rest);
    ElementsOfList(o.items);
    VectorHead(env, "t", text, rest);
    assert Print(env, o, true) + rest == "#(:" + "t" + text + rest;
  }

  lemma NoItems(env: Env, o: Obj)
    requires o.VecT? && o.items == []
    ensures PrintItems(env, o, 0, true) == ")"
  {
  }

  function Fixes(vals: seq<int>): seq<Obj> {
    seq(|vals|, i requires 0 <= i < |vals| => Fix(vals[i]))
  }

  lemma FixesSplit(vals: seq<int>, items: seq<Obj>)
    requires vals != []
    ensures items + Fixes(vals) == items + [Fix(vals[0])] + Fixes(vals[1..])
    ensures |vals| == 1 ==> items + Fixes(vals) == items + [Fix(vals[0])]
  {
  }

  lemma FixStartsAt(env: Env, n: int, rest: string)
    requires InFixnum(n)
    ensures var s := IntText(n) + rest;
            SkipWhitespace(s) == At(s) && SkipWhitespace(" " + s) == At(s) && s[0] != ')'
  {
    hide SkipWhitespace;
    StartsAt(env, Fix(n), rest);
    assert Print(env, Fix(n), true) == IntText(n);
  }

  /** The printed numbers without their leading space. */
  function NumbersText(vals: seq<int>): string
    requires vals != []
  {
    IntText(vals[0]) + PrintNumbers(vals[1..])
  }

  lemma NumbersTextSplits(vals: seq<int>, rest: string)
    requires vals != []
    ensures PrintNumbers(vals) + rest == " " + (NumbersText(vals) + rest)
    ensures var after := PrintNumbers(vals[1..]);
            && NumbersText(vals) + rest == IntText(vals[0]) + (after + rest)
            && after != "" && (after[0] == ' ' || after[0] == ')')
            && (|vals| == 1 ==> after == ")")
  {
    hide IntText;
    Regroup(" ", IntText(vals[0]), PrintNumbers(vals[1..]), rest);
  }

  lemma Regroup(a: string, b: string, c: string, d: string)
    ensures a + b + c + d == a + ((b + c) + d)
    ensures (b + c) + d == b + (c + d)
  {
  }

  lemma {:induction false} NumbersBack(env: Env, vals: seq<int>, items: seq<Obj>, rest: string)
    requires vals != [] && forall i | 0 <= i < |vals| :: InFixnum(vals[i])
    ensures var s := NumbersText(vals) + rest;
            && SkipWhitespace(s) == At(s) && SkipWhitespace(" " + s) == At(s) && s[0] != ')'
            && ReadElements(env, s, items) == (Got(OnTo(items + Fixes(vals), NIL)), rest)
    decreases |vals|
  {
    hide Read, SkipWhitespace, Delimits, InFixnum, IntText, ReadElements, OnTo, Fixes, PrintNumbers, NumbersText;
    FixesSplit(vals, items);
    NumbersTextSplits(vals, rest);
    var after := PrintNumbers(vals[1..]);
    var s := NumbersText(vals) + rest;
    FixStartsAt(env, vals[0], after + rest);
    AfterDelimits(after, rest);
    FixBack(env, vals[0], after + rest);
    if |vals| == 1 {
      SkipTo(')', rest);
      assert (")" + rest)[1..] == rest;
      LoopStep(env, s, Fix(vals[0]), after + rest, ")" + rest, items);
    } else {
      NumbersBack(env, vals[1..], items + [Fix(vals[0])], rest);
      NumbersTextSplits(vals[1..], rest);
      LoopStep(env, s, Fix(vals[0]), after + rest, NumbersText(vals[1..]) + rest, items);
    }
  }

  /** The printed numbers of a vector, read as a list. */
  lemma NumbersListBack(env: Env, vals: seq<int>, rest: string)
    requires forall i | 0 <= i < |vals| :: InFixnum(vals[i])
    ensures var text := PrintNumbers(vals);
            && text != "" && (text[0] == ' ' || text[0] == ')')
            && ReadList(env, text + rest) == (Got(OnTo(Fixes(vals), NIL)), rest)
  {
    hide ReadElements, Read, SkipWhitespace, IntText;
    var text := PrintNumbers(vals);
    if vals != [] {
      NumbersBack(env, vals, [], rest);
      NumbersTextSplits(vals, rest);
      assert [] + Fixes(vals) == Fixes(vals);
    } else {
      SkipTo(')', rest);
      assert (")" + rest)[1..] == rest;
      assert OnTo(Fixes(vals), NIL) == NIL;
    }
  }

  lemma VecNumBack(env: Env, kind: string, vals: seq<int>, rest: string)
    requires kind == "fixnum" || kind == "byte"
    requires forall i | 0 <= i < |vals| :: InFixnum(vals[i]) && (kind == "byte" ==> 0 <= vals[i] < 256)
    ensures Read(env, "#(:" + kind + PrintNumbers(vals) + rest) ==
            (Got(if kind == "fixnum" then VecFix(vals) else VecByte(vals)), rest)
  {
    hide ReadList, Read, PrintNumbers, ListToVector;
    NumbersListBack(env, vals, rest);
    VectorHead(env, kind, PrintNumbers(vals), rest);
    NumbersToVector(kind, vals);
  }

  lemma NumbersToVector(kind: string, vals: seq<int>)
    requires kind == "fixnum" || (kind == "byte" && forall i | 0 <= i < |vals| :: 0 <= vals[i] < 256)
    ensures ListToVector(Key(kind), OnTo(Fixes(vals), NIL)) ==
            Got(if kind == "fixnum" then VecFix(vals) else VecByte(vals))
  {
    ElementsOfList(Fixes(vals));
    assert Numbers(Fixes(vals)) == vals;
    assert kind == "byte" ==> Bytes(vals) == vals;
  }
}
