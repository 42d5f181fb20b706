// What an atom reads as, told from its text: names, keywords, qualified names,
// and digits with more after them.

module Tokens {
  import opened Options
  import opened ReadTable
  import opened Numerals
  import opened Reading
  import opened Printing
  import opened RoundTrip
  import opened Notation

  /** No decimal digit where a numeral would have its first. */
  predicate NoNumeral(s: string) {
    var start := if s != "" && (s[0] == '-' || s[0] == '+') then 1 else 0;
    start < |s| ==> DigitValue(s[start]) >= 10
  }

  /** One atom, and not the start of other syntax. */
  predicate OneAtom(s: string) {
    s != "" && AllConstituent(s) && |s| <= MAX_LENGTH && s[0] != '.' && s[0] != '}'
  }

  lemma NoNumeralIsNoNumber(env: Env, s: string)
    requires NoNumeral(s)
    ensures ParseNumber(env, s) == NotNumber
  {
    var start := if s != "" && (s[0] == '-' || s[0] == '+') then 1 else 0;
    var t := s[start..];
    assert t != "" ==> t[0] == s[start] && t[0] != '0';
    assert t[0..] == t;
    assert DigitsLength(t, 10) == 0;
    assert ReadDigits(t, 0) == None;
  }

  lemma NameToken(env: Env, s: string, rest: string)
    requires OneAtom(s) && NoNumeral(s) && Delimits(rest)
    ensures Read(env, s + rest) == (ParseSymbol(env, s), rest)
  {
    hide ParseNumber, ParseSymbol, ReadAtom, IsConstituent, Delimits, Read, NoNumeral;
    TokenBack(env, s, rest);
    NoNumeralIsNoNumber(env, s);
  }

  lemma NoColonNoSeparator(s: string)
    requires ':' !in s
    ensures Find(s, "::") == None && Find(s, ":") == None
  {
    hide Find;
    forall j: nat ensures !OccursAt(s, "::", j) && !OccursAt(s, ":", j) {
      if j + 1 <= |s| { assert s[j] in s && s[j..j + 1][0] == s[j]; }
      if j + 2 <= |s| { assert s[j] in s && s[j..j + 2][0] == s[j]; }
    }
  }

  /** A name without a colon and without a leading numeral is a symbol without a
      namespace: "foo", "+", "-x". */
  lemma NameReads(env: Env, s: string, rest: string)
    requires OneAtom(s) && NoNumeral(s) && ':' !in s && Delimits(rest)
    ensures Read(env, s + rest) == (Got(Bare(s)), rest)
  {
    hide Find, OneAtom, NoNumeral, Read;
    AtomsAreText(s);
    NameToken(env, s, rest);
    NoColonNoSeparator(s);
    assert s[0] in s && s[0] != ':';
    assert ParseSymbol(env, s) == Got(Bare(s));
  }

  lemma AtomsAreText(s: string)
    requires OneAtom(s)
    ensures s != "" && s[0] != '.' && s != "."
  {
  }

  /** A colon and a name: the keyword, if the name has one to seven characters. */
  lemma KeywordReads(env: Env, name: string, rest: string)
    requires AllConstituent(name) && |name| < MAX_LENGTH && Delimits(rest)
    ensures Read(env, ":" + name + rest) ==
            (if name == "" then Raised("sy-pars", "eof")
             else if |name| > 7 then Raised("sy-pars", "size") else Got(Key(name)), rest)
  {
    hide Read, IsConstituent, Delimits;
    var s := ":" + name;
    ColonIsConstituent();
    NameToken(env, s, rest);
    assert s[1..] == name && s[0] == ':';
  }

  /** A qualified name: the symbol of that name in that namespace, extern after one
      colon and intern after two, if there is such a namespace. */
  lemma QualifiedNameReads(env: Env, ns: string, extern: bool, name: string, rest: string)
    requires var s := ns + Separator(extern) + name; OneAtom(s) && NoNumeral(s)
    requires ns != "" && ':' !in ns && (extern ==> ':' !in name) && Delimits(rest)
    ensures Read(env, ns + Separator(extern) + name + rest) ==
            (if ns in env.namespaces then Got(Sym(ns, extern, name)) else Raised("sy-ns", "ns"), rest)
  {
    hide Read, OneAtom, NoNumeral, Find, SplitsThere, Delimits;
    var sep := Separator(extern);
    var s := ns + sep + name;
    NameToken(env, s, rest);
    SplitsAtColon(ns, extern, name);
    if extern { ExternSplits(ns, name); } else { InternSplits(ns, name); }
    assert s[..|ns|] == ns && s[|ns| + |sep|..] == name;
    assert ns[0] in ns && s[0] == ns[0] && |s| > 1;
  }

  lemma SplitsAtColon(ns: string, extern: bool, name: string)
    requires ':' !in ns && (extern ==> ':' !in name)
    ensures SplitsThere(ns, extern, name)
  {
    hide Find;
    var t := if extern then ":" + name else ns + ":";
    forall j: nat | j + 2 <= |t| ensures !OccursAt(t, "::", j) {
      assert t[j..j + 2] == [t[j], t[j + 1]];
      if extern { assert t[j + 1] in name; } else { assert t[j] in ns; }
    }
  }

  lemma {:induction false} DigitsThenMore(d: string, tail: string, base: nat)
    requires forall c | c in d :: DigitValue(c) < base
    requires tail != "" && DigitValue(tail[0]) >= base
    ensures DigitsLength(d + tail, base) == |d|
    decreases |d|
  {
    if d == "" {
      assert d + tail == tail;
    } else {
      assert d[0] in d && (d + tail)[1..] == d[1..] + tail;
      DigitsThenMore(d[1..], tail, base);
    }
  }

  /** Digits and then something else are no fixnum: if they are no float either,
      a name like any other ("1+", "2nd"), unless the digits alone are too many. */
  lemma DigitsThenMoreReads(env: Env, sign: Sign, n: nat, tail: string, rest: string)
    requires n > 0 && tail != "" && DigitValue(tail[0]) >= 10
    requires var s := SignText(sign) + Digits(n, 10) + tail; OneAtom(s) && ':' !in s
    requires Delimits(rest)
    ensures var s := SignText(sign) + Digits(n, 10) + tail;
            Read(env, s + rest) ==
            (if n >= TWO64 then Raised("rd-num", "syntax")
             else match env.floats(s)
                  case FloatIs(f) => Got(Float(f))
                  case FloatRange => Raised("rd-num", "syntax")
                  case NotFloat => Got(Bare(s)), rest)
  {
    hide Find, Digits, Read, ReadDigits, Stoull, ReadAtom, IsConstituent, Delimits, DigitValue;
    var d := Digits(n, 10);
    var s := SignText(sign) + d + tail;
    DigitsRead(n, 10);
    TokenBack(env, s, rest);
    NoColonNoSeparator(s);
    assert s[0] in s;
    DigitsAndMore(n, tail);
    assert s == SignText(sign) + (d + tail);
    StoullParts(sign, d + tail, 0);
  }

  lemma DigitsAndMore(n: nat, tail: string)
    requires n > 0 && tail != "" && DigitValue(tail[0]) >= 10
    ensures var t := Digits(n, 10) + tail;
            && t != "" && t[0] != '-' && t[0] != '+'
            && ReadDigits(t, 0) == Some((n, |Digits(n, 10)|)) && |Digits(n, 10)| < |t|
  {
    hide ValueOf, Digits, DigitsLength, DigitValue;
    var d := Digits(n, 10);
    var t := d + tail;
    DigitsRead(n, 10);
    assert d[0] in d && t[0] == d[0];
    NoMarks(d[0]);
    DigitsThenMore(d, tail, 10);
    assert !HexPrefixed(t, 0) && BaseOf(t, 0) == 10;
    assert t[0..] == t && t[0..0 + |d|] == d;
  }

  /** #: and a name: an uninterned symbol, unless the name has a colon; #: and the
      decimal text of a number raises. */
  lemma UninternedReads(env: Env, s: string, rest: string)
    requires s != "" && AllConstituent(s) && |s| <= MAX_LENGTH && NoNumeral(s) && Delimits(rest)
    ensures Read(env, "#:" + s + rest) == (if ':' in s then Raised("read", "pkg") else Got(Fresh(s)), rest)
  {
    hide ParseNumber, ReadAtom, IsConstituent, Delimits, NoNumeral, Find, ReadSharp;
    AtomBack(s, rest);
    NoNumeralIsNoNumber(env, s);
    AnyColon(s);
    SharpColon(env, s + rest);
    assert "#:" + s + rest == "#:" + (s + rest);
  }

  lemma UninternedNumbersRaise(env: Env, n: int, rest: string)
    requires InFixnum(n) && Delimits(rest)
    ensures Read(env, "#:" + IntText(n) + rest) == (Raised("read", "type"), rest)
  {
    hide ParseNumber, ReadAtom, IsConstituent, Delimits, IntText, ReadSharp, InFixnum;
    FixChars(n);
    AtomBack(IntText(n), rest);
    FixNumber(env, n);
    SharpColon(env, IntText(n) + rest);
    assert "#:" + IntText(n) + rest == "#:" + (IntText(n) + rest);
  }

  lemma SharpColon(env: Env, t: string)
    ensures Read(env, "#:" + t) == ReadUninterned(env, t)
  {
    hide ReadUninterned;
    var s := "#:" + t;
    ReadsSharp(env, s);
    assert s[1..] == ":" + t && s[1..][1..] == t;
  }

  lemma AnyColon(s: string)
    ensures Find(s, ":").Some? <==> ':' in s
  {
    hide Find;
    if ':' in s {
      var i :| 0 <= i < |s| && s[i] == ':';
      assert OccursAt(s, ":", i);
    } else {
      NoColonNoSeparator(s);
    }
  }

  /** After a sharpsign only x, d and four of the syntax characters mean anything. */
  lemma SharpNeedsSyntax(env: Env, c: char, rest: string)
    requires c !in {'x', 'd', '\\', '(', ':', '|', '}'}
    ensures Read(env, "#" + [c] + rest) == (Raised("read", "type"), rest)
  {
    var s := "#" + [c] + rest;
    ReadsSharp(env, s);
    assert s[1..] == [c] + rest && s[1..][1..] == rest;
  }

  lemma {:induction false} UnmappedScan(s: string, c: char, rest: string, len: nat)
    requires AllConstituent(s) && MapSyntaxType(c).None? && len + |s| <= MAX_LENGTH
    ensures ScanAtom(s + [c] + rest, len) == Unmapped
    decreases |s|
  {
    var t := s + [c] + rest;
    if s == "" {
      assert t[0] == c;
    } else {
      assert t[0] == s[0] && s[0] in s && t[1..] == s[1..] + [c] + rest;
      UnmappedScan(s[1..], c, rest, len + 1);
    }
  }

  /** A character that the readtable does not map, such as U, in or right after an
      atom stops the program. */
  lemma UnmappedCharacterStops(env: Env, s: string, c: char, rest: string)
    requires OneAtom(s) && MapSyntaxType(c).None?
    ensures Read(env, s + [c] + rest) == (Abort, "")
    ensures MapSyntaxType('U').None?
  {
    hide ScanAtom;
    var t := s + [c] + rest;
    UnmappedScan(s, c, rest, 0);
    assert t[0] == s[0] && s[0] in s;
    TokenChar(t[0]);
    assert SkipWhitespace(t) == At(t);
    assert ReadAt(env, t) == ReadToken(env, t);
  }

  // ------------------------------------------------------------------------ dots

  /** A dot with nothing before it stops the program. */
  lemma DotFirstStops(env: Env, o: Obj, rest: string)
    requires Readable(env, o)
    ensures Read(env, "(." + " " + Print(env, o, true) + ")" + rest) == (Abort, rest)
  {
    hide Readable, Print, Read, SkipWhitespace;
    var text := Print(env, o, true);
    var end := ")" + rest;
    var after := " " + text + end;
    ReadBack(env, o, end) by { EndDelimits(rest); }
    StartsAt(env, o, end);
    SpaceThen(env, text + end);
    assert after == " " + (text + end);
    SkipTo(')', rest);
    var s := "(." + after;
    DotReads(env, after);
    assert s == "(." + " " + text + ")" + rest;
    ParenStarts(env, s);
    assert s[1..] == "." + after && end[1..] == rest && end[0] == ')';
    DotAlone(env, "." + after, after, o, end);
  }

  lemma EndDelimits(rest: string)
    ensures Delimits(")" + rest)
  {
  }

  lemma SpaceThen(env: Env, t: string)
    requires SkipWhitespace(t) == At(t)
    ensures Read(env, " " + t) == Read(env, t)
  {
    assert (" " + t)[1..] == t;
  }

  lemma DotAlone(env: Env, s: string, after: string, o: Obj, end: string)
    requires s != "" && s[0] == '.' && Read(env, s) == (Got(Syntax('.')), after) && Read(env, after) == (Got(o), end)
    requires SkipWhitespace(end) == At(end) && end != "" && end[0] == ')'
    ensures ReadList(env, s) == (Abort, end[1..])
  {
    hide Read;
    assert SkipWhitespace(s) == At(s);
  }

  /** The loop of Cons::Read where a second object follows the one after the dot. */
  lemma {:induction false} DotElements(env: Env, items: seq<Obj>, last: Obj, more: string, read: seq<Obj>)
    requires items != [] && (forall o | o in items :: Readable(env, o)) && Readable(env, last)
    requires more != "" && more[0] != ')' && SkipWhitespace(" " + more) == At(more)
    ensures var s := Joined(env, items, true) + (" . " + Print(env, last, true) + " " + more);
            && ReadElements(env, s, read) == (Raised("co-read", "syntax"), more[1..])
            && SkipWhitespace(s) == At(s) && SkipWhitespace(" " + s) == At(s) && s[0] != ')'
    decreases |items|
  {
    hide Read, SkipWhitespace, Print, Readable, ReadElements, Joined;
    var text, end := Print(env, items[0], true), " . " + Print(env, last, true) + " " + more;
    assert items[0] in items;
    NotSyntax(env, items[0]);
    if |items| == 1 {
      assert Joined(env, items, true) == text by { JoinedParts(env, items); }
      AfterDelimits(" ", end[1..]);
      assert " " + end[1..] == end;
      ReadBack(env, items[0], end);
      StartsAt(env, items[0], end);
      DotEnd(env, last, more, read + [items[0]]);
      LoopStep(env, text + end, items[0], end, end[1..], read);
    } else {
      var next := Joined(env, items[1..], true) + end;
      assert Joined(env, items, true) == text + " " + Joined(env, items[1..], true) by { JoinedParts(env, items); }
      assert forall o | o in items[1..] :: o in items;
      DotElements(env, items[1..], last, more, read + [items[0]]);
      AfterDelimits(" ", next);
      ReadBack(env, items[0], " " + next);
      StartsAt(env, items[0], " " + next);
      assert Joined(env, items, true) + end == text + (" " + next);
      LoopStep(env, text + (" " + next), items[0], " " + next, next, read);
    }
  }

  lemma JoinedParts(env: Env, items: seq<Obj>)
    requires items != []
    ensures |items| == 1 ==> Joined(env, items, true) == Print(env, items[0], true)
    ensures |items| > 1 ==> Joined(env, items, true) == Print(env, items[0], true) + " " + Joined(env, items[1..], true)
  {
  }

  /** From the space before the dot on. */
  lemma DotEnd(env: Env, last: Obj, more: string, items: seq<Obj>)
    requires Readable(env, last) && more != "" && more[0] != ')' && SkipWhitespace(" " + more) == At(more)
    ensures var end := " . " + Print(env, last, true) + " " + more;
            && SkipWhitespace(end) == At(end[1..]) && end[1] != ')'
            && ReadElements(env, end[1..], items) == (Raised("co-read", "syntax"), more[1..])
  {
    hide Print, SkipWhitespace, Readable, Read;
    var text := Print(env, last, true);
    var end := " . " + text + " " + more;
    var after := " " + (text + (" " + more));
    assert end[1..] == "." + after && end == " " + ("." + after);
    SkipTo('.', after);
    DotReads(env, after);
    AfterDelimits(" ", more);
    ReadBack(env, last, " " + more);
    StartsAt(env, last, " " + more);
    SpaceThen(env, text + (" " + more));
    DotTurn(env, end[1..], after, last, " " + more, more, items);
  }

  lemma DotTurn(env: Env, s: string, after: string, last: Obj, u: string, more: string, items: seq<Obj>)
    requires Read(env, s) == (Got(Syntax('.')), after) && Read(env, after) == (Got(last), u)
    requires SkipWhitespace(u) == At(more) && more != "" && more[0] != ')'
    ensures ReadElements(env, s, items) == (Raised("co-read", "syntax"), more[1..])
  {
    hide Read, SkipWhitespace;
  }

  /** More than one object after the dot raises. */
  lemma DotNeedsTheEnd(env: Env, items: seq<Obj>, last: Obj, more: string)
    requires items != [] && (forall o | o in items :: Readable(env, o)) && Readable(env, last)
    requires more != "" && more[0] != ')' && SkipWhitespace(" " + more) == At(more)
    ensures Read(env, "(" + Joined(env, items, true) + (" . " + Print(env, last, true) + " " + more)) ==
            (Raised("co-read", "syntax"), more[1..])
  {
    hide ReadElements, Joined, Print, Readable, SkipWhitespace, Read;
    var t := Joined(env, items, true) + (" . " + Print(env, last, true) + " " + more);
    var s := "(" + Joined(env, items, true) + (" . " + Print(env, last, true) + " " + more);
    DotElements(env, items, last, more, []);
    assert s == "(" + t;
    ParenStarts(env, "(" + t);
    assert ("(" + t)[1..] == t;
  }

  // ------------------------------------------------------------------ other ends

  /** Text with nothing but white space and comments in it reads as :nil. */
  lemma {:induction false} NothingReadsAsNil(env: Env, s: string)
    requires Blank(s)
    ensures SkipWhitespace(s) == Eof && Read(env, s) == (Got(NIL), "")
    decreases |s|
  {
    hide ReadAt;
    if s != "" {
      if s[0] == ';' { NothingReadsAsNil(env, FromNewline(s[1..])); } else { NothingReadsAsNil(env, s[1..]); }
    }
  }

  lemma {:induction false} LongScan(s: string, len: nat)
    requires len <= MAX_LENGTH < len + |s|
    requires forall i | 0 <= i <= MAX_LENGTH - len :: IsConstituent(s[i])
    ensures ScanAtom(s, len) == TooLong
    decreases |s|
  {
    hide IsConstituent, MapSyntaxType;
    assert IsConstituent(s[0]);
    ConstituentIsMapped(s[0]);
    if len < MAX_LENGTH {
      assert forall i | 0 <= i < |s| - 1 :: s[1..][i] == s[i + 1];
      LongScan(s[1..], len + 1);
    }
  }

  lemma ConstituentIsMapped(c: char)
    requires IsConstituent(c)
    ensures MapSyntaxType(c).Some?
  {
  }

  /** An atom of more than 1024 characters raises, and the character that was too
      much is gone. */
  lemma LongAtomsRaise(env: Env, s: string)
    requires |s| > MAX_LENGTH && AllConstituent(s[..MAX_LENGTH + 1]) && s[0] != '.' && s[0] != '}'
    ensures Read(env, s) == (Raised("rd-atom", "size"), s[MAX_LENGTH + 1..])
  {
    hide ScanAtom, MapSyntaxType, IsConstituent;
    var t := s[..MAX_LENGTH + 1];
    forall i | 0 <= i <= MAX_LENGTH ensures IsConstituent(s[i]) { assert t[i] == s[i] && t[i] in t; }
    LongScan(s, 0);
    TokenChar(s[0]);
    assert SkipWhitespace(s) == At(s);
    assert ReadAt(env, s) == ReadToken(env, s);
  }

  /** What comes first after #( must be a keyword. */
  lemma VectorNeedsKeyword(env: Env, o: Obj, rest: string)
    requires Readable(env, o) && !o.Key? && Delimits(rest)
    ensures Read(env, "#(" + Print(env, o, true) + rest) == (Raised("vc-read", "type"), rest)
  {
    hide Read, Print, Readable;
    var t := Print(env, o, true) + rest;
    var s := "#(" + t;
    assert s == "#(" + Print(env, o, true) + rest;
    ReadBack(env, o, rest);
    ReadsSharp(env, s);
    assert s[1..] == "(" + t && s[1..][1..] == t;
    assert ReadSharp(env, s[1..]) == ReadVector(env, t);
  }

  /** A sharpsign, and one with a backslash, at the end of the input. */
  lemma SharpAtTheEnd(env: Env)
    ensures Read(env, "#") == (Raised("read", "eof"), "")
    ensures Read(env, "#\\") == (Got(NIL), "")
  {
    hide Read, ReadSharp;
    ReadsSharp(env, "#");
    ReadsSharp(env, "#\\");
    SharpAlone(env, "#"[1..]);
    SharpBackslash(env, "#\\"[1..]);
  }

  lemma SharpAlone(env: Env, t: string)
    requires |t| == 0
    ensures ReadSharp(env, t) == (Raised("read", "eof"), "")
  {
    hide Read;
  }

  lemma SharpBackslash(env: Env, t: string)
    requires |t| == 1 && t[0] == '\\'
    ensures ReadSharp(env, t) == (Got(NIL), "")
  {
    hide Read;
    assert t[1..] == "";
  }

  lemma OpenBlockRaises(env: Env, s: string)
    requires Find(s, "|#") == None
    ensures Read(env, "#|" + s) == (Raised("read", "eof"), "")
  {
    hide Find;
    BlockEndsAtFirst(s);
    ReadsSharp(env, "#|" + s);
    assert ("#|" + s)[1..] == "|" + s && ("|" + s)[1..] == s;
  }
}
