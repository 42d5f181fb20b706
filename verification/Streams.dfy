// The reader and the printer as libmu runs them: reading and un-reading the
// characters of an input stream, writing characters to an output stream.

module Streams {
  import opened Options
  import opened ReadTable
  import opened Numerals
  import opened Reading
  import opened Printing

  /** A string stream opened for input. */
  class InputStream {
    const text: string
    var pos: nat

    constructor (text: string)
      ensures Valid() && Rest() == text
    {
      this.text, pos := text, 0;
    }

    ghost predicate Valid()
      reads this
    {
      pos <= |text|
    }

    /** The text still to be read. */
    ghost function Rest(): string
      reads this
      requires Valid()
    {
      text[pos..]
    }

    /** The character last read: the one UnReadChar may put back. */
    ghost predicate LastRead(c: char)
      reads this
    {
      0 < pos <= |text| && text[pos - 1] == c
    }

    /** Stream::ReadChar: None at the end of input. */
    method ReadChar() returns (c: Option<char>)
      requires Valid()
      modifies this
      ensures Valid()
      ensures old(Rest()) == "" ==> c.None? && Rest() == ""
      ensures old(Rest()) != "" ==> c == Some(old(Rest())[0]) && Rest() == old(Rest())[1..] && LastRead(c.value)
    {
      if pos == |text| { return None; }
      c := Some(text[pos]);
      pos := pos + 1;
    }

    /** Stream::UnReadChar */
    method UnReadChar(c: char)
      requires Valid() && LastRead(c)
      modifies this
      ensures Valid() && Rest() == [c] + old(Rest())
    {
      pos := pos - 1;
      assert text[pos..] == [c] + text[pos + 1..];
    }
  }

  lemma Reassemble(s: string)
    requires s != ""
    ensures [s[0]] + s[1..] == s
  {
  }

  /** The rest of a line comment, up to and including its newline; None when
      the input ends first. */
  method SkipLine(stream: InputStream) returns (c: Option<char>)
    requires stream.Valid()
    modifies stream
    ensures stream.Valid()
    ensures var line := FromNewline(old(stream.Rest()));
            if line == "" then c.None? && stream.Rest() == ""
            else c == Some('\n') && stream.Rest() == line[1..]
  {
    c := stream.ReadChar();
    while c.Some? && c.value != '\n'
      invariant stream.Valid()
      invariant c.None? ==> stream.Rest() == "" && FromNewline(old(stream.Rest())) == ""
      invariant c.Some? ==>
        FromNewline(old(stream.Rest())) == FromNewline([c.value] + stream.Rest())
      decreases |stream.Rest()|, c.Some?
    {
      ghost var before := stream.Rest();
      assert ([c.value] + before)[1..] == before;
      c := stream.ReadChar();
      if c.Some? { Reassemble(before); }
    }
  }

  /** Env::ReadWSUntilEof. Stopped: the program stops on an unmapped character. */
  method ReadWSUntilEof(stream: InputStream) returns (k: Skipped)
    requires stream.Valid()
    modifies stream
    ensures stream.Valid() && k == SkipWhitespace(old(stream.Rest()))
    ensures match k
            case At(rest) => stream.Rest() == rest
            case Eof => stream.Rest() == ""
            case Stopped => true
  {
    while true
      invariant stream.Valid()
      invariant SkipWhitespace(old(stream.Rest())) == SkipWhitespace(stream.Rest())
      decreases |stream.Rest()|
    {
      ghost var before := stream.Rest();
      var c := stream.ReadChar();
      if c.None? { return Eof; }
      if IsSyntaxChar(c.value) && IsUnmappedSyntax(c.value) { return Stopped; }
      if c.value == ';' {
        c := SkipLine(stream);
        ghost var line := FromNewline(before[1..]);
        if c.None? { return Eof; }
        NewlineIsSpace(line);
      } else {
        if MapSyntaxType(c.value).None? { return Stopped; }
        if !IsWhitespace(c.value) {
          stream.UnReadChar(c.value);
          Reassemble(before);
          return At(stream.text[stream.pos..]);
        }
      }
    }
  }

  lemma NewlineIsSpace(line: string)
    requires line != "" && line[0] == '\n'
    ensures SkipWhitespace(line) == SkipWhitespace(line[1..])
  {
  }

  /** One turn of read_atom's loop. */
  lemma ScanCases(s: string, len: nat)
    requires len <= MAX_LENGTH
    ensures s == "" ==> ScanAtom(s, len) == End(0)
    ensures s != "" && MapSyntaxType(s[0]).None? ==> ScanAtom(s, len) == Unmapped
    ensures s != "" && MapSyntaxType(s[0]).Some? && !IsConstituent(s[0]) ==> ScanAtom(s, len) == End(0)
    ensures s != "" && IsConstituent(s[0]) && len == MAX_LENGTH ==> ScanAtom(s, len) == TooLong
    ensures s != "" && IsConstituent(s[0]) && len < MAX_LENGTH ==>
              ScanAtom(s, len) == Later(ScanAtom(s[1..], len + 1), 1)
  {
  }

  /** The same end, counted from n characters earlier. */
  function Later(k: Scan, n: nat): Scan {
    match k case End(m) => End(m + n) case other => other
  }

  /** Part of the way through read_atom's loop: name has been read of s. */
  ghost predicate Scanned(s: string, name: string, rest: string) {
    |name| <= MAX_LENGTH && s == name + rest && ScanAtom(s, 0) == Later(ScanAtom(rest, |name|), |name|)
  }

  lemma NothingScanned(s: string)
    ensures Scanned(s, "", s)
  {
    hide ScanAtom;
    assert s == "" + s;
  }

  lemma ScannedMore(s: string, name: string, rest: string)
    requires Scanned(s, name, rest) && rest != "" && IsConstituent(rest[0]) && |name| < MAX_LENGTH
    ensures Scanned(s, name + [rest[0]], rest[1..])
  {
    hide ScanAtom, IsConstituent, MapSyntaxType;
    ScanCases(rest, |name|);
    assert name + rest == (name + [rest[0]]) + rest[1..];
  }

  lemma AtomEnds(s: string, name: string, rest: string)
    requires Scanned(s, name, rest)
    requires rest == "" || (MapSyntaxType(rest[0]).Some? && !IsConstituent(rest[0]))
    ensures ReadAtom(s) == (if name == "" then Failed(Raised("rd-atom", "parse")) else Name(name), rest)
  {
    hide ScanAtom, IsConstituent, MapSyntaxType;
    ScanCases(rest, |name|);
    assert s[..|name|] == name && s[|name|..] == rest;
  }

  lemma AtomTooLong(s: string, name: string, rest: string)
    requires Scanned(s, name, rest) && |name| == MAX_LENGTH && rest != "" && IsConstituent(rest[0])
    ensures ReadAtom(s) == (Failed(Raised("rd-atom", "size")), rest[1..])
  {
    hide ScanAtom, IsConstituent, MapSyntaxType;
    ScanCases(rest, |name|);
    assert s[MAX_LENGTH + 1..] == rest[1..];
  }

  lemma AtomUnmapped(s: string, name: string, rest: string)
    requires Scanned(s, name, rest) && rest != "" && MapSyntaxType(rest[0]).None?
    ensures ReadAtom(s).0 == Failed(Abort)
  {
    hide ScanAtom, MapSyntaxType;
    ScanCases(rest, |name|);
  }

  /** read_atom */
  method ReadAtomFrom(stream: InputStream) returns (r: Atom)
    requires stream.Valid()
    modifies stream
    ensures stream.Valid() && r == ReadAtom(old(stream.Rest())).0
    ensures r != Failed(Abort) ==> stream.Rest() == ReadAtom(old(stream.Rest())).1
  {
    hide MapSyntaxType, IsConstituent, ReadAtom, Scanned;
    ghost var s := stream.Rest();
    var name: string := "";
    NothingScanned(s);
    while true
      invariant stream.Valid() && |name| <= MAX_LENGTH && Scanned(s, name, stream.Rest())
      decreases |stream.Rest()|
    {
      ghost var before := stream.Rest();
      var c := stream.ReadChar();
      if c.Some? && MapSyntaxType(c.value).None? {
        AtomUnmapped(s, name, before);
        return Failed(Abort);
      }
      if c.None? || !IsConstituent(c.value) {
        if c.Some? {
          stream.UnReadChar(c.value);
          Reassemble(before);
        }
        AtomEnds(s, name, before);
        return if name == "" then Failed(Raised("rd-atom", "parse")) else Name(name);
      }
      if |name| >= MAX_LENGTH {
        AtomTooLong(s, name, before);
        return Failed(Raised("rd-atom", "size"));
      }
      ScannedMore(s, name, before);
      name := name + [c.value];
    }
  }

  /** radix_fixnum */
  method ReadRadix(radix: nat, stream: InputStream) returns (r: Result)
    requires stream.Valid()
    modifies stream
    ensures stream.Valid() && r == RadixFixnum(radix, old(stream.Rest())).0
    ensures r != Abort ==> stream.Rest() == RadixFixnum(radix, old(stream.Rest())).1
  {
    var atom := ReadAtomFrom(stream);
    if atom.Failed? { return atom.result; }
    match Stoull(atom.text, radix)
    case NoDigits => r := Raised("rd-rdx", "syntax");
    case TooBig => r := Raised("rd-rdx", "range");
    case Parsed(v, used) =>
      if used != |atom.text| { return Raised("rd-rdx", "syntax"); }
      if TopBitsDiffer(v) { return Raised("rd-rdx", "range"); }
      r := Got(Fix(Wrap59(v)));
  }

  /** Vector::ReadString */
  method ReadStringFrom(stream: InputStream) returns (r: Result)
    requires stream.Valid()
    modifies stream
    ensures stream.Valid() && r == ReadString(old(stream.Rest())).0
    ensures r != Abort ==> stream.Rest() == ReadString(old(stream.Rest())).1
  {
    ghost var s := stream.Rest();
    var text: string := "";
    var c := stream.ReadChar();
    if c.None? { return Abort; }
    Reassemble(s);
    while c != Some('"')
      invariant stream.Valid() && c.Some?
      invariant s != "" && ScanString(s, "") == ScanString([c.value] + stream.Rest(), text)
      decreases |stream.Rest()|
    {
      ghost var before := [c.value] + stream.Rest();
      assert before[1..] == stream.Rest();
      if IsUnmappedSyntax(c.value) { return Abort; }
      if |text| >= MAX_LENGTH { return Raised("vc-rdst", "size"); }
      if c.value == '\\' {
        c := stream.ReadChar();
        if c.None? { return Raised("vc-rdst", "eof"); }
        assert before[1] == c.value && before[2..] == stream.Rest();
      }
      text := text + [c.value];
      ghost var after := stream.Rest();
      c := stream.ReadChar();
      if c.None? { return Raised("vc-rdst", "eof"); }
      Reassemble(after);
    }
    assert ([c.value] + stream.Rest())[1..] == stream.Rest();
    r := Got(Str(text));
  }

  /** The loop over a block comment: whether its end was found. */
  method SkipBlockComment(stream: InputStream) returns (found: bool)
    requires stream.Valid()
    modifies stream
    ensures stream.Valid() && found == SkipBlock(old(stream.Rest())).Some?
    ensures stream.Rest() == if found then SkipBlock(old(stream.Rest())).value else ""
  {
    while true
      invariant stream.Valid() && SkipBlock(old(stream.Rest())) == SkipBlock(stream.Rest())
      decreases |stream.Rest()|
    {
      ghost var before := stream.Rest();
      var c := stream.ReadChar();
      if c.None? { return false; }
      if c.value == '|' {
        ghost var after := stream.Rest();
        c := stream.ReadChar();
        if c.None? {
          assert before[1..] == "" && SkipBlock("") == None;
          return false;
        }
        assert before[1] == c.value && before[2..] == after[1..];
        if c.value == '#' { return true; }
        stream.UnReadChar(c.value);
        Reassemble(after);
      }
    }
  }

  /** #:name */
  method ReadUninternedFrom(env: Env, stream: InputStream) returns (r: Result)
    requires stream.Valid()
    modifies stream
    ensures stream.Valid() && r == ReadUninterned(env, old(stream.Rest())).0
    ensures r != Abort ==> stream.Rest() == ReadUninterned(env, old(stream.Rest())).1
  {
    var atom := ReadAtomFrom(stream);
    if atom.Failed? { return atom.result; }
    match ParseNumber(env, atom.text)
    case Bad(what) => r := Raised("rd-num", what);
    case NotNumber => r := if Find(atom.text, ":").Some? then Raised("read", "pkg") else Got(Fresh(atom.text));
    case _ => r := Raised("read", "type");
  }

  /** The default branch of Env::Read. */
  method ReadTokenFrom(env: Env, stream: InputStream) returns (r: Result)
    requires stream.Valid()
    modifies stream
    ensures stream.Valid() && r == ReadToken(env, old(stream.Rest())).0
    ensures r != Abort ==> stream.Rest() == ReadToken(env, old(stream.Rest())).1
  {
    var atom := ReadAtomFrom(stream);
    if atom.Failed? { return atom.result; }
    match ParseNumber(env, atom.text)
    case Num(n) => r := Got(Fix(n));
    case FloatNum(f) => r := Got(Float(f));
    case Bad(what) => r := Raised("rd-num", what);
    case NotNumber => r := ParseSymbol(env, atom.text);
  }

  /** Env::Read: refines Reading.Read, which bounds its recursion. */
  method ReadObject(env: Env, stream: InputStream) returns (r: Result)
    requires stream.Valid()
    modifies stream
    ensures stream.Valid() && r == Read(env, old(stream.Rest())).0
    ensures r != Abort ==> stream.Rest() == Read(env, old(stream.Rest())).1
    decreases |stream.Rest()|, 2
  {
    ghost var s := stream.Rest();
    var k := ReadWSUntilEof(stream);
    if k.Stopped? { return Abort; }
    if k.Eof? { return Got(NIL); }
    ghost var t := stream.Rest();
    var c := stream.ReadChar();
    if IsSyntaxChar(c.value) {
      if IsUnmappedSyntax(c.value) { return Abort; }
      match c.value
      case ';' =>
        c := SkipLine(stream);
        if c.None? { return Got(NIL); }
        r := ReadObject(env, stream);
      case '(' => r := ReadListFrom(env, stream);
      case '.' => r := Got(Syntax('.'));
      case '\'' =>
        r := ReadObject(env, stream);
        if r.Got? && (IsSymbol(r.obj) || r.obj.Pair?) {
          r := Got(OnTo([Key("quote"), r.obj], NIL));
        }
      case '"' => r := ReadStringFrom(stream);
      case '#' => r := ReadSharpFrom(env, stream);
      case ')' => r := Raised("read", "syntax");
      case _ =>
        stream.UnReadChar(c.value);
        Reassemble(t);
        r := ReadTokenFrom(env, stream);
    } else {
      stream.UnReadChar(c.value);
      Reassemble(t);
      r := ReadTokenFrom(env, stream);
    }
  }

  /** The dispatch on the character after a sharpsign. */
  method ReadSharpFrom(env: Env, stream: InputStream) returns (r: Result)
    requires stream.Valid()
    modifies stream
    ensures stream.Valid() && r == ReadSharp(env, old(stream.Rest())).0
    ensures r != Abort ==> stream.Rest() == ReadSharp(env, old(stream.Rest())).1
    decreases |stream.Rest()|, 6
  {
    var c := stream.ReadChar();
    if c.None? { return Raised("read", "eof"); }
    if c.value == 'x' { r := ReadRadix(16, stream); return; }
    if c.value == 'd' { r := ReadRadix(10, stream); return; }
    if !IsSyntaxChar(c.value) { return Raised("read", "type"); }
    if IsUnmappedSyntax(c.value) { return Abort; }
    match c.value
    case '\\' =>
      c := stream.ReadChar();
      r := Got(if c.Some? then Chr(c.value) else NIL);
    case '(' => r := ReadVectorFrom(env, stream);
    case ':' => r := ReadUninternedFrom(env, stream);
    case '|' =>
      var found := SkipBlockComment(stream);
      if !found { return Raised("read", "eof"); }
      r := ReadObject(env, stream);
    case _ => r := Raised("read", "type");
  }

  /** Cons::Read */
  method ReadListFrom(env: Env, stream: InputStream) returns (r: Result)
    requires stream.Valid()
    modifies stream
    ensures stream.Valid() && r == ReadList(env, old(stream.Rest())).0
    ensures r != Abort ==> stream.Rest() == ReadList(env, old(stream.Rest())).1
    decreases |stream.Rest()|, 4
  {
    ghost var s := stream.Rest();
    var k := ReadWSUntilEof(stream);
    if k.Stopped? { return Abort; }
    if k.Eof? { return Raised("co-read", "eof"); }
    SkipTwice(s);
    k := ReadWSUntilEof(stream);
    if k.Eof? { return Raised("co-read", "eof"); }
    ghost var t := stream.Rest();
    var c := stream.ReadChar();
    if c.value == ')' { return Got(NIL); }
    stream.UnReadChar(c.value);
    Reassemble(t);
    var vlist: seq<Obj> := [];
    while true
      invariant stream.Valid() && |stream.Rest()| <= |s|
      invariant ReadList(env, s) == ReadElements(env, stream.Rest(), vlist)
      decreases |stream.Rest()|
    {
      ghost var before := stream.Rest();
      var el := ReadObject(env, stream);
      if !el.Got? { return el; }
      if el.obj == Syntax('.') {
        el := ReadObject(env, stream);
        if !el.Got? { return el; }
        vlist := vlist + [el.obj];
        k := ReadWSUntilEof(stream);
        if k.Stopped? { return Abort; }
        if k.Eof? { return Raised("co-read", "eof"); }
        c := stream.ReadChar();
        if c.value != ')' { return Raised("co-read", "syntax"); }
        return ListDot(vlist);
      }
      k := ReadWSUntilEof(stream);
      if k.Stopped? { return Abort; }
      if k.Eof? { return Raised("co-read", "eof"); }
      ghost var after := stream.Rest();
      c := stream.ReadChar();
      vlist := vlist + [el.obj];
      if c.value == ')' { return Got(OnTo(vlist, NIL)); }
      stream.UnReadChar(c.value);
      Reassemble(after);
    }
  }

  /** Skipping white space a second time changes nothing. */
  lemma {:induction false} SkipTwice(s: string)
    ensures SkipWhitespace(s).At? ==> SkipWhitespace(SkipWhitespace(s).rest) == SkipWhitespace(s)
    decreases |s|
  {
    if s != "" {
      if s[0] == ';' { SkipTwice(FromNewline(s[1..])); }
      else if IsWhitespace(s[0]) { SkipTwice(s[1..]); }
    }
  }

  /** Vector::Read */
  method ReadVectorFrom(env: Env, stream: InputStream) returns (r: Result)
    requires stream.Valid()
    modifies stream
    ensures stream.Valid() && r == ReadVector(env, old(stream.Rest())).0
    ensures r != Abort ==> stream.Rest() == ReadVector(env, old(stream.Rest())).1
    decreases |stream.Rest()|, 5
  {
    var kind := ReadObject(env, stream);
    if !kind.Got? { return kind; }
    if !kind.obj.Key? { return Raised("vc-read", "type"); }
    r := ReadListFrom(env, stream);
    if r.Got? { r := ListToVector(kind.obj, r.obj); }
  }

  // ------------------------------------------------------------------- printing

  /** A string stream opened for output. */
  class OutputStream {
    var text: string

    constructor ()
      ensures text == ""
    {
      text := "";
    }

    method WriteByte(c: char)
      modifies this
      ensures text == old(text) + [c]
    {
      text := text + [c];
    }

    /** Env::Write on a string. */
    method WriteString(s: string)
      modifies this
      ensures text == old(text) + s
    {
      var i := 0;
      while i < |s|
        invariant i <= |s| && text == old(text) + s[..i]
      {
        WriteByte(s[i]);
        i := i + 1;
      }
      assert s[..|s|] == s;
    }

    /** Env::Write */
    method Write(env: Env, o: Obj, esc: bool)
      modifies this
      ensures text == old(text) + Print(env, o, esc)
      decreases o, 2
    {
      hide PrintTail, PrintItems, IntText;
      match o
      case Fix(n) => WriteString(IntText(n));
      case Key(_) => WriteSymbol(env, o, esc);
      case Sym(_, _, _) => WriteSymbol(env, o, esc);
      case Bare(_) => WriteSymbol(env, o, esc);
      case Fresh(_) => WriteSymbol(env, o, esc);
      case Chr(c) => WriteChar(env, c, esc);
      case Syntax(_) => assert text == text + "";
      case Str(s) => WriteText(env, s, esc);
      case Pair(_, _) => WriteCons(env, o, esc);
      case VecT(_) => WriteItems(env, o, esc);
      case VecFix(vals) => WriteNumbers("#(:fixnum", vals);
      case VecByte(vals) => WriteNumbers("#(:byte", vals);
      case Float(f) => WriteString(env.floatText(f));
      case VecFloat(fs) => WriteFloats(env, fs);
    }

    /** Symbol::Write */
    method WriteSymbol(env: Env, o: Obj, esc: bool)
      requires IsSymbol(o)
      modifies this
      ensures text == old(text) + Print(env, o, esc)
    {
      if o.Key? {
        WriteString(":");
      } else if esc {
        if o.Sym? {
          WriteString(o.ns);
          if Maps(env, o.ns, true, o.name) {
            WriteString(":");
          } else if Maps(env, o.ns, false, o.name) {
            WriteString("::");
          }
        } else {
          WriteString("#:");
        }
      }
      WriteString(o.name);
    }

    /** Char::Write */
    method WriteChar(env: Env, c: char, esc: bool)
      modifies this
      ensures text == old(text) + Print(env, Chr(c), esc)
    {
      if esc { WriteString("#\\"); }
      WriteByte(c);
    }

    /** Vector::Write on a string: no character is escaped. */
    method WriteText(env: Env, s: string, esc: bool)
      modifies this
      ensures text == old(text) + Print(env, Str(s), esc)
    {
      if esc { WriteString("\""); }
      WriteString(s);
      if esc { WriteString("\""); }
    }

    /** Cons::Write */
    method WriteCons(env: Env, cons: Obj, esc: bool)
      requires cons.Pair?
      modifies this
      ensures text == old(text) + Print(env, cons, esc)
      decreases cons, 1
    {
      hide Print, PrintTail, Remaining;
      ghost var start := text;
      WriteString("(");
      var it := cons;
      var first := true;
      ConsOpens(env, cons, esc);
      Regroup(start, "(", Remaining(env, it, first, esc));
      while it.Pair?
        invariant first ==> it.Pair?
        invariant text + Remaining(env, it, first, esc) == start + Print(env, cons, esc)
        invariant it == cons || it < cons
        decreases it
      {
        WriteElement(env, it, first, esc);
        first := false;
        it := it.cdr;
      }
      assert Remaining(env, it, first, esc) == ")" by { NothingRemains(env, it, first, esc); }
      WriteString(")");
    }

    /** One turn of Cons::Write's loop: the separator, the element, and a dotted
        tail if this is the last cell. */
    method WriteElement(env: Env, it: Obj, first: bool, esc: bool)
      requires it.Pair?
      modifies this
      ensures text + Remaining(env, it.cdr, false, esc) == old(text) + Remaining(env, it, first, esc)
      decreases it, 0
    {
      hide Print, PrintTail, Remaining;
      RemainingStep(env, it, first, esc);
      ghost var sep := if first then "" else " ";
      ghost var dot := if !it.cdr.Pair? && it.cdr != NIL then " . " + Print(env, it.cdr, esc) else "";
      ghost var rest := Remaining(env, it.cdr, false, esc);
      Regroup(text, sep, Print(env, it.car, esc) + (dot + rest));
      if !first { WriteString(" "); }
      Regroup(text, Print(env, it.car, esc), dot + rest);
      Write(env, it.car, esc);
      Regroup(text, dot, rest);
      if !it.cdr.Pair? && it.cdr != NIL {
        Regroup(text, " . ", Print(env, it.cdr, esc));
        WriteString(" . ");
        Write(env, it.cdr, esc);
      }
    }

    /** Vector::Write on a :t vector. */
    method WriteItems(env: Env, vector: Obj, esc: bool)
      requires vector.VecT?
      modifies this
      ensures text == old(text) + Print(env, vector, esc)
      decreases vector, 1
    {
      hide PrintItems;
      ghost var start := text;
      WriteString("#(:t");
      var i := 0;
      Regroup(start, "#(:t", PrintItems(env, vector, 0, esc));
      while i < |vector.items|
        invariant i <= |vector.items|
        invariant text + PrintItems(env, vector, i, esc) == start + Print(env, vector, esc)
      {
        ghost var rest := PrintItems(env, vector, i + 1, esc);
        ItemsStep(env, vector, i, esc);
        Regroup3(text, " ", Print(env, vector.items[i], esc), rest);
        WriteString(" ");
        Write(env, vector.items[i], esc);
        i := i + 1;
      }
      ItemsStep(env, vector, i, esc);
      WriteString(")");
    }

    /** Vector::Write on numbers. */
    method WriteNumbers(head: string, vals: seq<int>)
      modifies this
      ensures text == old(text) + (head + PrintNumbers(vals))
    {
      hide PrintNumbers, IntText;
      ghost var start := text;
      WriteString(head);
      var i := 0;
      Regroup(start, head, PrintNumbers(vals));
      assert vals[0..] == vals;
      while i < |vals|
        invariant i <= |vals|
        invariant text + PrintNumbers(vals[i..]) == start + (head + PrintNumbers(vals))
      {
        NumbersStep(vals, i);
        Regroup3(text, " ", IntText(vals[i]), PrintNumbers(vals[i + 1..]));
        WriteString(" ");
        WriteString(IntText(vals[i]));
        i := i + 1;
      }
      NumbersStep(vals, i);
      WriteString(")");
    }

    /** Vector::Write on floats. */
    method WriteFloats(env: Env, fs: seq<int>)
      modifies this
      ensures text == old(text) + ("#(:float" + PrintFloats(env, fs))
    {
      hide PrintFloats;
      ghost var start := text;
      WriteString("#(:float");
      var i := 0;
      Regroup(start, "#(:float", PrintFloats(env, fs));
      assert fs[0..] == fs;
      while i < |fs|
        invariant i <= |fs|
        invariant text + PrintFloats(env, fs[i..]) == start + ("#(:float" + PrintFloats(env, fs))
      {
        FloatsStep(env, fs, i);
        Regroup3(text, " ", env.floatText(fs[i]), PrintFloats(env, fs[i + 1..]));
        WriteString(" ");
        WriteString(env.floatText(fs[i]));
        i := i + 1;
      }
      FloatsStep(env, fs, i);
      WriteString(")");
    }
  }

  lemma ItemsStep(env: Env, o: Obj, i: nat, esc: bool)
    requires o.VecT? && i <= |o.items|
    ensures PrintItems(env, o, i, esc) ==
            if i == |o.items| then ")" else " " + Print(env, o.items[i], esc) + PrintItems(env, o, i + 1, esc)
  {
    hide Print;
  }

  lemma NumbersStep(vals: seq<int>, i: nat)
    requires i <= |vals|
    ensures PrintNumbers(vals[i..]) ==
            if i == |vals| then ")" else " " + IntText(vals[i]) + PrintNumbers(vals[i + 1..])
  {
    hide IntText;
    if i < |vals| { assert vals[i..][0] == vals[i] && vals[i..][1..] == vals[i + 1..]; }
  }

  lemma FloatsStep(env: Env, fs: seq<int>, i: nat)
    requires i <= |fs|
    ensures PrintFloats(env, fs[i..]) ==
            if i == |fs| then ")" else " " + env.floatText(fs[i]) + PrintFloats(env, fs[i + 1..])
  {
    if i < |fs| { assert fs[i..][0] == fs[i] && fs[i..][1..] == fs[i + 1..]; }
  }

  lemma Regroup3(a: string, b: string, c: string, d: string)
    ensures a + (b + c + d) == ((a + b) + c) + d
  {
  }

  /** What the loop of Cons::Write has still to write. */
  ghost function Remaining(env: Env, it: Obj, first: bool, esc: bool): string {
    if it.Pair? then (if first then "" else " ") + PrintTail(env, it, esc) else ")"
  }

  lemma ConsOpens(env: Env, cons: Obj, esc: bool)
    requires cons.Pair?
    ensures Print(env, cons, esc) == "(" + Remaining(env, cons, true, esc)
  {
    assert "" + PrintTail(env, cons, esc) == PrintTail(env, cons, esc);
  }

  lemma RemainingStep(env: Env, it: Obj, first: bool, esc: bool)
    requires it.Pair?
    ensures var dot := if !it.cdr.Pair? && it.cdr != NIL then " . " + Print(env, it.cdr, esc) else "";
            Remaining(env, it, first, esc) ==
            (if first then "" else " ") + (Print(env, it.car, esc) + (dot + Remaining(env, it.cdr, false, esc)))
  {
    hide Print;
    var rest := Remaining(env, it.cdr, false, esc);
    assert "" + rest == rest;
  }

  lemma NothingRemains(env: Env, it: Obj, first: bool, esc: bool)
    requires !it.Pair?
    ensures Remaining(env, it, first, esc) == ")"
  {
  }

  lemma Regroup(a: string, b: string, c: string)
    ensures a + (b + c) == (a + b) + c
  {
  }
}
