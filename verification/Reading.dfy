// The reader (core/read.cc, Cons::Read, Vector::Read, Vector::ReadString) as
// functions from the text still to be read to a result and the text left.

module Reading {
  import opened Options
  import opened ReadTable
  import opened Numerals

  /** An object, an exception raised by `where` about `what`, or a stop of the
      program: a failed assertion or an uncaught C++ exception. */
  datatype Result = Got(obj: Obj) | Raised(where: string, what: string) | Abort

  /** Less text than before: reading makes progress. */
  predicate Shorter(s: string, rest: string) {
    |rest| < |s| || (s == "" && rest == "")
  }

  // ---------------------------------------------------------------- white space

  /** The rest of a line, from its newline on. */
  function FromNewline(s: string): (r: string)
    ensures |r| <= |s| && (r != "" ==> r[0] == '\n')
  {
    if s == "" || s[0] == '\n' then s else FromNewline(s[1..])
  }

  datatype Skipped = At(rest: string) | Eof | Stopped

  /** ReadWSUntilEof: past white space and line comments. */
  function SkipWhitespace(s: string): (k: Skipped)
    ensures k.At? ==> k.rest != "" && |k.rest| <= |s|
    decreases |s|
  {
    if s == "" then Eof
    else if s[0] == ';' then SkipWhitespace(FromNewline(s[1..]))
    else if IsUnmappedSyntax(s[0]) || MapSyntaxType(s[0]).None? then Stopped
    else if IsWhitespace(s[0]) then SkipWhitespace(s[1..])
    else At(s)
  }

  // ---------------------------------------------------------------------- atoms

  /** Vector::MAX_LENGTH */
  const MAX_LENGTH := 1024

  /** How the loop of read_atom ends: before character n, past the length limit,
      or at a character the readtable does not map. */
  datatype Scan = End(n: nat) | TooLong | Unmapped

  function ScanAtom(s: string, len: nat): (k: Scan)
    requires len <= MAX_LENGTH
    ensures k.End? ==> k.n <= |s| && k.n + len <= MAX_LENGTH
    ensures k.TooLong? ==> |s| + len > MAX_LENGTH
    decreases |s|
  {
    if s == "" then End(0)
    else if MapSyntaxType(s[0]).None? then Unmapped
    else if !IsConstituent(s[0]) then End(0)
    else if len >= MAX_LENGTH then TooLong
    else
      match ScanAtom(s[1..], len + 1)
      case End(n) => End(n + 1)
      case other => other
  }

  datatype Atom = Name(text: string) | Failed(result: Result)

  /** read_atom */
  function ReadAtom(s: string): (r: (Atom, string))
    ensures |r.1| <= |s| && (r.0.Name? ==> r.0.text != "" && s == r.0.text + r.1)
    ensures r.0.Failed? ==> !r.0.result.Got?
  {
    match ScanAtom(s, 0)
    case Unmapped => (Failed(Abort), "")
    case TooLong => (Failed(Raised("rd-atom", "size")), s[MAX_LENGTH + 1..])
    case End(n) => if n == 0 then (Failed(Raised("rd-atom", "parse")), s) else (Name(s[..n]), s[n..])
  }

  datatype Number = Num(n: int) | FloatNum(f: int) | NotNumber | Bad(what: string)

  /** The two top bits of a 64-bit value differ. */
  predicate TopBitsDiffer(v: nat) {
    v / TWO62 % 2 != v / TWO63 % 2
  }

  /** parse_number */
  function ParseNumber(env: Env, s: string): Number {
    match Stoull(s, 0)
    case NoDigits => NotNumber
    case TooBig => Bad("syntax")
    case Parsed(v, used) =>
      if used == |s| then
        if TopBitsDiffer(v) then Bad("range") else Num(Wrap59(v))
      else
        match env.floats(s)
        case FloatIs(f) => FloatNum(f)
        case NotFloat => NotNumber
        case FloatRange => Bad("syntax")
  }

  /** radix_fixnum */
  function RadixFixnum(radix: nat, s: string): (r: (Result, string))
    ensures |r.1| <= |s|
    ensures r.0.Got? ==> Shorter(s, r.1)
  {
    match ReadAtom(s)
    case (Failed(e), rest) => (e, rest)
    case (Name(text), rest) =>
      match Stoull(text, radix)
      case NoDigits => (Raised("rd-rdx", "syntax"), rest)
      case TooBig => (Raised("rd-rdx", "range"), rest)
      case Parsed(v, used) =>
        if used != |text| then (Raised("rd-rdx", "syntax"), rest)
        else if TopBitsDiffer(v) then (Raised("rd-rdx", "range"), rest)
        else (Got(Fix(Wrap59(v))), rest)
  }

  ghost predicate OccursAt(s: string, pattern: string, i: nat) {
    i + |pattern| <= |s| && s[i..i + |pattern|] == pattern
  }

  /** The pattern first occurs there, or nowhere. */
  ghost predicate FirstAt(s: string, pattern: string, k: Option<nat>) {
    if k.Some? then OccursAt(s, pattern, k.value) && forall j: nat | j < k.value :: !OccursAt(s, pattern, j)
    else forall j: nat :: !OccursAt(s, pattern, j)
  }

  /** std::string::find */
  function Find(s: string, pattern: string): (k: Option<nat>)
    ensures FirstAt(s, pattern, k)
    decreases |s|
  {
    if |s| < |pattern| then None
    else if s[..|pattern|] == pattern then Some(0)
    else
      var k := Find(s[1..], pattern);
      FirstLater(s, pattern, k);
      if k.Some? then Some(k.value + 1) else None
  }

  lemma FirstLater(s: string, pattern: string, k: Option<nat>)
    requires s != "" && !OccursAt(s, pattern, 0) && FirstAt(s[1..], pattern, k)
    ensures FirstAt(s, pattern, if k.Some? then Some(k.value + 1) else None)
  {
    forall j: nat | j > 0 ensures OccursAt(s, pattern, j) <==> OccursAt(s[1..], pattern, j - 1) {
      if j + |pattern| <= |s| { SliceOfTail(s, j, j + |pattern|); }
    }
    if k.Some? { assert OccursAt(s[1..], pattern, k.value + 1 - 1); }
  }

  lemma SliceOfTail(s: string, i: nat, j: nat)
    requires 1 <= i <= j <= |s|
    ensures s[1..][i - 1..j - 1] == s[i..j]
  {
  }

  /** Symbol::ParseSymbol */
  function ParseSymbol(env: Env, s: string): Result {
    if s == "" then Raised("sy-pars", "size")
    else if s == "." then Got(Syntax('.'))
    else if s[0] == ':' then
      if |s| == 1 then Raised("sy-pars", "eof")
      else if |s| - 1 > 7 then Raised("sy-pars", "size")
      else Got(Key(s[1..]))
    else
      match Find(s, "::")
      case Some(k) => Qualified(env, s[..k], false, s[k + 2..])
      case None =>
        match Find(s, ":")
        case Some(k) => Qualified(env, s[..k], true, s[k + 1..])
        case None => Got(Bare(s))
  }

  function Qualified(env: Env, ns: string, extern: bool, name: string): Result {
    if ns in env.namespaces then Got(Sym(ns, extern, name)) else Raised("sy-ns", "ns")
  }

  /** The default branch of Env::Read: a number or a symbol. */
  function ReadToken(env: Env, s: string): (r: (Result, string))
    ensures |r.1| <= |s|
    ensures r.0.Got? ==> Shorter(s, r.1)
  {
    match ReadAtom(s)
    case (Failed(e), rest) => (e, rest)
    case (Name(text), rest) =>
      match ParseNumber(env, text)
      case Num(n) => (Got(Fix(n)), rest)
      case FloatNum(f) => (Got(Float(f)), rest)
      case Bad(what) => (Raised("rd-num", what), rest)
      case NotNumber => (ParseSymbol(env, text), rest)
  }

  /** #:name */
  function ReadUninterned(env: Env, s: string): (r: (Result, string))
    ensures |r.1| <= |s|
    ensures r.0.Got? ==> Shorter(s, r.1)
  {
    match ReadAtom(s)
    case (Failed(e), rest) => (e, rest)
    case (Name(text), rest) =>
      match ParseNumber(env, text)
      case Bad(what) => (Raised("rd-num", what), rest)
      case NotNumber =>
        (if Find(text, ":").Some? then Raised("read", "pkg") else Got(Fresh(text)), rest)
      case _ => (Raised("read", "type"), rest)
  }

  // -------------------------------------------------------------------- strings

  /** The loop of Vector::ReadString, with the characters kept so far. */
  function ScanString(s: string, kept: string): (r: (Result, string))
    requires s != ""
    ensures |r.1| < |s|
    decreases |s|
  {
    var c := s[0];
    if IsUnmappedSyntax(c) then (Abort, "")
    else if c == '"' then (Got(Str(kept)), s[1..])
    else if |kept| >= MAX_LENGTH then (Raised("vc-rdst", "size"), s[1..])
    else if c == '\\' && |s| == 1 then (Raised("vc-rdst", "eof"), "")
    else
      var used := if c == '\\' then 2 else 1;
      if |s| == used then (Raised("vc-rdst", "eof"), "")
      else ScanString(s[used..], kept + [s[used - 1]])
  }

  /** Vector::ReadString. At the end of input the end marker itself is taken for
      a character, which an assertion stops. */
  function ReadString(s: string): (r: (Result, string))
    ensures |r.1| <= |s|
    ensures r.0.Got? ==> Shorter(s, r.1)
  {
    if s == "" then (Abort, "") else ScanString(s, "")
  }

  // ------------------------------------------------------------ lists and vectors

  /** Past the end of a block comment. */
  function SkipBlock(s: string): (r: Option<string>)
    ensures r.Some? ==> |r.value| < |s|
  {
    if s == "" then None
    else if s[0] == '|' && |s| > 1 && s[1] == '#' then Some(s[2..])
    else SkipBlock(s[1..])
  }

  /** Cons::ListDot: with a single element it reads before its vector. */
  function ListDot(items: seq<Obj>): Result {
    if |items| == 0 then Got(NIL)
    else if |items| == 1 then Abort
    else Got(OnTo(items[..|items| - 1], items[|items| - 1]))
  }

  /** Vector::ListToVector */
  function ListToVector(kind: Obj, list: Obj): Result {
    var items := Elements(list);
    if kind == Key("t") then Got(VecT(items))
    else if kind == Key("fixnum") then
      if forall o | o in items :: o.Fix? then Got(VecFix(Numbers(items))) else Raised("sv-list", "type")
    else if kind == Key("byte") then
      if forall o | o in items :: o.Fix? && o.n < 256 then Got(VecByte(Bytes(Numbers(items))))
      else Raised("sv-list", "type")
    else if kind == Key("char") then
      if forall o | o in items :: o.Chr? then Got(Str(Chars(items))) else Raised("sv-list", "type")
    else if kind == Key("float") then
      if forall o | o in items :: o.Float? then Got(VecFloat(Floats(items))) else Raised("sv-list", "type")
    else Abort
  }

  function Numbers(items: seq<Obj>): seq<int>
    requires forall o | o in items :: o.Fix?
  {
    seq(|items|, i requires 0 <= i < |items| => assert items[i] in items; items[i].n)
  }

  /** static_cast to uint8_t */
  function Bytes(ns: seq<int>): seq<int> {
    seq(|ns|, i requires 0 <= i < |ns| => ns[i] % 256)
  }

  function Chars(items: seq<Obj>): string
    requires forall o | o in items :: o.Chr?
  {
    seq(|items|, i requires 0 <= i < |items| => assert items[i] in items; items[i].c)
  }

  function Floats(items: seq<Obj>): seq<int>
    requires forall o | o in items :: o.Float?
  {
    seq(|items|, i requires 0 <= i < |items| => assert items[i] in items; items[i].f)
  }

  /** Env::Read. Its contract is the reader's progress: whatever the text, an
      object costs at least one character, or there was none left. */
  function Read(env: Env, s: string): (r: (Result, string))
    ensures |r.1| <= |s|
    ensures r.0.Got? ==> Shorter(s, r.1)
    decreases |s|, 2
  {
    match SkipWhitespace(s)
    case Stopped => (Abort, "")
    case Eof => (Got(NIL), "")
    case At(t) => ReadAt(env, t)
  }

  /** Env::Read at a character that is not white space. */
  function ReadAt(env: Env, s: string): (r: (Result, string))
    requires s != ""
    ensures |r.1| <= |s|
    ensures r.0.Got? ==> |r.1| < |s|
    decreases |s|, 1
  {
    var c, t := s[0], s[1..];
    if IsUnmappedSyntax(c) then (Abort, "")
    else
      match c
      case ';' =>
        var line := FromNewline(t);
        if line == "" then (Got(NIL), "") else Read(env, line[1..])
      case '(' => ReadList(env, t)
      case '.' => (Got(Syntax('.')), t)
      case '\'' =>
        var (quoted, rest) := Read(env, t);
        (if quoted.Got? && (IsSymbol(quoted.obj) || quoted.obj.Pair?)
         then Got(OnTo([Key("quote"), quoted.obj], NIL)) else quoted, rest)
      case '"' => ReadString(t)
      case '#' => ReadSharp(env, t)
      case ')' => (Raised("read", "syntax"), t)
      case _ => ReadToken(env, s)
  }

  /** The dispatch on the character after a sharpsign. */
  function ReadSharp(env: Env, s: string): (r: (Result, string))
    ensures |r.1| <= |s|
    decreases |s|, 6
  {
    if s == "" then (Raised("read", "eof"), "")
    else
      var c, t := s[0], s[1..];
      if c == 'x' then RadixFixnum(16, t)
      else if c == 'd' then RadixFixnum(10, t)
      else if !IsSyntaxChar(c) then (Raised("read", "type"), t)
      else if IsUnmappedSyntax(c) then (Abort, "")
      else if c == '\\' then if t == "" then (Got(NIL), "") else (Got(Chr(t[0])), t[1..])
      else if c == '(' then ReadVector(env, t)
      else if c == ':' then ReadUninterned(env, t)
      else if c == '|' then
        match SkipBlock(t)
        case None => (Raised("read", "eof"), "")
        case Some(rest) => Read(env, rest)
      else (Raised("read", "type"), t)
  }

  /** Cons::Read, after the opening parenthesis. */
  function ReadList(env: Env, s: string): (r: (Result, string))
    ensures |r.1| <= |s|
    decreases |s|, 4
  {
    match SkipWhitespace(s)
    case Stopped => (Abort, "")
    case Eof => (Raised("co-read", "eof"), "")
    case At(t) => if t[0] == ')' then (Got(NIL), t[1..]) else ReadElements(env, t, [])
  }

  /** The loop of Cons::Read, with the elements read so far. */
  function ReadElements(env: Env, s: string, items: seq<Obj>): (r: (Result, string))
    ensures |r.1| <= |s|
    decreases |s|, 3
  {
    var (first, t) := Read(env, s);
    if !first.Got? then (first, t)
    else if first.obj == Syntax('.') then
      var (last, u) := Read(env, t);
      if !last.Got? then (last, u)
      else
        match SkipWhitespace(u)
        case Stopped => (Abort, "")
        case Eof => (Raised("co-read", "eof"), "")
        case At(w) =>
          if w[0] == ')' then (ListDot(items + [last.obj]), w[1..]) else (Raised("co-read", "syntax"), w[1..])
    else
      match SkipWhitespace(t)
      case Stopped => (Abort, "")
      case Eof => (Raised("co-read", "eof"), "")
      case At(w) =>
        if w[0] == ')' then (Got(OnTo(items + [first.obj], NIL)), w[1..])
        else ReadElements(env, w, items + [first.obj])
  }

  /** Vector::Read, after the opening parenthesis. */
  function ReadVector(env: Env, s: string): (r: (Result, string))
    ensures |r.1| <= |s|
    decreases |s|, 5
  {
    var (kind, t) := Read(env, s);
    if !kind.Got? then (kind, t)
    else if !kind.obj.Key? then (Raised("vc-read", "type"), t)
    else
      var (list, u) := ReadList(env, t);
      (if list.Got? then ListToVector(kind.obj, list.obj) else list, u)
  }
}
