// The readtable (core/readtable.cc) and the objects that text denotes.

module ReadTable {
  import opened Options

  datatype SyntaxType = Constituent | Whitespace | Macro | TerminatingMacro | Escape | MultipleEscape

  /** MapSyntaxType: None is a character the table does not map, on which the
      program stops. 'U' is one. */
  function MapSyntaxType(c: char): Option<SyntaxType> {
    if '0' <= c <= '9' || 'a' <= c <= 'z' || ('A' <= c <= 'Z' && c != 'U') then Some(Constituent)
    else match c
      case '\U{0008}' | ':' | '<' | '>' | '=' | '?' | '!' | '@' | '[' | ']' | '$' | '*' | '{' | '}'
         | '+' | '-' | '/' | '~' | '.' | '%' | '&' | '^' | '_' => Some(Constituent)
      case '\t' | '\n' | '\r' | '\U{000C}' | ' ' => Some(Whitespace)
      case ';' | '"' | '\'' | '(' | ')' | '`' | ',' => Some(TerminatingMacro)
      case '#' => Some(Macro)
      case '\\' => Some(Escape)
      case '|' => Some(MultipleEscape)
      case _ => None
  }

  /** IsCharSyntaxCharAny */
  predicate IsSyntaxChar(c: char) {
    c == '"' || c == '#' || c == '`' || c == '(' || c == ')' || c == ',' || c == '.' ||
    c == ':' || c == ';' || c == '\'' || c == '\\' || c == '|' || c == '}'
  }

  /** A syntax character that MapSyntaxChar has no entry for: the program stops. */
  predicate IsUnmappedSyntax(c: char) { c == '}' }

  predicate IsConstituent(c: char) { MapSyntaxType(c) == Some(Constituent) }

  predicate IsWhitespace(c: char) { MapSyntaxType(c) == Some(Whitespace) }

  // ------------------------------------------------------------------- objects

  /** What the reader returns and the printer takes. Sym is a symbol of a named
      namespace, Bare a symbol interned without one, Fresh an uninterned one;
      Syntax is the dot; floats are opaque. */
  datatype Obj =
    | Fix(n: int)
    | Key(name: string)
    | Sym(ns: string, extern: bool, name: string)
    | Bare(name: string)
    | Fresh(name: string)
    | Chr(c: char)
    | Syntax(c: char)
    | Str(text: string)
    | Pair(car: Obj, cdr: Obj)
    | VecT(items: seq<Obj>)
    | VecFix(vals: seq<int>)
    | VecByte(vals: seq<int>)
    | Float(f: int)
    | VecFloat(fs: seq<int>)

  const NIL := Key("nil")

  predicate IsSymbol(o: Obj) { o.Key? || o.Sym? || o.Bare? || o.Fresh? }

  /** items consed onto a tail. */
  function OnTo(items: seq<Obj>, tail: Obj): Obj {
    if items == [] then tail else Pair(items[0], OnTo(items[1..], tail))
  }

  /** What the list iterator yields. */
  function Elements(o: Obj): seq<Obj> {
    if o.Pair? then [o.car] + Elements(o.cdr) else []
  }

  lemma {:induction false} OnToPush(items: seq<Obj>, o: Obj, tail: Obj)
    ensures OnTo(items + [o], tail) == OnTo(items, Pair(o, tail))
  {
    if items == [] {
      assert (items + [o])[1..] == [];
    } else {
      assert (items + [o])[1..] == items[1..] + [o];
      OnToPush(items[1..], o, tail);
    }
  }

  lemma {:induction false} ElementsOfList(items: seq<Obj>)
    ensures Elements(OnTo(items, NIL)) == items
  {
    if items != [] { ElementsOfList(items[1..]); }
  }

  /** The text functions libmu takes from elsewhere: which namespaces exist and
      the names listed in each, and how floats are read and written. */
  datatype FloatParse = FloatIs(f: int) | NotFloat | FloatRange

  datatype Names = Names(externs: set<string>, interns: set<string>)

  datatype Env = Env(namespaces: map<string, Names>, floats: string -> FloatParse, floatText: int -> string)

  /** Whether Namespace::Map finds a symbol of this name in this scope. */
  predicate Maps(env: Env, ns: string, extern: bool, name: string) {
    ns in env.namespaces && name in if extern then env.namespaces[ns].externs else env.namespaces[ns].interns
  }
}
