// The printer (core/print.cc and the Write functions of each type): the text of
// an object, with or without escapes.

module Printing {
  import opened ReadTable
  import opened Numerals

  /** What Symbol::Write puts after the namespace's name. It asks for an extern
      symbol of that name first, whichever symbol it writes. No text: an assertion
      stops the program. */
  function Colons(env: Env, ns: string, name: string): string {
    if Maps(env, ns, true, name) then ":" else if Maps(env, ns, false, name) then "::" else ""
  }

  /** Env::Write. A Syntax object has no text: Char::Write asserts against it. */
  function Print(env: Env, o: Obj, esc: bool): string
    decreases o, 2
  {
    match o
    case Fix(n) => IntText(n)
    case Key(name) => ":" + name
    case Sym(ns, _, name) => (if esc then ns + Colons(env, ns, name) else "") + name
    case Bare(name) => (if esc then "#:" else "") + name
    case Fresh(name) => (if esc then "#:" else "") + name
    case Chr(c) => (if esc then "#\\" else "") + [c]
    case Syntax(_) => ""
    case Str(text) => if esc then "\"" + text + "\"" else text
    case Pair(_, _) => "(" + PrintTail(env, o, esc)
    case VecT(_) => "#(:t" + PrintItems(env, o, 0, esc)
    case VecFix(ns) => "#(:fixnum" + PrintNumbers(ns)
    case VecByte(ns) => "#(:byte" + PrintNumbers(ns)
    case Float(f) => env.floatText(f)
    case VecFloat(fs) => "#(:float" + PrintFloats(env, fs)
  }

  /** The elements of a list, its dotted tail and the closing parenthesis. */
  function PrintTail(env: Env, o: Obj, esc: bool): string
    requires o.Pair?
    decreases o, 1
  {
    Print(env, o.car, esc) +
    if o.cdr.Pair? then " " + PrintTail(env, o.cdr, esc)
    else if o.cdr == NIL then ")"
    else " . " + Print(env, o.cdr, esc) + ")"
  }

  function PrintItems(env: Env, o: Obj, i: nat, esc: bool): string
    requires o.VecT? && i <= |o.items|
    decreases o, 1, |o.items| - i
  {
    if i == |o.items| then ")" else " " + Print(env, o.items[i], esc) + PrintItems(env, o, i + 1, esc)
  }

  function PrintNumbers(ns: seq<int>): string {
    if ns == [] then ")" else " " + IntText(ns[0]) + PrintNumbers(ns[1..])
  }

  function PrintFloats(env: Env, fs: seq<int>): string {
    if fs == [] then ")" else " " + env.floatText(fs[0]) + PrintFloats(env, fs[1..])
  }
}
