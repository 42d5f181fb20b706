// Values of the mu language as the compiler and the evaluator see them, and the
// list operations both use.

module Lisp {

  /** A datum. Functions are references into the function table; an exception
      records where it was raised, what kind it is and the offending object;
      characters, strings, floats and the rest are opaque constants. */
  datatype Val =
    | Fix(n: int)
    | Key(name: string)
    | Sym(id: nat)
    | Cons(car: Val, cdr: Val)
    | Func(fid: nat)
    | Exn(where: string, what: string, source: Val)
    | Const(c: int)

  /** The empty list is the keyword :nil. */
  const NIL := Key("nil")

  const QUOTE := Key("quote")
  const IF := Key("if")
  const LAMBDA := Key("lambda")

  /** The symbol env:lex-ref. */
  const LEX_REF := Sym(0)

  predicate IsList(v: Val) { v == NIL || v.Cons? }

  predicate IsSymbol(v: Val) { v.Sym? || v.Key? }

  /** Number of conses. */
  function Size(v: Val): nat {
    match v
    case Cons(a, d) => 1 + Size(a) + Size(d)
    case _ => 0
  }

  /** What the list iterator yields: every car, stopping at the first cdr that is
      not a cons, so a dotted tail is dropped. */
  function Elements(v: Val): seq<Val> {
    if v.Cons? then [v.car] + Elements(v.cdr) else []
  }

  /** Ends in :nil. */
  predicate Proper(v: Val) {
    v == NIL || (v.Cons? && Proper(v.cdr))
  }

  function ListOf(vs: seq<Val>): Val {
    if vs == [] then NIL else Cons(vs[0], ListOf(vs[1..]))
  }

  /** Cons::Nth */
  function Nth(v: Val, k: nat): (e: Val)
    ensures v.Cons? ==> Size(e) < Size(v)
  {
    if !v.Cons? then NIL
    else if k == 0 then v.car
    else Nth(v.cdr, k - 1)
  }

  /** The element at that position, or :nil past the end. */
  lemma {:induction false} NthIsElement(v: Val, k: nat)
    ensures Nth(v, k) == if k < |Elements(v)| then Elements(v)[k] else NIL
  {
    if v.Cons? && k > 0 { NthIsElement(v.cdr, k - 1); }
  }

  lemma {:induction false} ElementsOfList(vs: seq<Val>)
    ensures Elements(ListOf(vs)) == vs && Proper(ListOf(vs))
  {
    if vs != [] { ElementsOfList(vs[1..]); }
  }

  /** Position of the first occurrence. */
  function IndexOf(vs: seq<Val>, v: Val): (k: nat)
    requires v in vs
    ensures k < |vs| && vs[k] == v && v !in vs[..k]
  {
    if vs[0] == v then 0 else 1 + IndexOf(vs[1..], v)
  }
}
