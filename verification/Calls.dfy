// What the natives that call back pass on: mu:funcall its list as arguments, and
// mu:with-exception the object that was raised.

module Calls {
  import opened Lisp
  import opened Evaluator

  function Quoted(v: Val): Val { Cons(QUOTE, Cons(v, NIL)) }

  function AllQuoted(vs: seq<Val>): seq<Val> {
    seq(|vs|, i requires 0 <= i < |vs| => Quoted(vs[i]))
  }

  /** The form that calls function f on these objects. */
  function CallForm(f: nat, vs: seq<Val>): Val {
    Cons(Func(f), ListOf(AllQuoted(vs)))
  }

  lemma QuotedEval(n: nat, g: Globals, c: Context, v: Val)
    ensures Eval(n, g, c, Quoted(v)) == (Value(v), c)
  {
    assert Nth(Quoted(v), 1) == Nth(Cons(v, NIL), 0) == v;
  }

  lemma {:induction false} QuotedArgs(n: nat, g: Globals, c: Context, vs: seq<Val>)
    ensures Args(n, g, c, ListOf(AllQuoted(vs))) == (Value(NIL), vs, c)
    decreases |vs|
  {
    hide Eval;
    if vs != [] {
      QuotedEval(n, g, c, vs[0]);
      assert AllQuoted(vs)[1..] == AllQuoted(vs[1..]);
      QuotedArgs(n, g, c, vs[1..]);
      assert [vs[0]] + vs[1..] == vs;
    }
  }

  /** Evaluating a call of quoted objects is calling the function on them. */
  lemma CallFormCalls(n: nat, g: Globals, c: Context, f: nat, vs: seq<Val>)
    ensures Eval(n, g, c, CallForm(f, vs)) == Funcall(n, g, c, f, vs)
  {
    hide Funcall, Args;
    var args := ListOf(AllQuoted(vs));
    ElementsOfList(AllQuoted(vs));
    QuotedArgs(n, g, c, vs);
    assert IsList(args) && Proper(args);
    assert Apply(n, g, c, Func(f), args) == Funcall(n, g, c, f, vs);
  }

  /** A function called on another number of objects than it has parameters, native
      or lambda, raises, naming both, and pushes nothing. */
  lemma CallNeedsItsArguments(n: nat, g: Globals, c: Context, f: nat, vs: seq<Val>)
    requires f < |g.funs| && |vs| != g.funs[f].arity
    ensures Eval(n, g, c, CallForm(f, vs)) ==
            (Raise(Exn("funcall", "arity",
                       Cons(Key("nreq"), Cons(Fix(g.funs[f].arity), Cons(Key("from"), Cons(ListOf(vs), NIL)))))), c)
  {
    hide Eval;
    CallFormCalls(n, g, c, f, vs);
    var parts := [Key("nreq"), Fix(g.funs[f].arity), Key("from"), ListOf(vs)];
    assert parts[1..][1..][1..][1..] == [] && ListOf([]) == NIL;
    assert ListOf(parts[1..][1..][1..]) == Cons(ListOf(vs), NIL);
    assert ListOf(parts[1..][1..]) == Cons(Key("from"), ListOf(parts[1..][1..][1..]));
    assert ListOf(parts[1..]) == Cons(Fix(g.funs[f].arity), ListOf(parts[1..][1..]));
  }

  /** mu:funcall of a function and a list of objects does what the call of the
      function on those objects does, one level deeper. */
  lemma FuncallIsTheCall(n: nat, g: Globals, c: Context, f: nat, vs: seq<Val>)
    ensures Native(n + 1, g, c, Sym(FUNCALL), [Func(f), ListOf(vs)]) == Eval(n, g, c, CallForm(f, vs))
  {
    hide Funcall, Eval;
    ElementsOfList(vs);
    CallFormCalls(n, g, c, f, vs);
    assert IsList(ListOf(vs));
  }

  /** A dotted tail is dropped, and anything but a list is refused. */
  lemma FuncallOfOtherLists(n: nat, g: Globals, c: Context, f: nat, list: Val)
    ensures Native(n + 1, g, c, Sym(FUNCALL), [Func(f), list]) ==
            if IsList(list) then Eval(n, g, c, CallForm(f, Elements(list)))
            else (Raise(Exn("funcall", "type", list)), c)
  {
    hide Funcall, Eval;
    CallFormCalls(n, g, c, f, Elements(list));
  }

  /** Function t is (:lambda () (raise 'v)), calling raise through function r. */
  predicate Raises(g: Globals, t: nat, r: nat, v: Val) {
    && t < |g.funs| && r < |g.funs|
    && g.funs[t].arity == 0 && g.funs[t].form == Cons(NIL, Cons(CallForm(r, [v]), NIL))
    && g.funs[r].arity == 1 && g.funs[r].form == Sym(RAISE)
  }

  /** What raising an object delivers: it, if it is an exception, or else a type
      error about it. */
  function Delivered(v: Val): Val {
    if v.Exn? then v else Exn("ex-rais", "type", v)
  }

  lemma RaiseRaises(n: nat, g: Globals, c: Context, t: nat, r: nat, v: Val)
    requires Raises(g, t, r, v) && n > 0
    ensures var (o, c') := Funcall(n, g, c, t, []);
            && o == Raise(Delivered(v)) && c'.lexical == c.lexical && c'.caught == c.caught
            && c'.dynamic == c.dynamic + [Frame(t, []), Frame(r, [v])]
            && c'.maxDepth == if |c.dynamic| + 2 > c.maxDepth then |c.dynamic| + 2 else c.maxDepth
  {
    hide Args, CallForm;
    var c1 := PushDynamic(c, Frame(t, []));
    var body := Cons(CallForm(r, [v]), NIL);
    CallFormCalls(n - 1, g, c1, r, [v]);
    var c2 := PushDynamic(c1, Frame(r, [v]));
    assert Native(n - 1, g, c2, Sym(RAISE), [v]) == (Raise(Delivered(v)), c2);
    assert Funcall(n - 1, g, c1, r, [v]) == (Raise(Delivered(v)), c2);
    assert Body(n - 1, g, c1, body, body) == (Raise(Delivered(v)), c2);
    assert c2.dynamic == c.dynamic + [Frame(t, []), Frame(r, [v])];
  }

  /** The context in which the handler runs: the caller's, but for the count of
      what was caught and the recorded depth. */
  function AfterCatching(c: Context): Context {
    c.(caught := c.caught + 1,
       maxDepth := if |c.dynamic| + 2 > c.maxDepth then |c.dynamic| + 2 else c.maxDepth)
  }

  /** Whatever object the thunk raises, the handler is called on what raising it
      delivers, and nothing else, in the caller's context. */
  lemma HandlerGetsTheObject(n: nat, g: Globals, c: Context, h: nat, t: nat, r: nat, v: Val)
    requires Raises(g, t, r, v) && n > 0
    ensures Native(n + 1, g, c, Sym(WITH_EX), [Func(h), Func(t)]) ==
            Eval(n, g, AfterCatching(c), CallForm(h, [Delivered(v)]))
  {
    hide Funcall, Eval, Raises;
    RaiseRaises(n, g, c, t, r, v);
    var c1 := Funcall(n, g, c, t, []).1;
    assert Unwind(c1, |c.dynamic|) == AfterCatching(c) by { assert c1.dynamic[..|c.dynamic|] == c.dynamic; }
    CallFormCalls(n, g, AfterCatching(c), h, [Delivered(v)]);
  }

  /** A thunk that returns a value is all there is: the handler is not called. */
  lemma NoHandlerWithoutException(n: nat, g: Globals, c: Context, h: nat, t: nat)
    requires Eval(n, g, c, CallForm(t, [])).0.Value?
    ensures Native(n + 1, g, c, Sym(WITH_EX), [Func(h), Func(t)]) == Eval(n, g, c, CallForm(t, []))
  {
    hide Funcall, Eval;
    CallFormCalls(n, g, c, t, []);
  }

  /** Calls of the natives that catch and that call back need functions: what is
      raised is about the first argument refused, the thunk before the handler, and
      nothing has been run. */
  lemma WrongArgumentsAreNamed(n: nat, g: Globals, c: Context, w: nat, u: nat, a: Val, b: Val)
    requires w < |g.funs| && g.funs[w].arity == 2 && g.funs[w].form == Sym(WITH_EX)
    requires u < |g.funs| && g.funs[u].arity == 2 && g.funs[u].form == Sym(FUNCALL)
    ensures !(a.Func? && b.Func?) ==>
              Eval(n, g, c, CallForm(w, [a, b])) ==
              (Raise(Exn("with-ex", "type", if b.Func? then a else b)), PushDynamic(c, Frame(w, [a, b])))
    ensures !(a.Func? && IsList(b)) ==>
              Eval(n, g, c, CallForm(u, [a, b])) ==
              (Raise(Exn("funcall", "type", if a.Func? then b else a)), PushDynamic(c, Frame(u, [a, b])))
  {
    hide Eval, CallForm;
    CallFormCalls(n, g, c, w, [a, b]);
    CallFormCalls(n, g, c, u, [a, b]);
  }
}
