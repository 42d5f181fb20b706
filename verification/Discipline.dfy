// Stack discipline over whole runs: what every evaluation leaves of the control
// stack and of the lexical stacks, whatever it calls, raises or catches.

module Discipline {
  import opened Lisp
  import opened Evaluator

  /** No function is the native that catches. */
  predicate NeverCatches(g: Globals) {
    forall f | 0 <= f < |g.funs| :: g.funs[f].form != Sym(WITH_EX)
  }

  /** The entry stacks are intact below whatever the run left on top, and what it
      left on the lexical stacks leads nowhere; a run that returns a value leaves
      the control stack as it was; one that caught no exception also leaves every
      lexical stack as it was, and where nothing can catch nothing is caught;
      maxDepth is never passed. */
  ghost predicate Disciplined(g: Globals, c: Context, o: Outcome, c': Context) {
    && c.dynamic <= c'.dynamic
    && (o.Value? ==> c'.dynamic == c.dynamic)
    && (forall id {:trigger Stack(c', id)} :: Stack(c, id) <= Stack(c', id))
    && c.caught <= c'.caught && (NeverCatches(g) ==> c'.caught == c.caught)
    && (o.Value? && c'.caught == c.caught ==>
          forall id {:trigger Stack(c', id)} :: Stack(c', id) == Stack(c, id))
    && (forall id, k {:trigger Stack(c', id)[k]} ::
          |Stack(c, id)| <= k < |Stack(c', id)| ==> Stack(c', id)[k].Gone?)
    && c.maxDepth <= c'.maxDepth
    && (|c.dynamic| <= c.maxDepth ==> |c'.dynamic| <= c'.maxDepth)
  }

  lemma Same(g: Globals, c: Context, o: Outcome)
    ensures Disciplined(g, c, o, c)
  {
  }

  lemma AndThen(g: Globals, c: Context, v: Val, c1: Context, o: Outcome, c2: Context)
    requires Disciplined(g, c, Value(v), c1) && Disciplined(g, c1, o, c2)
    ensures Disciplined(g, c, o, c2)
  {
    forall id, k | |Stack(c, id)| <= k < |Stack(c2, id)| ensures Stack(c2, id)[k].Gone? {
      assert Stack(c1, id) <= Stack(c2, id);
      if k < |Stack(c1, id)| { assert Stack(c2, id)[k] == Stack(c1, id)[k]; }
    }
    forall id ensures Stack(c, id) <= Stack(c2, id) {
      assert Stack(c, id) <= Stack(c1, id) && Stack(c1, id) <= Stack(c2, id);
    }
    if o.Value? && c2.caught == c.caught {
      forall id ensures Stack(c2, id) == Stack(c, id) {
        assert Stack(c1, id) == Stack(c, id);
      }
    }
  }

  /** Catching: the handler runs on the control stack cut back to the mark. */
  lemma AfterCatch(g: Globals, c: Context, e: Val, c1: Context, o: Outcome, c2: Context)
    requires Disciplined(g, c, Raise(e), c1) && !NeverCatches(g)
    requires Disciplined(g, Unwind(c1, |c.dynamic|), o, c2)
    ensures Disciplined(g, c, o, c2)
  {
    var u := Unwind(c1, |c.dynamic|);
    assert u.dynamic == c.dynamic;
    forall id, k | |Stack(c, id)| <= k < |Stack(c2, id)| ensures Stack(c2, id)[k].Gone? {
      assert Stack(u, id) == Stack(c1, id) && Stack(u, id) <= Stack(c2, id);
      if k < |Stack(c1, id)| { assert Stack(c2, id)[k] == Stack(c1, id)[k]; }
    }
    forall id ensures Stack(c, id) <= Stack(c2, id) {
      assert Stack(c, id) <= Stack(c1, id);
      assert Stack(u, id) == Stack(c1, id);
      assert Stack(u, id) <= Stack(c2, id);
    }
  }

  /** One lexical stack around a call: pushed, left over by the body, and popped. */
  lemma StackAround(c: Context, fn: FuncObj, fr: Frame, o: Outcome, c2: Context, id: Val)
    requires Stack(Enter(c, fn, fr), id) <= Stack(c2, id)
    requires forall k | |Stack(Enter(c, fn, fr), id)| <= k < |Stack(c2, id)| :: Stack(c2, id)[k].Gone?
    ensures var s := Stack(Exit(c2, fn, o, |Stack(c, fn.frameId)|), id);
            && Stack(c, id) <= s && (forall k | |Stack(c, id)| <= k < |s| :: s[k].Gone?)
            && (o.Value? && Stack(c2, id) == Stack(Enter(c, fn, fr), id) ==> s == Stack(c, id))
  {
    var before, after := Stack(c, id), Stack(c2, id);
    if fn.arity > 0 && id == fn.frameId {
      assert Stack(Enter(c, fn, fr), id) == before + [fr];
      assert |after| > |before| && after[..|before|] == before;
    } else {
      assert Stack(Enter(c, fn, fr), id) == before;
    }
  }

  /** A lambda call: push, run the body, and on a value pop again. */
  lemma AroundBody(g: Globals, c: Context, fn: FuncObj, fr: Frame, o: Outcome, c2: Context)
    requires Disciplined(g, Enter(c, fn, fr), o, c2)
    ensures Disciplined(g, c, o, Exit(c2, fn, o, |Stack(c, fn.frameId)|))
  {
    hide Stack;
    var c1 := Enter(c, fn, fr);
    var end := Exit(c2, fn, o, |Stack(c, fn.frameId)|);
    forall id
      ensures Stack(c, id) <= Stack(end, id)
      ensures forall k | |Stack(c, id)| <= k < |Stack(end, id)| :: Stack(end, id)[k].Gone?
      ensures o.Value? && c2.caught == c1.caught ==> Stack(end, id) == Stack(c, id)
    {
      assert Stack(c1, id) <= Stack(c2, id);
      StackAround(c, fn, fr, o, c2, id);
    }
    SameControl(c, fn, fr, o, c2);
  }

  /** The rest of the context around a call. */
  lemma SameControl(c: Context, fn: FuncObj, fr: Frame, o: Outcome, c2: Context)
    requires Enter(c, fn, fr).dynamic <= c2.dynamic
    requires o.Value? ==> c2.dynamic == Enter(c, fn, fr).dynamic
    ensures var c1 := Enter(c, fn, fr); var end := Exit(c2, fn, o, |Stack(c, fn.frameId)|);
            && c.dynamic <= end.dynamic && (o.Value? ==> end.dynamic == c.dynamic)
            && c1.caught == c.caught && end.caught == c2.caught && end.maxDepth == c2.maxDepth
            && c.maxDepth <= c1.maxDepth && |c1.dynamic| <= c1.maxDepth && |end.dynamic| <= |c2.dynamic|
  {
    assert Enter(c, fn, fr).dynamic == c.dynamic + [fr];
  }

  lemma AroundNative(g: Globals, c: Context, fr: Frame, o: Outcome, c2: Context)
    requires Disciplined(g, PushDynamic(c, fr), o, c2)
    ensures Disciplined(g, c, o, if o.Value? then PopDynamic(c2) else c2)
  {
    var c1 := PushDynamic(c, fr);
    var end := if o.Value? then PopDynamic(c2) else c2;
    assert c1.dynamic == c.dynamic + [fr];
    forall id ensures Stack(c, id) <= Stack(end, id) {
      assert Stack(c1, id) <= Stack(c2, id) && Stack(end, id) == Stack(c2, id);
    }
    forall id, k | |Stack(c, id)| <= k < |Stack(end, id)| ensures Stack(end, id)[k].Gone? {
      assert Stack(c1, id) == Stack(c, id) && Stack(end, id) == Stack(c2, id);
      assert Stack(c2, id)[k].Gone?;
    }
    if o.Value? && end.caught == c.caught {
      forall id ensures Stack(end, id) == Stack(c, id) {
        assert Stack(c2, id) == Stack(c1, id);
      }
    }
  }

  lemma {:induction false} FuncallIsDisciplined(n: nat, g: Globals, c: Context, f: nat, args: seq<Val>)
    ensures Disciplined(g, c, Funcall(n, g, c, f, args).0, Funcall(n, g, c, f, args).1)
    decreases n, 1, 0
  {
    hide Disciplined, Native, Body;
    Same(g, c, Funcall(n, g, c, f, args).0);
    if f < |g.funs| && g.funs[f].arity == |args| {
      var fn := g.funs[f];
      var fr := Frame(f, args);
      if IsSymbol(fn.form) {
        NativeIsDisciplined(n, g, PushDynamic(c, fr), fn.form, args);
        var (o, c1) := Native(n, g, PushDynamic(c, fr), fn.form, args);
        AroundNative(g, c, fr, o, c1);
      } else if fn.form.Cons? && n > 0 {
        var c1 := Enter(c, fn, fr);
        if IsList(fn.form.cdr) {
          BodyIsDisciplined(n - 1, g, c1, fn.form.cdr, fn.form.cdr);
          var (o, c2) := Body(n - 1, g, c1, fn.form.cdr, fn.form.cdr);
          AroundBody(g, c, fn, fr, o, c2);
        } else {
          Same(g, c1, Abort);
          AroundBody(g, c, fn, fr, Abort, c1);
        }
      }
    }
  }

  lemma {:induction false} NativeIsDisciplined(n: nat, g: Globals, c: Context, name: Val, args: seq<Val>)
    requires NeverCatches(g) ==> name != Sym(WITH_EX)
    ensures Disciplined(g, c, Native(n, g, c, name, args).0, Native(n, g, c, name, args).1)
    decreases n, 0, 0
  {
    hide Disciplined, Funcall, Unwind, FrameRef;
    Same(g, c, Native(n, g, c, name, args).0);
    if name != LEX_REF && name.Sym? && n > 0 && |args| == 2 {
      if name.id == WITH_EX {
        if args[1].Func? && args[0].Func? {
          FuncallIsDisciplined(n - 1, g, c, args[1].fid, []);
          var (o, c1) := Funcall(n - 1, g, c, args[1].fid, []);
          if o.Raise? {
            FuncallIsDisciplined(n - 1, g, Unwind(c1, |c.dynamic|), args[0].fid, [o.exn]);
            var (o2, c2) := Funcall(n - 1, g, Unwind(c1, |c.dynamic|), args[0].fid, [o.exn]);
            AfterCatch(g, c, o.exn, c1, o2, c2);
          }
        }
      } else if name.id == FUNCALL {
        if args[0].Func? && IsList(args[1]) {
          FuncallIsDisciplined(n - 1, g, c, args[0].fid, Elements(args[1]));
        }
      }
    }
  }

  lemma {:induction false} BodyIsDisciplined(n: nat, g: Globals, c: Context, last: Val, forms: Val)
    ensures Disciplined(g, c, Body(n, g, c, last, forms).0, Body(n, g, c, last, forms).1)
    decreases n, 2, Size(forms)
  {
    hide Disciplined, Eval;
    Same(g, c, Value(last));
    if forms.Cons? {
      EvalIsDisciplined(n, g, c, forms.car);
      var (o, c1) := Eval(n, g, c, forms.car);
      if o.Value? {
        BodyIsDisciplined(n, g, c1, o.v, forms.cdr);
        var (o2, c2) := Body(n, g, c1, o.v, forms.cdr);
        AndThen(g, c, o.v, c1, o2, c2);
      }
    }
  }

  lemma {:induction false} ArgsAreDisciplined(n: nat, g: Globals, c: Context, forms: Val)
    ensures Disciplined(g, c, Args(n, g, c, forms).0, Args(n, g, c, forms).2)
    decreases n, 2, Size(forms), 0
  {
    hide Disciplined, Eval;
    Same(g, c, Value(NIL));
    if forms.Cons? {
      EvalIsDisciplined(n, g, c, forms.car);
      var (o, c1) := Eval(n, g, c, forms.car);
      if o.Value? {
        ArgsAreDisciplined(n, g, c1, forms.cdr);
        var (o2, _, c2) := Args(n, g, c1, forms.cdr);
        AndThen(g, c, o.v, c1, o2, c2);
      }
    }
  }

  lemma {:induction false} ApplyIsDisciplined(n: nat, g: Globals, c: Context, head: Val, args: Val)
    ensures Disciplined(g, c, Apply(n, g, c, head, args).0, Apply(n, g, c, head, args).1)
    decreases n, 2, Size(args), 1
  {
    hide Disciplined, Args, Funcall;
    Same(g, c, Apply(n, g, c, head, args).0);
    if head.Func? && IsList(args) && Proper(args) {
      ArgsAreDisciplined(n, g, c, args);
      var (o, vs, c1) := Args(n, g, c, args);
      if o.Value? {
        FuncallIsDisciplined(n, g, c1, head.fid, vs);
        var (o2, c2) := Funcall(n, g, c1, head.fid, vs);
        AndThen(g, c, o.v, c1, o2, c2);
      }
    }
  }

  /** Every evaluation, of any form in any context, keeps the stacks disciplined. */
  lemma {:induction false} EvalIsDisciplined(n: nat, g: Globals, c: Context, form: Val)
    ensures Disciplined(g, c, Eval(n, g, c, form).0, Eval(n, g, c, form).1)
    decreases n, 2, Size(form)
  {
    hide Disciplined, Apply, Funcall;
    Same(g, c, Eval(n, g, c, form).0);
    if form.Cons? && form.car != QUOTE {
      if form.car == IF {
        EvalIsDisciplined(n, g, c, Nth(form, 1));
        var (o, c1) := Eval(n, g, c, Nth(form, 1));
        if o.Value? {
          var branch := if o.v == NIL then Nth(form, 3) else Nth(form, 2);
          if branch.Func? {
            FuncallIsDisciplined(n, g, c1, branch.fid, []);
            var (o2, c2) := Funcall(n, g, c1, branch.fid, []);
            AndThen(g, c, o.v, c1, o2, c2);
          } else {
            Same(g, c1, Abort);
            AndThen(g, c, o.v, c1, Abort, c1);
          }
        }
      } else if IsSymbol(form.car) {
        var o := SymbolValue(g, form.car);
        if o.Value? {
          ApplyIsDisciplined(n, g, c, o.v, form.cdr);
        }
      } else {
        EvalIsDisciplined(n, g, c, form.car);
        var (o, c1) := Eval(n, g, c, form.car);
        if o.Value? {
          ApplyIsDisciplined(n, g, c1, o.v, form.cdr);
          var (o2, c2) := Apply(n, g, c1, o.v, form.cdr);
          AndThen(g, c, o.v, c1, o2, c2);
        }
      }
    }
  }

  /** Where no function is the native that catches, every evaluation that returns
      leaves every stack as it was. */
  lemma WithoutCatchingStacksAreRestored(n: nat, g: Globals, c: Context, form: Val)
    requires NeverCatches(g) && Eval(n, g, c, form).0.Value?
    ensures Eval(n, g, c, form).1.dynamic == c.dynamic
    ensures forall id :: Stack(Eval(n, g, c, form).1, id) == Stack(c, id)
  {
    hide Eval, NeverCatches;
    EvalIsDisciplined(n, g, c, form);
  }

  // ------------------------------------------------- what catching leaves behind

  /** A handler of one parameter, a thunk that calls a one-parameter lambda whose
      body raises, and with-ex itself. */
  function LeakGlobals(): Globals {
    Globals(
      [FuncObj(2, Sym(WITH_EX), Fix(0)),
       FuncObj(1, Cons(ListOf([Sym(7)]), ListOf([Fix(1)])), Key("1")),
       FuncObj(0, Cons(NIL, ListOf([ListOf([Func(3), Fix(5)])])), Key("2")),
       FuncObj(1, Cons(ListOf([Sym(8)]), ListOf([Sym(9)])), Key("3"))],
      map[], (id, args) => Abort)
  }

  /** The call of function 3 raises, and what it pushed leads nowhere. */
  lemma RaiserRaises(c: Context)
    requires forall id :: Stack(c, id) == []
    ensures var (o, c') := Funcall(7, LeakGlobals(), c, 3, [Fix(5)]);
            && o == Raise(Exn("eval", "unbound", Sym(9)))
            && (forall id :: Stack(c', id) == if id == Key("3") then [Gone] else [])
            && c'.dynamic == c.dynamic + [Frame(3, [Fix(5)])] && c'.caught == c.caught
  {
    var g := LeakGlobals();
    var e := Exn("eval", "unbound", Sym(9));
    var fr := Frame(3, [Fix(5)]);
    assert Stack(c, Key("3")) == [];
    var entered := Enter(c, g.funs[3], fr);
    var body := Cons(Sym(9), NIL);
    assert ListOf([Sym(9)]) == body && g.funs[3].form.cdr == body;
    assert Body(6, g, entered, body, body) == (Raise(e), entered);
    assert Stack(entered, Key("3")) == [] + [fr] == [fr];
    assert [fr][0 := Gone] == [Gone];
    var end := Exit(entered, g.funs[3], Raise(e), 0);
    assert Funcall(7, g, c, 3, [Fix(5)]) == (Raise(e), end);
    forall id ensures Stack(end, id) == if id == Key("3") then [Gone] else [] {
      assert Stack(c, id) == [];
    }
  }

  /** So does the thunk that makes it. */
  lemma ThunkRaises(c: Context)
    requires forall id :: Stack(c, id) == []
    ensures var (o, c') := Funcall(8, LeakGlobals(), c, 2, []);
            && o == Raise(Exn("eval", "unbound", Sym(9)))
            && (forall id :: Stack(c', id) == if id == Key("3") then [Gone] else [])
            && c.dynamic <= c'.dynamic && c'.caught == c.caught
  {
    hide Funcall;
    var g := LeakGlobals();
    var c1 := Enter(c, g.funs[2], Frame(2, []));
    var call := Cons(Func(3), Cons(Fix(5), NIL));
    var body := Cons(call, NIL);
    assert [Func(3), Fix(5)][1..] == [Fix(5)] && [Fix(5)][1..] == [];
    assert ListOf([Fix(5)]) == Cons(Fix(5), NIL) && ListOf([Func(3), Fix(5)]) == call;
    assert ListOf([call]) == body && g.funs[2].form.cdr == body;
    assert forall id :: Stack(c1, id) == Stack(c, id);
    RaiserRaises(c1);
    var (o, c2) := Funcall(7, g, c1, 3, [Fix(5)]);
    assert Args(7, g, c1, call.cdr) == (Value(NIL), [Fix(5)], c1) by {
      assert Args(7, g, c1, NIL) == (Value(NIL), [], c1);
      assert [Fix(5)] + [] == [Fix(5)];
    }
    assert Proper(NIL) && Proper(call.cdr);
    assert Eval(7, g, c1, call) == (o, c2);
    assert Body(7, g, c1, body, body) == (o, c2);
    CallOfLambda(8, g, c, 2, []);
  }

  lemma CallOfLambda(n: nat, g: Globals, c: Context, f: nat, args: seq<Val>)
    requires n > 0 && f < |g.funs| && g.funs[f].arity == |args| == 0
    requires g.funs[f].form.Cons? && IsList(g.funs[f].form.cdr)
    ensures var fn := g.funs[f];
            var (o, c2) := Body(n - 1, g, Enter(c, fn, Frame(f, args)), fn.form.cdr, fn.form.cdr);
            Funcall(n, g, c, f, args) == (o, if o.Value? then PopDynamic(c2) else c2)
  {
    hide Body;
  }

  /** The handler returns 1 and leaves the stacks as it found them. */
  lemma HandlerReturns(c: Context, e: Val)
    requires Stack(c, Key("1")) == []
    ensures var (o, c') := Funcall(8, LeakGlobals(), c, 1, [e]);
            && o == Value(Fix(1)) && c'.dynamic == c.dynamic && c'.caught == c.caught
            && forall id :: Stack(c', id) == Stack(c, id)
  {
    var g := LeakGlobals();
    var c4 := Enter(c, g.funs[1], Frame(1, [e]));
    assert Body(7, g, c4, Fix(1), NIL) == (Value(Fix(1)), c4);
    assert Body(7, g, c4, ListOf([Fix(1)]), ListOf([Fix(1)])) == (Value(Fix(1)), c4);
    assert Funcall(8, g, c, 1, [e]).0 == Value(Fix(1));
    FuncallIsDisciplined(8, g, c, 1, [e]);
  }

  /** The lexical half of the discipline does need the absence of caught
      exceptions: here a call returns a value, the control stack is restored, and
      what was the raising lambda's frame is still on its lexical stack, where a
      later reference reads through it. */
  lemma CaughtExceptionLeavesFrames()
    ensures var c := Context([], map[], 0, 0);
            var (o, c') := Funcall(9, LeakGlobals(), c, 0, [Func(1), Func(2)]);
            o == Value(Fix(1)) && c'.dynamic == c.dynamic && c'.caught == 1 &&
            Stack(c, Key("3")) == [] && Stack(c', Key("3")) == [Gone] &&
            FrameRef(c', [Key("3"), Fix(0)]) == Stale
  {
    hide Funcall;
    var g := LeakGlobals();
    var c := Context([], map[], 0, 0);
    var c0 := PushDynamic(c, Frame(0, [Func(1), Func(2)]));
    assert forall id :: Stack(c0, id) == [];
    ThunkRaises(c0);
    var (o, c2) := Funcall(8, g, c0, 2, []);
    var c3 := Unwind(c2, 1);
    assert c3.dynamic == c0.dynamic;
    assert forall id :: Stack(c3, id) == Stack(c2, id);
    HandlerReturns(c3, o.exn);
    var (o2, c4) := Funcall(8, g, c3, 1, [o.exn]);
    assert Stack(c4, Key("3")) == [Gone];
    assert Native(9, g, c0, Sym(WITH_EX), [Func(1), Func(2)]) == (o2, c4);
    CallOfNative(9, g, c, 0, [Func(1), Func(2)]);
    assert c0.dynamic[..0] == [];
  }

  lemma CallOfNative(n: nat, g: Globals, c: Context, f: nat, args: seq<Val>)
    requires f < |g.funs| && g.funs[f].arity == |args| && IsSymbol(g.funs[f].form)
    ensures var (o, c1) := Native(n, g, PushDynamic(c, Frame(f, args)), g.funs[f].form, args);
            Funcall(n, g, c, f, args) == (o, if o.Value? then PopDynamic(c1) else c1)
  {
    hide Native;
  }
}
