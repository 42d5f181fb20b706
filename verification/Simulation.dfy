// Compilation preserves meaning: evaluating the compiled form gives what direct
// evaluation of the source form gives, at every depth.

module Simulation {
  import opened Options
  import opened Lisp
  import opened Numerals
  import opened Evaluator
  import opened Compiler
  import opened Source
  import opened Independence

  // ------------------------------------------------- what compiling adds and keeps

  /** Compiling only adds function objects; when it succeeds it has made one
      frame id per function object, whose arity is the length of its parameter
      list, and is back in the enclosing lambdas. */
  ghost predicate Grows(cs: CState, r: CResult, cs': CState) {
    && |cs.funs| <= |cs'.funs| && (forall f | 0 <= f < |cs.funs| :: cs'.funs[f] == cs.funs[f])
    && cs.lexicals <= cs'.lexicals && cs.nextId <= cs'.nextId
    && (r.Ok? ==>
          && cs'.lexicals == cs.lexicals
          && cs'.nextId - cs.nextId == |cs'.funs| - |cs.funs|
          && forall f | |cs.funs| <= f < |cs'.funs| ::
               && cs'.funs[f].frameId == FrameId(cs.nextId + (f - |cs.funs|))
               && cs'.funs[f].form.Cons? && cs'.funs[f].arity == |ParamsOf(cs'.funs, f)|)
  }

  lemma GrowsNot(cs: CState, r: CResult)
    ensures Grows(cs, r, cs)
  {
  }

  lemma GrowsThen(cs: CState, code: Val, cs1: CState, r: CResult, cs2: CState)
    requires Grows(cs, Ok(code), cs1) && Grows(cs1, r, cs2)
    ensures Grows(cs, r, cs2)
  {
    if r.Ok? {
      forall f | |cs.funs| <= f < |cs2.funs|
        ensures cs2.funs[f].frameId == FrameId(cs.nextId + (f - |cs.funs|))
        ensures cs2.funs[f].form.Cons? && cs2.funs[f].arity == |ParamsOf(cs2.funs, f)|
      {
        if f < |cs1.funs| { assert cs2.funs[f] == cs1.funs[f]; }
      }
    }
  }

  lemma GrowsLambda(cs: CState, lambda: Val, body: CResult, cs1: CState, f: nat)
    requires Grows(InLambda(cs, lambda), body, cs1) && f == |cs.funs|
    ensures body.Ok? ==> Grows(cs, Ok(Func(f)), CloseLambda(cs1, f, lambda, body.code))
    ensures !body.Ok? ==> Grows(cs, body, cs1)
  {
    var cs0 := InLambda(cs, lambda);
    assert cs0.funs[f].frameId == FrameId(cs.nextId);
    if body.Ok? && Elements(lambda) != [] {
      assert cs1.lexicals[..|cs1.lexicals| - 1] == cs.lexicals;
    }
  }

  lemma {:induction false} FormGrows(cs: CState, v: Val)
    ensures Grows(cs, Form(cs, v).0, Form(cs, v).1)
    decreases Size(v), 2
  {
    hide Grows, Lambda, Conditional, FormList, SymbolForm;
    GrowsNot(cs, Form(cs, v).0);
    if v.Cons? {
      match v.car
      case Cons(_, _) =>
        FormGrows(cs, v.car);
        var (head, cs1) := Form(cs, v.car);
        if head.Ok? {
          if head.code.Func? {
            FormListGrows(cs1, v.cdr);
            var (args, cs2) := FormList(cs1, v.cdr);
            GrowsThen(cs, head.code, cs1, args, cs2);
            if args.Ok? { SameGrowth(cs, args, Ok(Cons(head.code, args.code)), cs2); }
          } else {
            ErrGrowth(cs, head, Err(Exn("compile", "type", v.car)), cs1);
          }
        }
      case Key(_) =>
        if v.car == LAMBDA { LambdaGrows(cs, v); }
        else if v.car == IF { ConditionalGrows(cs, v); }
      case Sym(_) => FormListGrows(cs, v);
      case Func(_) => FormListGrows(cs, v);
      case _ =>
    }
  }

  lemma SameGrowth(cs: CState, r: CResult, r': CResult, cs': CState)
    requires Grows(cs, r, cs') && r.Ok?
    ensures Grows(cs, r', cs')
  {
  }

  lemma ErrGrowth(cs: CState, r: CResult, r': CResult, cs': CState)
    requires Grows(cs, r, cs') && !r'.Ok?
    ensures Grows(cs, r', cs')
  {
  }

  lemma {:induction false} FormListGrows(cs: CState, vs: Val)
    ensures Grows(cs, FormList(cs, vs).0, FormList(cs, vs).1)
    decreases Size(vs), 0
  {
    hide Grows;
    GrowsNot(cs, Broken);
    if IsList(vs) { FormsGrows(cs, vs); }
  }

  lemma {:induction false} FormsGrows(cs: CState, vs: Val)
    ensures Grows(cs, Forms(cs, vs).0, Forms(cs, vs).1)
    decreases Size(vs), 0, 0
  {
    hide Grows, Form;
    GrowsNot(cs, Ok(NIL));
    if vs.Cons? {
      FormGrows(cs, vs.car);
      var (first, cs1) := Form(cs, vs.car);
      if first.Ok? {
        FormsGrows(cs1, vs.cdr);
        var (rest, cs2) := Forms(cs1, vs.cdr);
        GrowsThen(cs, first.code, cs1, rest, cs2);
        if rest.Ok? { SameGrowth(cs, rest, Ok(Cons(first.code, rest.code)), cs2); }
      }
    }
  }

  lemma {:induction false} LambdaGrows(cs: CState, v: Val)
    requires v.Cons?
    ensures Grows(cs, Lambda(cs, v).0, Lambda(cs, v).1)
    decreases Size(v), 1
  {
    hide Grows, FormList, LambdaError, CloseLambda, InLambda;
    GrowsNot(cs, Lambda(cs, v).0);
    if LambdaError(v).None? {
      var lambda := Nth(v, 1);
      if !IdFits(cs.nextId) || !Proper(lambda) {
        IdGrows(cs, Lambda(cs, v).0);
      } else if v.cdr.Cons? {
        FormListGrows(InLambda(cs, lambda), v.cdr.cdr);
        var (body, cs1) := FormList(InLambda(cs, lambda), v.cdr.cdr);
        GrowsLambda(cs, lambda, body, cs1, |cs.funs|);
      }
    }
  }

  lemma IdGrows(cs: CState, r: CResult)
    requires !r.Ok?
    ensures Grows(cs, r, cs.(nextId := cs.nextId + 1))
  {
  }

  lemma {:induction false} ConditionalGrows(cs: CState, v: Val)
    requires v.Cons?
    ensures Grows(cs, Conditional(cs, v).0, Conditional(cs, v).1)
    decreases Size(v), 1
  {
    hide Grows, Form, Lambda;
    GrowsNot(cs, Conditional(cs, v).0);
    if Proper(v) && |Elements(v)| == 4 {
      SizeOfFour(v);
      FormGrows(cs, Nth(v, 1));
      var (test, cs1) := Form(cs, Nth(v, 1));
      if test.Ok? {
        LambdaGrows(cs1, Branch(Nth(v, 2)));
        var (yes, cs2) := Lambda(cs1, Branch(Nth(v, 2)));
        GrowsThen(cs, test.code, cs1, yes, cs2);
        if yes.Ok? {
          LambdaGrows(cs2, Branch(Nth(v, 3)));
          var (no, cs3) := Lambda(cs2, Branch(Nth(v, 3)));
          GrowsThen(cs, yes.code, cs2, no, cs3);
          if no.Ok? { SameGrowth(cs, no, Conditional(cs, v).0, cs3); }
        }
      }
    }
  }

  /** A list of forms compiles to a proper list with one code per element. */
  lemma {:induction false} FormsProper(cs: CState, vs: Val)
    requires Forms(cs, vs).0.Ok?
    ensures Proper(Forms(cs, vs).0.code) && IsList(Forms(cs, vs).0.code)
    ensures Forms(cs, vs).0.code.Cons? <==> vs.Cons?
    decreases Size(vs)
  {
    hide Form;
    if vs.Cons? {
      FormsProper(Form(cs, vs.car).1, vs.cdr);
    }
  }

  // ----------------------------------------------- scopes against frames and lambdas

  /** A frame id made before the compiler's counter reached `next`. */
  ghost predicate OldId(id: Val, next: nat) {
    forall m: nat {:trigger FrameId(m)} :: m >= next ==> id != FrameId(m)
  }

  /** Enclosing lambda f stands for a scope: same parameters, and the latest
      frame of its id holds the scope's arguments. */
  ghost predicate Stands(nb: nat, news: set<Val>, next: nat, funs: seq<FuncObj>,
                         f: nat, scope: Scope, d: Context)
  {
    && f < |funs| && funs[f].form.Cons? && ParamsOf(funs, f) == scope.params
    && scope.params != [] && |scope.args| == |scope.params|
    && LEX_REF !in scope.params && AllClean(nb, scope.args)
    && funs[f].frameId.Key? && funs[f].frameId in news && OldId(funs[f].frameId, next)
    && var s := Stack(d, funs[f].frameId);
       s != [] && s[|s| - 1].Frame? && s[|s| - 1].argv == scope.args
  }

  /** The compiler's enclosing lambdas, the runtime stacks and the source scopes
      describe the same bindings. */
  ghost predicate Bound(nb: nat, news: set<Val>, cs: CState, scopes: seq<Scope>, d: Context) {
    && |cs.lexicals| == |scopes|
    && forall i | 0 <= i < |scopes| ::
         Stands(nb, news, cs.nextId, cs.funs, cs.lexicals[i], scopes[i], d)
  }

  /** Resolving a symbol and looking it up agree, and the reference the compiler
      emits reads the value looked up. */
  lemma {:induction false} LookupAgrees(nb: nat, news: set<Val>, cs: CState, lexicals: seq<nat>,
                                        scopes: seq<Scope>, d: Context, s: Val)
    requires |lexicals| == |scopes| && s.Sym?
    requires forall i | 0 <= i < |scopes| :: Stands(nb, news, cs.nextId, cs.funs, lexicals[i], scopes[i], d)
    ensures match MapLexical(cs.funs, lexicals, s)
            case None => Lookup(scopes, s).None?
            case Some((f, k)) =>
              && f < |cs.funs| && cs.funs[f].frameId.Key? && Lookup(scopes, s).Some?
              && FrameRef(d, [cs.funs[f].frameId, Fix(k)]) == Value(Lookup(scopes, s).value)
              && Clean(nb, Lookup(scopes, s).value)
    ensures MapLexical(cs.funs, lexicals, LEX_REF).None?
    decreases |lexicals|
  {
    hide Clean, Stands, FrameRef, ParamsOf;
    if lexicals != [] {
      var n := |lexicals| - 1;
      assert Stands(nb, news, cs.nextId, cs.funs, lexicals[n], scopes[n], d);
      FrameHolds(nb, news, cs.nextId, cs.funs, lexicals[n], scopes[n], d, s);
      LookupAgrees(nb, news, cs, lexicals[..n], scopes[..n], d, s);
    }
  }

  lemma FrameHolds(nb: nat, news: set<Val>, next: nat, funs: seq<FuncObj>, f: nat, scope: Scope,
                   d: Context, s: Val)
    requires Stands(nb, news, next, funs, f, scope, d)
    ensures f < |funs| && funs[f].frameId.Key? && ParamsOf(funs, f) == scope.params
    ensures LEX_REF !in scope.params && |scope.args| == |scope.params|
    ensures s in scope.params ==>
              var k := IndexOf(scope.params, s);
              && FrameRef(d, [funs[f].frameId, Fix(k)]) == Value(scope.args[k])
              && Clean(nb, scope.args[k])
  {
    hide Clean, ParamsOf, OldId;
    if s in scope.params {
      assert scope.args[IndexOf(scope.params, s)] in scope.args;
    }
  }

  lemma StandsKept(nb: nat, news: set<Val>, next: nat, funs: seq<FuncObj>, f: nat, scope: Scope,
                   d: Context, next': nat, funs': seq<FuncObj>, d': Context)
    requires Stands(nb, news, next, funs, f, scope, d) && next <= next'
    requires f < |funs| <= |funs'| && funs'[f] == funs[f]
    requires Stack(d', funs[f].frameId) == Stack(d, funs[f].frameId)
    ensures Stands(nb, news, next', funs', f, scope, d')
  {
    hide AllClean;
  }

  /** The binding relation survives more compiling and evaluation that leaves
      the new frames alone. */
  lemma BoundKept(nb: nat, news: set<Val>, cs: CState, scopes: seq<Scope>, d: Context,
                  code: Val, cs': CState, d': Context)
    requires Bound(nb, news, cs, scopes, d) && Grows(cs, Ok(code), cs') && Untouched(news, d, d')
    ensures Bound(nb, news, cs', scopes, d')
  {
    forall i | 0 <= i < |scopes|
      ensures Stands(nb, news, cs'.nextId, cs'.funs, cs'.lexicals[i], scopes[i], d')
    {
      assert Stands(nb, news, cs.nextId, cs.funs, cs.lexicals[i], scopes[i], d);
      StandsKept(nb, news, cs.nextId, cs.funs, cs.lexicals[i], scopes[i], d, cs'.nextId, cs'.funs, d');
    }
  }

  /** Entering a new lambda extends the binding relation with its own scope. */
  lemma BoundEnter(nb: nat, news: set<Val>, cs: CState, scopes: seq<Scope>, d: Context,
                   lambda: Val, fn: FuncObj, args: seq<Val>)
    requires Bound(nb, news, cs, scopes, d) && FrameId(cs.nextId) in news
    requires fn.frameId == FrameId(cs.nextId) && fn.arity == |args| == |Elements(lambda)|
    requires AllClean(nb, args) && LEX_REF !in Elements(lambda)
    ensures Bound(nb, news, InLambda(cs, lambda), Bind(scopes, Elements(lambda), args),
                  Enter(d, fn, Frame(|cs.funs|, args)))
  {
    hide AllClean;
    var cs' := InLambda(cs, lambda);
    var d' := Enter(d, fn, Frame(|cs.funs|, args));
    var scopes' := Bind(scopes, Elements(lambda), args);
    forall i | 0 <= i < |scopes|
      ensures Stands(nb, news, cs'.nextId, cs'.funs, cs.lexicals[i], scopes[i], d')
    {
      var f := cs.lexicals[i];
      assert Stands(nb, news, cs.nextId, cs.funs, f, scopes[i], d);
      assert cs.funs[f].frameId != FrameId(cs.nextId);
      StandsKept(nb, news, cs.nextId, cs.funs, f, scopes[i], d, cs'.nextId, cs'.funs, d');
    }
    if Elements(lambda) != [] {
      forall m: nat | m >= cs'.nextId ensures FrameId(cs.nextId) != FrameId(m) {
        if FrameId(cs.nextId) == FrameId(m) { DecimalInjective(cs.nextId, m); }
      }
      assert OldId(FrameId(cs.nextId), cs'.nextId);
      assert Stands(nb, news, cs'.nextId, cs'.funs, |cs.funs|, Scope(Elements(lambda), args), d');
    }
  }

  // ------------------------------------------------------------------ the simulation

  /** Everything the simulation assumes of the two worlds and contexts. */
  ghost predicate Setting(nb: nat, news: set<Val>, g: Globals, g': Globals, cs: CState,
                          scopes: seq<Scope>, c: Context, d: Context)
  {
    && Ready(nb, news, g, g', c, d)
    && nb <= |cs.funs| && Bound(nb, news, cs, scopes, d)
  }

  /** The final function table holds what compiling from cs to cs' made, and the
      frame ids it made count as new. */
  ghost predicate Linked(news: set<Val>, g': Globals, cs: CState, cs': CState) {
    && |cs'.funs| <= |g'.funs|
    && (forall f | |cs.funs| <= f < |cs'.funs| :: g'.funs[f] == cs'.funs[f])
    && (forall m: nat {:trigger FrameId(m)} | cs.nextId <= m < cs'.nextId :: FrameId(m) in news)
  }

  /** The same outcome, in agreeing contexts; a value leaves the new frames as
      they were. */
  ghost predicate Similar(nb: nat, news: set<Val>, d: Context,
                          o: Outcome, c': Context, p: Outcome, d': Context)
  {
    && p == o && OutcomeClean(nb, o) && Agree(nb, news, c', d')
    && (o.Value? ==> Untouched(news, d, d'))
  }

  lemma LinkedSplit(news: set<Val>, g': Globals, cs: CState, code: Val, cs1: CState, r: CResult, cs2: CState)
    requires Linked(news, g', cs, cs2) && Grows(cs, Ok(code), cs1) && Grows(cs1, r, cs2)
    ensures Linked(news, g', cs, cs1) && Linked(news, g', cs1, cs2)
  {
    forall f | |cs.funs| <= f < |cs1.funs| ensures g'.funs[f] == cs1.funs[f] {
      assert cs2.funs[f] == cs1.funs[f];
    }
  }

  lemma SettingKept(nb: nat, news: set<Val>, g: Globals, g': Globals, cs: CState, scopes: seq<Scope>,
                    c: Context, d: Context, code: Val, cs': CState,
                    o: Outcome, c': Context, p: Outcome, d': Context)
    requires Setting(nb, news, g, g', cs, scopes, c, d) && Grows(cs, Ok(code), cs')
    requires Similar(nb, news, d, o, c', p, d') && o.Value?
    ensures Setting(nb, news, g, g', cs', scopes, c', d')
  {
    hide Bound, Agree, Untouched;
    BoundKept(nb, news, cs, scopes, d, code, cs', d');
  }

  lemma SimilarThen(nb: nat, news: set<Val>, d: Context, d1: Context,
                    o: Outcome, c2: Context, p: Outcome, d2: Context)
    requires Untouched(news, d, d1) && Similar(nb, news, d1, o, c2, p, d2)
    ensures Similar(nb, news, d, o, c2, p, d2)
  {
  }

  lemma SimilarSame(nb: nat, news: set<Val>, c: Context, d: Context, o: Outcome)
    requires Agree(nb, news, c, d) && OutcomeClean(nb, o)
    ensures Similar(nb, news, d, o, c, o, d)
  {
  }

  /** A symbol: its own value or the reference to its frame. */
  lemma SymbolSim(n: nat, nb: nat, news: set<Val>, g: Globals, g': Globals, cs: CState,
                  scopes: seq<Scope>, c: Context, d: Context, s: Val)
    requires Setting(nb, news, g, g', cs, scopes, c, d) && s.Sym? && Clean(nb, s)
    ensures SymbolForm(cs, s).Ok?
    ensures var (p, d') := Eval(n, g', d, SymbolForm(cs, s).code);
            Similar(nb, news, d, Meaning(g, scopes, s), c, p, d')
    ensures SymbolForm(cs, s).code == s || SymbolForm(cs, s).code.Cons?
    ensures SymbolForm(cs, s).code.Cons? ==> SymbolForm(cs, s).code.car == LEX_REF
    ensures SymbolForm(cs, s).code == s ==> Meaning(g, scopes, s) == SymbolValue(g', s)
  {
    hide Agree, Untouched, Stands;
    LookupAgrees(nb, news, cs, cs.lexicals, scopes, d, s);
    match MapLexical(cs.funs, cs.lexicals, s)
    case None =>
      SimilarSame(nb, news, c, d, SymbolValue(g, s));
    case Some((f, k)) =>
      var id := cs.funs[f].frameId;
      LexRefShape(cs.funs, f, k);
      RefEval(n, g', d, id, Fix(k));
      var v := Lookup(scopes, s).value;
      RefKeeps(nb, news, c, d, Value(v), Frame(0, [id, Fix(k)]));
  }

  lemma LexRefShape(funs: seq<FuncObj>, f: nat, k: nat)
    requires f < |funs|
    ensures LexRef(funs, f, k) == RefForm(funs[f].frameId, Fix(k))
  {
    var vs := [LEX_REF, funs[f].frameId, Fix(k)];
    assert vs[1..] == [funs[f].frameId, Fix(k)] && vs[1..][1..] == [Fix(k)] && [Fix(k)][1..] == [];
    assert ListOf([Fix(k)]) == Cons(Fix(k), NIL);
    assert ListOf(vs[1..]) == Cons(funs[f].frameId, ListOf([Fix(k)]));
  }

  lemma RefKeeps(nb: nat, news: set<Val>, c: Context, d: Context, o: Outcome, fr: Frame)
    requires Agree(nb, news, c, d) && OutcomeClean(nb, o)
    ensures Similar(nb, news, d, o, c, o, AfterRef(d, o, fr))
  {
    assert forall id :: Stack(AfterRef(d, o, fr), id) == Stack(d, id);
  }

  /** Entering a lambda of a new frame id is invisible outside the new frames. */
  lemma EnterNew(nb: nat, news: set<Val>, c: Context, d: Context, fn: FuncObj, fr: Frame)
    requires Agree(nb, news, c, d) && fn.frameId in news
    ensures Agree(nb, news, c, Enter(d, fn, fr))
  {
    assert forall id | id !in news :: Stack(Enter(d, fn, fr), id) == Stack(d, id);
  }

  /** Leaving it restores its stack. */
  lemma LeaveNew(nb: nat, news: set<Val>, d: Context, fn: FuncObj, fr: Frame,
                 o: Outcome, c': Context, d2: Context)
    requires fn.frameId in news
    requires Similar(nb, news, Enter(d, fn, fr), o, c', o, d2)
    ensures Similar(nb, news, d, o, c', o, Exit(d2, fn, o, |Stack(d, fn.frameId)|))
  {
    hide Exit, Enter;
    var at := |Stack(d, fn.frameId)|;
    var end := Exit(d2, fn, o, at);
    var d1 := Enter(d, fn, fr);
    forall id | id !in news
      ensures Stack(c', id) == Stack(end, id) && FramesClean(nb, Stack(c', id))
    {
      ExitStack(d2, fn, o, at, id);
      assert Stack(c', id) == Stack(d2, id);
    }
    if o.Value? {
      forall id | id in news ensures Stack(end, id) == Stack(d, id) {
        ExitStack(d2, fn, o, at, id);
        EnterStack(d, fn, fr, id);
        assert Stack(d2, id) == Stack(d1, id);
      }
    }
  }

  lemma EnterStack(d: Context, fn: FuncObj, fr: Frame, id: Val)
    ensures Stack(Enter(d, fn, fr), id) ==
            if fn.arity > 0 && id == fn.frameId then Stack(d, id) + [fr] else Stack(d, id)
  {
  }

  /** The function object a successful lambda compilation leaves. */
  lemma LambdaShape(news: set<Val>, g': Globals, cs: CState, lam: Val)
    requires lam.Cons? && Lambda(cs, lam).0.Ok? && Linked(news, g', cs, Lambda(cs, lam).1)
    ensures var lambda := Nth(lam, 1);
            var (body, cs1) := Forms(InLambda(cs, lambda), BodyOf(lam));
            && Lambda(cs, lam).0 == Ok(Func(|cs.funs|)) && |cs.funs| < |g'.funs|
            && body.Ok? && Params(lam) == Elements(lambda)
            && g'.funs[|cs.funs|] == FuncObj(|Elements(lambda)|, Cons(lambda, body.code), FrameId(cs.nextId))
            && FrameId(cs.nextId) in news
            && Linked(news, g', InLambda(cs, lambda), cs1)
  {
    hide Forms, LambdaError;
    var lambda := Nth(lam, 1);
    var f := |cs.funs|;
    FormListGrows(InLambda(cs, lambda), lam.cdr.cdr);
    var (body, cs1) := FormList(InLambda(cs, lambda), lam.cdr.cdr);
    assert cs1.funs[f] == NewLambda(cs, lambda);
    assert Lambda(cs, lam).1 == CloseLambda(cs1, f, lambda, body.code);
    assert Lambda(cs, lam).1.nextId == cs1.nextId;
  }

  lemma CleanParams(nb: nat, lam: Val)
    requires Clean(nb, lam)
    ensures LEX_REF !in Params(lam) && Clean(nb, BodyOf(lam))
  {
    CleanNth(nb, lam, 1);
    CleanElements(nb, Nth(lam, 1));
    assert !Clean(nb, LEX_REF);
  }

  // The lemmas below follow the compiler's functions one by one.

  lemma {:induction false} FormSim(n: nat, nb: nat, news: set<Val>, g: Globals, g': Globals, cs: CState,
                                   scopes: seq<Scope>, c: Context, d: Context, v: Val)
    requires Setting(nb, news, g, g', cs, scopes, c, d)
    requires Form(cs, v).0.Ok? && Linked(news, g', cs, Form(cs, v).1)
    requires Local(v) && Clean(nb, v)
    ensures var (o, c') := Direct(n, g, scopes, c, v);
            var (p, d') := Eval(n, g', d, Form(cs, v).0.code);
            Similar(nb, news, d, o, c', p, d')
    decreases n, Size(v), 2
  {
    hide Agree, Untouched, Bound, Linked;
    if v.Sym? {
      SymbolSim(n, nb, news, g, g', cs, scopes, c, d, v);
    } else if !v.Cons? {
      SimilarSame(nb, news, c, d, Value(v));
    } else {
      match v.car
      case Cons(_, _) => AppliedSim(n, nb, news, g, g', cs, scopes, c, d, v);
      case Key(_) =>
        if v.car == QUOTE {
          CleanNth(nb, v, 1);
          SimilarSame(nb, news, c, d, Value(Nth(v, 1)));
        } else {
          assert v.car == IF;
          IfSim(n, nb, news, g, g', cs, scopes, c, d, v);
        }
      case Sym(_) => CallSim(n, nb, news, g, g', cs, scopes, c, d, v);
      case Func(_) => CallSim(n, nb, news, g, g', cs, scopes, c, d, v);
      case _ =>
    }
  }

  /** compile_list on argument forms. */
  lemma {:induction false} ArgsSim(n: nat, nb: nat, news: set<Val>, g: Globals, g': Globals, cs: CState,
                                   scopes: seq<Scope>, c: Context, d: Context, vs: Val)
    requires Setting(nb, news, g, g', cs, scopes, c, d)
    requires Forms(cs, vs).0.Ok? && Linked(news, g', cs, Forms(cs, vs).1)
    requires LocalAll(vs) && Clean(nb, vs)
    ensures var (o, xs, c') := DirectArgs(n, g, scopes, c, vs);
            var (p, ys, d') := Args(n, g', d, Forms(cs, vs).0.code);
            Similar(nb, news, d, o, c', p, d') && ys == xs && AllClean(nb, xs)
    decreases n, Size(vs), 0
  {
    hide Setting, Agree, Untouched, Linked, Form, Eval, Direct, Local, Clean;
    if !vs.Cons? {
      SettingAgrees(nb, news, g, g', cs, scopes, c, d);
      SimilarSame(nb, news, c, d, Value(NIL)) by { CleanNil(nb); }
    } else {
      CleanCons(nb, vs);
      var (first, cs1) := Form(cs, vs.car);
      FormGrows(cs, vs.car);
      FormsGrows(cs1, vs.cdr);
      LinkedSplit(news, g', cs, first.code, cs1, Forms(cs1, vs.cdr).0, Forms(cs1, vs.cdr).1);
      FormSim(n, nb, news, g, g', cs, scopes, c, d, vs.car);
      var (o, c1) := Direct(n, g, scopes, c, vs.car);
      var (p, d1) := Eval(n, g', d, first.code);
      if o.Value? {
        SettingKept(nb, news, g, g', cs, scopes, c, d, first.code, cs1, o, c1, p, d1);
        ArgsSim(n, nb, news, g, g', cs1, scopes, c1, d1, vs.cdr);
        var (o2, xs, c2) := DirectArgs(n, g, scopes, c1, vs.cdr);
        var (p2, ys, d2) := Args(n, g', d1, Forms(cs1, vs.cdr).0.code);
        SimilarThen(nb, news, d, d1, o2, c2, p2, d2);
      }
    }
  }

  lemma CleanNil(nb: nat)
    ensures OutcomeClean(nb, Value(NIL))
  {
  }

  lemma CleanCons(nb: nat, v: Val)
    requires v.Cons? && Clean(nb, v)
    ensures Clean(nb, v.car) && Clean(nb, v.cdr)
  {
  }

  lemma SettingAgrees(nb: nat, news: set<Val>, g: Globals, g': Globals, cs: CState,
                      scopes: seq<Scope>, c: Context, d: Context)
    requires Setting(nb, news, g, g', cs, scopes, c, d)
    ensures Agree(nb, news, c, d) && Ready(nb, news, g, g', c, d)
  {
  }

  /** compile_list on a body. */
  lemma {:induction false} BodySim(n: nat, nb: nat, news: set<Val>, g: Globals, g': Globals, cs: CState,
                                   scopes: seq<Scope>, c: Context, d: Context,
                                   x: Val, y: Val, vs: Val)
    requires Setting(nb, news, g, g', cs, scopes, c, d)
    requires Forms(cs, vs).0.Ok? && Linked(news, g', cs, Forms(cs, vs).1)
    requires LocalAll(vs) && Clean(nb, vs)
    requires !vs.Cons? ==> x == y && Clean(nb, x)
    ensures var (o, c') := DirectBody(n, g, scopes, c, x, vs);
            var (p, d') := Body(n, g', d, y, Forms(cs, vs).0.code);
            Similar(nb, news, d, o, c', p, d')
    decreases n, Size(vs), 0
  {
    hide Setting, Agree, Untouched, Linked, Form, Eval, Direct, Local, Clean;
    if !vs.Cons? {
      SettingAgrees(nb, news, g, g', cs, scopes, c, d);
      SimilarSame(nb, news, c, d, Value(x));
    } else {
      CleanCons(nb, vs);
      var (first, cs1) := Form(cs, vs.car);
      FormGrows(cs, vs.car);
      FormsGrows(cs1, vs.cdr);
      LinkedSplit(news, g', cs, first.code, cs1, Forms(cs1, vs.cdr).0, Forms(cs1, vs.cdr).1);
      FormSim(n, nb, news, g, g', cs, scopes, c, d, vs.car);
      var (o, c1) := Direct(n, g, scopes, c, vs.car);
      var (p, d1) := Eval(n, g', d, first.code);
      if o.Value? {
        SettingKept(nb, news, g, g', cs, scopes, c, d, first.code, cs1, o, c1, p, d1);
        BodySim(n, nb, news, g, g', cs1, scopes, c1, d1, o.v, p.v, vs.cdr);
        var (o2, c2) := DirectBody(n, g, scopes, c1, o.v, vs.cdr);
        var (p2, d2) := Body(n, g', d1, p.v, Forms(cs1, vs.cdr).0.code);
        SimilarThen(nb, news, d, d1, o2, c2, p2, d2);
      }
    }
  }

  /** What calling a lambda form's function object stands for. */
  function DirectCall(n: nat, g: Globals, scopes: seq<Scope>, c: Context, lam: Val, args: seq<Val>)
    : (Outcome, Context)
  {
    if n == 0 then (Deep, c)
    else DirectBody(n - 1, g, Bind(scopes, Params(lam), args), c, NIL, BodyOf(lam))
  }

  /** def_lambda: calling the function object it makes. */
  lemma {:induction false} LambdaSim(n: nat, nb: nat, news: set<Val>, g: Globals, g': Globals, cs: CState,
                                     scopes: seq<Scope>, c: Context, d: Context,
                                     lam: Val, args: seq<Val>)
    requires Setting(nb, news, g, g', cs, scopes, c, d)
    requires lam.Cons? && Lambda(cs, lam).0.Ok? && Linked(news, g', cs, Lambda(cs, lam).1)
    requires LocalAll(BodyOf(lam)) && Clean(nb, lam)
    requires |args| == |Params(lam)| && AllClean(nb, args)
    ensures var (o, c') := DirectCall(n, g, scopes, c, lam, args);
            var (p, d') := Funcall(n, g', d, |cs.funs|, args);
            Similar(nb, news, d, o, c', p, d')
    decreases n, Size(lam), 1
  {
    hide Agree, Untouched, Linked, Bound, Body, DirectBody, LocalAll, AllClean, Forms, Clean, Lambda, Nth,
         WorldOk, SameWorld;
    LambdaShape(news, g', cs, lam);
    CleanParams(nb, lam);
    var lambda := Nth(lam, 1);
    var cs0 := InLambda(cs, lambda);
    var (body, cs1) := Forms(cs0, BodyOf(lam));
    var fn := g'.funs[|cs.funs|];
    var fr := Frame(|cs.funs|, args);
    FormsProper(cs0, BodyOf(lam));
    if n == 0 {
      SimilarSame(nb, news, c, d, Deep);
    } else {
      var d1 := Enter(d, fn, fr);
      var scopes1 := Bind(scopes, Elements(lambda), args);
      BoundEnter(nb, news, cs, scopes, d, lambda, fn, args);
      EnterNew(nb, news, c, d, fn, fr);
      assert Setting(nb, news, g, g', cs0, scopes1, c, d1);
      BodySim(n - 1, nb, news, g, g', cs0, scopes1, c, d1, NIL, body.code, BodyOf(lam)) by {
        CleanNil(nb);
        if !BodyOf(lam).Cons? { NilForms(cs0, BodyOf(lam)); }
      }
      var (o, c2) := DirectBody(n - 1, g, scopes1, c, NIL, BodyOf(lam));
      var (p, d2) := Body(n - 1, g', d1, body.code, body.code);
      LeaveNew(nb, news, d, fn, fr, o, c2, d2);
    }
  }

  lemma NilForms(cs: CState, vs: Val)
    requires Forms(cs, vs).0.Ok? && !vs.Cons?
    ensures Forms(cs, vs).0.code == NIL
  {
  }

  /** What applying a head's value to argument forms stands for. */
  function DirectApply(n: nat, g: Globals, scopes: seq<Scope>, c: Context, head: Val, args: Val)
    : (Outcome, Context)
  {
    if !head.Func? then (Raise(Exn("eval", "type", head)), c)
    else
      var (o, vs, c1) := DirectArgs(n, g, scopes, c, args);
      if o.Value? then Funcall(n, g, c1, head.fid, vs) else (o, c1)
  }

  lemma {:induction false} ApplySim(n: nat, nb: nat, news: set<Val>, g: Globals, g': Globals, cs: CState,
                                    scopes: seq<Scope>, c: Context, d: Context, head: Val, args: Val)
    requires Setting(nb, news, g, g', cs, scopes, c, d) && Clean(nb, head)
    requires Forms(cs, args).0.Ok? && Linked(news, g', cs, Forms(cs, args).1)
    requires LocalAll(args) && Clean(nb, args)
    ensures var (o, c') := DirectApply(n, g, scopes, c, head, args);
            var (p, d') := Apply(n, g', d, head, Forms(cs, args).0.code);
            Similar(nb, news, d, o, c', p, d')
    decreases n, Size(args), 1
  {
    hide Setting, Agree, Untouched, Linked, Forms, Args, DirectArgs, Funcall, LocalAll, AllClean, Ready;
    SettingAgrees(nb, news, g, g', cs, scopes, c, d);
    FormsProper(cs, args);
    if !head.Func? {
      SimilarSame(nb, news, c, d, Raise(Exn("eval", "type", head)));
    } else {
      ArgsSim(n, nb, news, g, g', cs, scopes, c, d, args);
      var (o, vs, c1) := DirectArgs(n, g, scopes, c, args);
      var (p, ws, d1) := Args(n, g', d, Forms(cs, args).0.code);
      if o.Value? {
        ReadyKept(nb, news, g, g', c, d, c1, d1);
        FuncallAlike(n, g, g', nb, news, c1, d1, head.fid, vs);
        UntouchedThen(news, d, d1, Funcall(n, g', d1, head.fid, vs).1);
      }
    }
  }

  lemma ReadyKept(nb: nat, news: set<Val>, g: Globals, g': Globals, c: Context, d: Context,
                  c': Context, d': Context)
    requires Ready(nb, news, g, g', c, d) && Agree(nb, news, c', d')
    ensures Ready(nb, news, g, g', c', d')
  {
  }

  /** A call of a symbol's value or of an existing function object. */
  lemma {:induction false} CallSim(n: nat, nb: nat, news: set<Val>, g: Globals, g': Globals, cs: CState,
                                   scopes: seq<Scope>, c: Context, d: Context, v: Val)
    requires Setting(nb, news, g, g', cs, scopes, c, d) && v.Cons? && (v.car.Sym? || v.car.Func?)
    requires Form(cs, v).0.Ok? && Linked(news, g', cs, Form(cs, v).1)
    requires Local(v) && Clean(nb, v)
    ensures var (o, c') := Direct(n, g, scopes, c, v);
            var (p, d') := Eval(n, g', d, Form(cs, v).0.code);
            Similar(nb, news, d, o, c', p, d')
    decreases n, Size(v), 1
  {
    hide Setting, Agree, Untouched, Linked, Apply, DirectArgs, Funcall, SymbolForm, Meaning, LocalAll, Ready;
    var (first, cs1) := Form(cs, v.car);
    var rest := Forms(cs, v.cdr).0;
    assert Form(cs, v) == Forms(cs, v);
    assert cs1 == cs && rest.Ok? && Form(cs, v).0.code == Cons(first.code, rest.code);
    assert Form(cs, v).1 == Forms(cs, v.cdr).1;
    SettingAgrees(nb, news, g, g', cs, scopes, c, d);
    var o := if v.car.Sym? then Meaning(g, scopes, v.car) else Value(v.car);
    var (p, d1) := Eval(n, g', d, first.code);
    if v.car.Sym? {
      SymbolSim(n, nb, news, g, g', cs, scopes, c, d, v.car);
    } else {
      SimilarSame(nb, news, c, d, o);
    }
    assert Similar(nb, news, d, o, c, p, d1);
    assert Eval(n, g', d, Form(cs, v).0.code) ==
           if p.Value? then Apply(n, g', d1, p.v, rest.code) else (p, d1);
    assert Direct(n, g, scopes, c, v) ==
           if o.Value? then DirectApply(n, g, scopes, c, o.v, v.cdr) else (o, c);
    if o.Value? {
      GrowsNot(cs, Ok(NIL));
      SettingKept(nb, news, g, g', cs, scopes, c, d, NIL, cs, o, c, p, d1);
      ApplySim(n, nb, news, g, g', cs, scopes, c, d1, o.v, v.cdr);
      var (o2, c2) := DirectApply(n, g, scopes, c, o.v, v.cdr);
      var (p2, d2) := Apply(n, g', d1, p.v, rest.code);
      SimilarThen(nb, news, d, d1, o2, c2, p2, d2);
    }
  }

  /** A lambda applied where it is written. */
  lemma {:induction false} AppliedSim(n: nat, nb: nat, news: set<Val>, g: Globals, g': Globals, cs: CState,
                                      scopes: seq<Scope>, c: Context, d: Context, v: Val)
    requires Setting(nb, news, g, g', cs, scopes, c, d) && v.Cons? && v.car.Cons?
    requires Form(cs, v).0.Ok? && Linked(news, g', cs, Form(cs, v).1)
    requires Local(v) && Clean(nb, v)
    ensures var (o, c') := Direct(n, g, scopes, c, v);
            var (p, d') := Eval(n, g', d, Form(cs, v).0.code);
            Similar(nb, news, d, o, c', p, d')
    decreases n, Size(v), 1
  {
    hide Setting, Agree, Untouched, Linked, Lambda, Forms, Args, DirectArgs, DirectBody, Funcall, LocalAll,
         Ready, Params, BodyOf;
    var lam := v.car;
    var (head, cs1) := Lambda(cs, lam);
    assert Form(cs, lam) == (head, cs1);
    LambdaGrows(cs, lam);
    FormsGrows(cs1, v.cdr);
    var args := Forms(cs1, v.cdr).0;
    LinkedSplit(news, g', cs, head.code, cs1, args, Forms(cs1, v.cdr).1);
    LambdaShape(news, g', cs, lam);
    FormsProper(cs1, v.cdr);
    var f := |cs.funs|;
    assert Form(cs, v).0.code == Cons(Func(f), args.code);
    SettingAgrees(nb, news, g, g', cs, scopes, c, d);
    SimilarSame(nb, news, c, d, Value(NIL)) by { CleanNil(nb); }
    SettingKept(nb, news, g, g', cs, scopes, c, d, head.code, cs1, Value(NIL), c, Value(NIL), d);
    ArgsSim(n, nb, news, g, g', cs1, scopes, c, d, v.cdr);
    var (o, vs, c1) := DirectArgs(n, g, scopes, c, v.cdr);
    var (p, ws, d1) := Args(n, g', d, args.code);
    assert Eval(n, g', d, Func(f)) == (Value(Func(f)), d);
    assert Eval(n, g', d, Cons(Func(f), args.code)) ==
           if p.Value? then Funcall(n, g', d1, f, ws) else (p, d1);
    if o.Value? {
      GrowsNot(cs, Ok(NIL));
      SettingKept(nb, news, g, g', cs, scopes, c, d, NIL, cs, o, c1, p, d1);
      AppliedCall(n, nb, news, g, g', cs, scopes, c1, d1, lam, vs);
      var (o2, c2) := DirectInvoke(n, g, scopes, c1, lam, vs);
      var (p2, d2) := Funcall(n, g', d1, f, vs);
      SimilarThen(nb, news, d, d1, o2, c2, p2, d2);
    }
  }

  /** What applying a lambda form to values stands for, arity check included. */
  function DirectInvoke(n: nat, g: Globals, scopes: seq<Scope>, c: Context, lam: Val, vs: seq<Val>)
    : (Outcome, Context)
  {
    if |vs| != |Params(lam)| then (ArityError(FuncObj(|Params(lam)|, NIL, NIL), vs), c)
    else DirectCall(n, g, scopes, c, lam, vs)
  }

  lemma {:induction false} AppliedCall(n: nat, nb: nat, news: set<Val>, g: Globals, g': Globals, cs: CState,
                                       scopes: seq<Scope>, c: Context, d: Context, lam: Val, vs: seq<Val>)
    requires Setting(nb, news, g, g', cs, scopes, c, d)
    requires lam.Cons? && Lambda(cs, lam).0.Ok? && Linked(news, g', cs, Lambda(cs, lam).1)
    requires LocalAll(BodyOf(lam)) && Clean(nb, lam) && AllClean(nb, vs)
    ensures var (o, c') := DirectInvoke(n, g, scopes, c, lam, vs);
            var (p, d') := Funcall(n, g', d, |cs.funs|, vs);
            Similar(nb, news, d, o, c', p, d')
    decreases n, Size(lam), 2
  {
    if |vs| == |Params(lam)| {
      LambdaSim(n, nb, news, g, g', cs, scopes, c, d, lam, vs);
    } else {
      hide Setting, Agree, Untouched, Linked, Lambda, Forms, LocalAll, Ready, Params, BodyOf, Clean, AllClean;
      LambdaShape(news, g', cs, lam);
      SettingAgrees(nb, news, g, g', cs, scopes, c, d);
      var fn := g'.funs[|cs.funs|];
      CleanArityError(nb, fn, vs);
      assert ArityError(fn, vs) == ArityError(FuncObj(|Params(lam)|, NIL, NIL), vs);
      SimilarSame(nb, news, c, d, ArityError(fn, vs));
    }
  }

  /** def_conditional. */
  lemma {:induction false} IfSim(n: nat, nb: nat, news: set<Val>, g: Globals, g': Globals, cs: CState,
                                 scopes: seq<Scope>, c: Context, d: Context, v: Val)
    requires Setting(nb, news, g, g', cs, scopes, c, d) && v.Cons? && v.car == IF
    requires Form(cs, v).0.Ok? && Linked(news, g', cs, Form(cs, v).1)
    requires Local(v) && Clean(nb, v)
    ensures var (o, c') := Direct(n, g, scopes, c, v);
            var (p, d') := Eval(n, g', d, Form(cs, v).0.code);
            Similar(nb, news, d, o, c', p, d')
    decreases n, Size(v), 1
  {
    hide Setting, Agree, Untouched, Linked, Lambda, Forms, Funcall, LocalAll, Ready, Nth, Form, Local, Branch, Elements;
    IfForm(cs, v);
    var t, y, e := Nth(v, 1), Nth(v, 2), Nth(v, 3);
    var (test, cs1) := Form(cs, t);
    var (yes, cs2) := Lambda(cs1, Branch(y));
    var (no, cs3) := Lambda(cs2, Branch(e));
    SizeOfFour(v);
    IfParts(nb, v);
    FormGrows(cs, t);
    LambdaGrows(cs1, Branch(y));
    LambdaGrows(cs2, Branch(e));
    GrowsThen(cs1, yes.code, cs2, no, cs3);
    LinkedSplit(news, g', cs, test.code, cs1, no, cs3);
    LinkedSplit(news, g', cs1, yes.code, cs2, no, cs3);
    LambdaShape(news, g', cs1, Branch(y));
    LambdaShape(news, g', cs2, Branch(e));
    FormSim(n, nb, news, g, g', cs, scopes, c, d, t);
    var (o, c1) := Direct(n, g, scopes, c, t);
    var (p, d1) := Eval(n, g', d, test.code);
    IfCode(n, g', d, test.code, yes.code, no.code);
    if o.Value? {
      SettingKept(nb, news, g, g', cs, scopes, c, d, test.code, cs1, o, c1, p, d1);
      if o.v == NIL {
        GrowsThen(cs, test.code, cs1, yes, cs2);
        SettingKept(nb, news, g, g', cs, scopes, c, d, yes.code, cs2, o, c1, p, d1);
        BranchSim(n, nb, news, g, g', cs2, scopes, c1, d1, e);
        var (o2, c2) := DirectCall(n, g, scopes, c1, Branch(e), []);
        var (p2, d2) := Funcall(n, g', d1, |cs2.funs|, []);
        SimilarThen(nb, news, d, d1, o2, c2, p2, d2);
      } else {
        BranchSim(n, nb, news, g, g', cs1, scopes, c1, d1, y);
        var (o2, c2) := DirectCall(n, g, scopes, c1, Branch(y), []);
        var (p2, d2) := Funcall(n, g', d1, |cs1.funs|, []);
        SimilarThen(nb, news, d, d1, o2, c2, p2, d2);
      }
    }
  }

  lemma IfForm(cs: CState, v: Val)
    requires v.Cons? && v.car == IF && Form(cs, v).0.Ok?
    ensures Proper(v) && |Elements(v)| == 4
    ensures var (test, cs1) := Form(cs, Nth(v, 1));
            var (yes, cs2) := Lambda(cs1, Branch(Nth(v, 2)));
            var (no, cs3) := Lambda(cs2, Branch(Nth(v, 3)));
            && test.Ok? && yes.Ok? && no.Ok?
            && Form(cs, v) == (Ok(ListOf([IF, test.code, yes.code, no.code])), cs3)
  {
    hide Lambda, Proper, Elements, Nth, ListOf;
    assert Form(cs, v) == Conditional(cs, v);
  }

  lemma IfParts(nb: nat, v: Val)
    requires v.Cons? && v.car == IF && Proper(v) && |Elements(v)| == 4 && Local(v) && Clean(nb, v)
    ensures forall k | 1 <= k < 4 :: Local(Nth(v, k)) && Clean(nb, Nth(v, k))
  {
    hide Clean, Elements;
    ListOfFour(v);
    var a, b, e := Nth(v, 1), Nth(v, 2), Nth(v, 3);
    assert v.cdr == Cons(a, Cons(b, Cons(e, NIL)));
    assert LocalAll(v.cdr);
    assert LocalAll(Cons(b, Cons(e, NIL)));
    assert LocalAll(Cons(e, NIL));
    CleanNth(nb, v, 1);
    CleanNth(nb, v, 2);
    CleanNth(nb, v, 3);
    forall k | 1 <= k < 4 ensures Local(Nth(v, k)) && Clean(nb, Nth(v, k)) {
      assert k == 1 || k == 2 || k == 3;
    }
  }

  /** Evaluating a compiled conditional. */
  lemma IfCode(n: nat, g: Globals, d: Context, test: Val, yes: Val, no: Val)
    requires yes.Func? && no.Func?
    ensures var (p, d1) := Eval(n, g, d, test);
            Eval(n, g, d, ListOf([IF, test, yes, no])) ==
            if !p.Value? then (p, d1)
            else Funcall(n, g, d1, if p.v == NIL then no.fid else yes.fid, [])
  {
    hide Funcall, Apply;
    var vs := [IF, test, yes, no];
    assert vs[1..] == [test, yes, no] && vs[1..][1..] == [yes, no];
    assert [yes, no][1..] == [no] && [no][1..] == [];
    var code := ListOf(vs);
    assert ListOf([no]) == Cons(no, NIL);
    assert ListOf([yes, no]) == Cons(yes, ListOf([no]));
    assert ListOf(vs[1..]) == Cons(test, ListOf([yes, no]));
    assert code == Cons(IF, Cons(test, Cons(yes, Cons(no, NIL))));
    assert Nth(code, 1) == test;
    assert Nth(code, 2) == Nth(code.cdr, 1) == yes;
    assert Nth(code, 3) == Nth(code.cdr, 2) == Nth(code.cdr.cdr, 1) == no;
  }

  /** Calling a branch's function object is evaluating the branch. */
  lemma {:induction false} BranchSim(n: nat, nb: nat, news: set<Val>, g: Globals, g': Globals, cs: CState,
                                     scopes: seq<Scope>, c: Context, d: Context, x: Val)
    requires Setting(nb, news, g, g', cs, scopes, c, d)
    requires Lambda(cs, Branch(x)).0.Ok? && Linked(news, g', cs, Lambda(cs, Branch(x)).1)
    requires Local(x) && Clean(nb, x)
    ensures DirectCall(n, g, scopes, c, Branch(x), []) ==
            if n == 0 then (Deep, c) else Direct(n - 1, g, scopes, c, x)
    ensures var (o, c') := DirectCall(n, g, scopes, c, Branch(x), []);
            var (p, d') := Funcall(n, g', d, |cs.funs|, []);
            Similar(nb, news, d, o, c', p, d')
    decreases n, Size(x) + 3, 2
  {
    hide Setting, Agree, Untouched, Linked, Lambda, Funcall, Local, Direct;
    var b := Branch(x);
    assert b.cdr == Cons(NIL, Cons(x, NIL));
    assert Nth(b, 1) == Nth(b.cdr, 0) == NIL;
    assert Params(b) == [] && BodyOf(b) == Cons(x, NIL);
    assert Clean(nb, Cons(x, NIL));
    assert Clean(nb, Cons(NIL, Cons(x, NIL)));
    LambdaSim(n, nb, news, g, g', cs, scopes, c, d, b, []);
    if n > 0 {
      var (o, c1) := Direct(n - 1, g, scopes, c, x);
      assert o.Value? ==> DirectBody(n - 1, g, scopes, c1, o.v, NIL) == (Value(o.v), c1);
      assert DirectBody(n - 1, g, scopes, c, NIL, Cons(x, NIL)) == (o, c1);
    }
  }

  // --------------------------------------------------------------------- the theorem

  /** The frame ids the compiler hands out between two states. */
  ghost function NewIds(cs: CState, cs': CState): (ids: set<Val>)
    ensures forall m: nat {:trigger FrameId(m)} | cs.nextId <= m < cs'.nextId :: FrameId(m) in ids
    ensures forall id | id in ids ::
              exists m: nat {:trigger FrameId(m)} :: cs.nextId <= m < cs'.nextId && id == FrameId(m)
  {
    set m: nat | cs.nextId <= m < cs'.nextId :: FrameId(m)
  }

  /** Compilation preserves meaning. For every top-level form whose lambdas are
      applied where they are written, a successful compilation yields code whose
      evaluation, in the function table the compilation left, has the outcome of
      evaluating the source form directly in the table it found, at every depth.
      The two runs leave the same frames on every stack that existed, and a
      normal return leaves the stacks the compilation introduced as they were. */
  lemma {:induction false} CompilationPreservesMeaning(n: nat, g: Globals, cs: CState, c: Context, v: Val)
    requires cs.lexicals == [] && cs.funs == g.funs
    requires Form(cs, v).0.Ok? && Local(v) && Clean(|g.funs|, v)
    requires WorldOk(|g.funs|, NewIds(cs, Form(cs, v).1), g)
    requires forall id :: id !in NewIds(cs, Form(cs, v).1) ==> FramesClean(|g.funs|, Stack(c, id))
    ensures var (r, cs') := Form(cs, v);
            var (o, c') := Direct(n, g, [], c, v);
            var (p, d') := Eval(n, g.(funs := cs'.funs), c, r.code);
            && p == o && cs'.lexicals == []
            && (forall id :: id !in NewIds(cs, cs') ==> Stack(d', id) == Stack(c', id))
            && (o.Value? ==> forall id :: id in NewIds(cs, cs') ==> Stack(d', id) == Stack(c, id))
  {
    hide Form, Local, Clean, Direct, Eval, FramesClean;
    var (r, cs') := Form(cs, v);
    var g' := g.(funs := cs'.funs);
    var news := NewIds(cs, cs');
    FormGrows(cs, v);
    assert SameWorld(|g.funs|, g, g');
    assert Agree(|g.funs|, news, c, c);
    assert Linked(news, g', cs, cs');
    assert Bound(|g.funs|, news, cs, [], c);
    FormSim(n, |g.funs|, news, g, g', cs, [], c, c, v);
    var (o, c') := Direct(n, g, [], c, v);
    var (p, d') := Eval(n, g', c, r.code);
    assert Agree(|g.funs|, news, c', d');
    forall id | id !in news ensures Stack(d', id) == Stack(c', id) {
      assert Stack(c', id) == Stack(d', id);
    }
  }
}
