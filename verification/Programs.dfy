// What some families of programs compute, told from their text alone: compiled,
// evaluated, and no reference semantics between the text and the result.

module Programs {
  import opened Options
  import opened Lisp
  import opened Evaluator
  import opened Compiler
  import opened Source
  import opened Independence
  import opened Simulation
  import opened Checks
  import opened Calls

  /** Compiled and evaluated, if it compiles. */
  function Run(n: nat, g: Globals, cs: CState, c: Context, v: Val): Option<Outcome> {
    var (r, cs') := Form(cs, v);
    if r.Ok? then Some(Eval(n, g.(funs := cs'.funs), c, r.code).0) else None
  }

  /** The compiler is at top level and knows the evaluator's functions, and what
      exists does not refer to what is about to be compiled. */
  ghost predicate Ready(g: Globals, cs: CState, c: Context, v: Val) {
    && cs.lexicals == [] && cs.funs == g.funs
    && WorldOk(|g.funs|, NewIds(cs, Form(cs, v).1), g)
    && forall id :: id !in NewIds(cs, Form(cs, v).1) ==> FramesClean(|g.funs|, Stack(c, id))
  }

  lemma RunIsDirect(n: nat, g: Globals, cs: CState, c: Context, v: Val)
    requires Ready(g, cs, c, v) && Local(v) && Clean(|g.funs|, v) && Check(cs.nextId, [], v).Fine?
    ensures Run(n, g, cs, c, v) == Some(Direct(n, g, [], c, v).0)
  {
    hide Form, Local, Clean, Direct, Eval, FramesClean, Check, WorldOk;
    assert ScopesOf(cs) == [];
    EndIsDecided(cs, v);
    CompilationPreservesMeaning(n, g, cs, c, v);
  }

  // --------------------------------------------------------------- lambda calls

  /** ((:lambda (p ...) b ...) a ...) */
  function Applied(params: seq<Val>, body: seq<Val>, args: seq<Val>): Val {
    Cons(LambdaForm(params, body), ListOf(args))
  }

  lemma QuotedParts(v: Val)
    ensures Nth(Quoted(v), 1) == v && Proper(Quoted(v)) && |Elements(Quoted(v))| == 2
  {
    assert Nth(Quoted(v), 1) == Nth(Cons(v, NIL), 0);
    assert Elements(Cons(v, NIL)) == [v] + Elements(NIL);
    assert Proper(NIL) && Proper(Cons(v, NIL));
  }

  lemma QuotedIsFine(next: nat, scopes: seq<seq<Val>>, v: Val)
    ensures Check(next, scopes, Quoted(v)) == Fine(next)
  {
    QuotedParts(v);
  }

  lemma {:induction false} QuotedListIsFine(next: nat, scopes: seq<seq<Val>>, vs: seq<Val>)
    ensures CheckForms(next, scopes, ListOf(AllQuoted(vs))) == Fine(next)
    decreases |vs|
  {
    hide Check;
    if vs != [] {
      QuotedIsFine(next, scopes, vs[0]);
      assert AllQuoted(vs)[1..] == AllQuoted(vs[1..]);
      QuotedListIsFine(next, scopes, vs[1..]);
    }
  }

  /** Applying a lambda to quoted objects compiles as its body does. */
  lemma AppliedIsFine(next: nat, scopes: seq<seq<Val>>, params: seq<Val>, body: seq<Val>, vs: seq<Val>)
    requires ParameterList(params) && IdFits(next)
    requires CheckForms(next + 1, scopes + if params == [] then [] else [params], ListOf(body)).Fine?
    ensures Check(next, scopes, Applied(params, body, AllQuoted(vs))) ==
            CheckForms(next + 1, scopes + if params == [] then [] else [params], ListOf(body))
  {
    hide IdFits, ParameterList, CheckForms, ListOf, AllQuoted;
    var lam := LambdaForm(params, body);
    LambdaFormVerdict(next, scopes, params, body);
    var head := Check(next, scopes, lam);
    QuotedListIsFine(head.next, scopes, vs);
    ListIsList(AllQuoted(vs));
    assert CheckList(head.next, scopes, ListOf(AllQuoted(vs))) == Fine(head.next);
    CallCheck(next, scopes, lam, ListOf(AllQuoted(vs)));
  }

  lemma ListIsList(vs: seq<Val>)
    ensures IsList(ListOf(vs))
  {
  }

  lemma CallCheck(next: nat, scopes: seq<seq<Val>>, lam: Val, args: Val)
    requires lam.Cons? && lam.car == LAMBDA && Check(next, scopes, lam).Fine?
    ensures Check(next, scopes, Cons(lam, args)) == CheckList(Check(next, scopes, lam).next, scopes, args)
  {
    hide CheckList, CheckLambda;
  }

  lemma {:induction false} DirectQuotedArgs(n: nat, g: Globals, scopes: seq<Scope>, c: Context, vs: seq<Val>)
    ensures DirectArgs(n, g, scopes, c, ListOf(AllQuoted(vs))) == (Value(NIL), vs, c)
    decreases |vs|
  {
    hide Direct;
    if vs != [] {
      DirectQuoted(n, g, scopes, c, vs[0]);
      assert AllQuoted(vs)[1..] == AllQuoted(vs[1..]);
      DirectQuotedArgs(n, g, scopes, c, vs[1..]);
      assert [vs[0]] + vs[1..] == vs;
    }
  }

  lemma DirectQuoted(n: nat, g: Globals, scopes: seq<Scope>, c: Context, v: Val)
    ensures Direct(n, g, scopes, c, Quoted(v)) == (Value(v), c)
  {
    QuotedParts(v);
  }

  lemma DirectApplied(n: nat, g: Globals, scopes: seq<Scope>, c: Context, params: seq<Val>, body: seq<Val>, vs: seq<Val>)
    requires |vs| == |params|
    ensures Direct(n + 1, g, scopes, c, Applied(params, body, AllQuoted(vs))) ==
            DirectBody(n, g, Bind(scopes, params, vs), c, NIL, ListOf(body))
  {
    hide DirectBody, DirectArgs, ListOf, AllQuoted, Nth, BodyOf, Elements;
    LambdaFormParts(params, body);
    DirectQuotedArgs(n + 1, g, scopes, c, vs);
    assert LambdaForm(params, body).Cons?;
  }

  lemma DirectOne(n: nat, g: Globals, scopes: seq<Scope>, c: Context, v: Val)
    ensures DirectBody(n, g, scopes, c, NIL, ListOf([v])) == Direct(n, g, scopes, c, v)
  {
    hide Direct;
    assert [v][1..] == [] && ListOf([]) == NIL && ListOf([v]) == Cons(v, NIL);
    assert forall last, c1 :: DirectBody(n, g, scopes, c1, last, NIL) == (Value(last), c1);
  }

  lemma {:induction false} CleanList(nb: nat, vs: seq<Val>)
    ensures Clean(nb, ListOf(vs)) <==> AllClean(nb, vs)
  {
    if vs != [] {
      CleanList(nb, vs[1..]);
      assert forall v :: v in vs <==> v == vs[0] || v in vs[1..];
    }
  }

  lemma {:induction false} QuotedAreClean(nb: nat, vs: seq<Val>)
    requires AllClean(nb, vs)
    ensures Clean(nb, ListOf(AllQuoted(vs)))
  {
    CleanList(nb, AllQuoted(vs));
    forall v | v in AllQuoted(vs) ensures Clean(nb, v) {
      var i :| 0 <= i < |vs| && v == Quoted(vs[i]);
      assert vs[i] in vs;
    }
  }

  lemma {:induction false} QuotedAreLocal(vs: seq<Val>)
    ensures LocalAll(ListOf(AllQuoted(vs)))
    decreases |vs|
  {
    if vs != [] {
      assert AllQuoted(vs)[1..] == AllQuoted(vs[1..]);
      QuotedAreLocal(vs[1..]);
    }
  }

  lemma AppliedIsCleanAndLocal(nb: nat, params: seq<Val>, body: seq<Val>, vs: seq<Val>)
    requires AllClean(nb, params) && AllClean(nb, body) && AllClean(nb, vs) && LocalAll(ListOf(body))
    ensures Clean(nb, Applied(params, body, AllQuoted(vs))) && Local(Applied(params, body, AllQuoted(vs)))
  {
    hide ListOf, AllQuoted, Nth, Elements;
    LambdaFormParts(params, body);
    CleanList(nb, params);
    CleanList(nb, body);
    assert Clean(nb, Cons(ListOf(params), ListOf(body)));
    assert Clean(nb, LAMBDA) && Clean(nb, LambdaForm(params, body));
    QuotedAreClean(nb, vs);
    QuotedAreLocal(vs);
  }

  // -------------------------------------------------------------- nested lambdas

  /** Lambdas inside each other, each applied where it is written to quoted
      objects, and a symbol in the middle. */
  function Nested(levels: seq<Scope>, x: Val): Val {
    if levels == [] then x
    else Applied(levels[0].params, [Nested(levels[1..], x)], AllQuoted(levels[0].args))
  }

  /** So many frame numbers from `next` on are short enough. */
  ghost predicate IdsFit(next: nat, count: nat) { forall m: nat | next <= m < next + count :: IdFits(m) }

  /** Parameter lists with as many arguments. */
  ghost predicate WellFormed(nb: nat, levels: seq<Scope>) {
    forall i | 0 <= i < |levels| ::
      && ParameterList(levels[i].params) && |levels[i].args| == |levels[i].params|
      && LEX_REF !in levels[i].params && AllClean(nb, levels[i].args)
  }

  function Enter(outer: seq<Scope>, levels: seq<Scope>): seq<Scope>
    decreases |levels|
  {
    if levels == [] then outer else Enter(Bind(outer, levels[0].params, levels[0].args), levels[1..])
  }

  lemma WellFormedTail(nb: nat, levels: seq<Scope>)
    requires WellFormed(nb, levels) && levels != []
    ensures WellFormed(nb, levels[1..])
    ensures ParameterList(levels[0].params) && |levels[0].args| == |levels[0].params|
    ensures LEX_REF !in levels[0].params && AllClean(nb, levels[0].args)
  {
    hide ParameterList, AllClean;
    assert forall i | 0 <= i < |levels| - 1 :: levels[1..][i] == levels[i + 1];
  }

  lemma {:induction false} NestedIsFine(next: nat, scopes: seq<seq<Val>>, nb: nat, levels: seq<Scope>, x: Val)
    requires WellFormed(nb, levels) && x.Sym? && !Binds(scopes, LEX_REF)
    requires IdsFit(next, |levels|)
    ensures Check(next, scopes, Nested(levels, x)).Fine?
    decreases |levels|
  {
    hide IdFits, ParameterList, AllClean, WellFormed, Check;
    if levels == [] {
      SymbolIsFine(next, scopes, x);
    } else {
      WellFormedTail(nb, levels);
      var params := levels[0].params;
      var scopes' := scopes + if params == [] then [] else [params];
      NotBoundInside(scopes, params);
      NestedIsFine(next + 1, scopes', nb, levels[1..], x);
      var body := Nested(levels[1..], x);
      assert ListOf([body]) == Cons(body, NIL) by { assert [body][1..] == [] && ListOf([]) == NIL; }
      OneVerdict(next + 1, scopes', body);
      AppliedIsFine(next, scopes, params, [body], levels[0].args);
    }
  }

  lemma SymbolIsFine(next: nat, scopes: seq<seq<Val>>, x: Val)
    requires x.Sym? && !Binds(scopes, LEX_REF)
    ensures Check(next, scopes, x) == Fine(next)
  {
  }

  lemma NotBoundInside(scopes: seq<seq<Val>>, params: seq<Val>)
    requires !Binds(scopes, LEX_REF) && LEX_REF !in params
    ensures !Binds(scopes + if params == [] then [] else [params], LEX_REF)
  {
  }

  lemma {:induction false} NestedIsCleanAndLocal(nb: nat, levels: seq<Scope>, x: Val)
    requires WellFormed(nb, levels) && x.Sym? && x != LEX_REF
    ensures Clean(nb, Nested(levels, x)) && Local(Nested(levels, x))
    decreases |levels|
  {
    hide AllClean, WellFormed, Clean, Local, LocalAll;
    if levels == [] {
      SymbolIsClean(nb, x);
    } else {
      WellFormedTail(nb, levels);
      NestedIsCleanAndLocal(nb, levels[1..], x);
      ParametersAreClean(nb, levels[0].params);
      BodyOfOne(nb, Nested(levels[1..], x));
      AppliedIsCleanAndLocal(nb, levels[0].params, [Nested(levels[1..], x)], levels[0].args);
    }
  }

  lemma SymbolIsClean(nb: nat, x: Val)
    requires x.Sym? && x != LEX_REF
    ensures Clean(nb, x) && Local(x)
  {
  }

  lemma ParametersAreClean(nb: nat, params: seq<Val>)
    requires ParameterList(params) && LEX_REF !in params
    ensures AllClean(nb, params)
  {
  }

  lemma BodyOfOne(nb: nat, b: Val)
    requires Clean(nb, b) && Local(b)
    ensures AllClean(nb, [b]) && LocalAll(ListOf([b]))
  {
    hide Clean, Local;
    assert [b][1..] == [] && ListOf([]) == NIL && ListOf([b]) == Cons(b, NIL);
    assert LocalAll(NIL);
  }

  /** Direct evaluation enters one scope after another. */
  lemma {:induction false} NestedDirect(n: nat, g: Globals, outer: seq<Scope>, c: Context, nb: nat, levels: seq<Scope>, x: Val)
    requires WellFormed(nb, levels)
    ensures Direct(n + |levels|, g, outer, c, Nested(levels, x)) == Direct(n, g, Enter(outer, levels), c, x)
    decreases |levels|
  {
    hide Direct, WellFormed, ParameterList, AllClean, ListOf;
    if levels != [] {
      WellFormedTail(nb, levels);
      var params, args, body := levels[0].params, levels[0].args, Nested(levels[1..], x);
      DirectApplied(n + |levels| - 1, g, outer, c, params, [body], args);
      DirectOne(n + |levels| - 1, g, Bind(outer, params, args), c, body);
      NestedDirect(n, g, Bind(outer, params, args), c, nb, levels[1..], x);
    }
  }

  lemma {:induction false} NotShadowed(outer: seq<Scope>, levels: seq<Scope>, x: Val)
    requires forall i | 0 <= i < |levels| :: x !in levels[i].params
    ensures Lookup(Enter(outer, levels), x) == Lookup(outer, x)
    decreases |levels|
  {
    if levels != [] {
      var next := Bind(outer, levels[0].params, levels[0].args);
      assert forall i | 0 <= i < |levels[1..]| :: levels[1..][i] == levels[i + 1];
      NotShadowed(next, levels[1..], x);
      assert levels[0].params != [] ==> next[..|next| - 1] == outer;
    }
  }

  lemma {:induction false} InnermostFound(outer: seq<Scope>, nb: nat, levels: seq<Scope>, i: nat, k: nat)
    requires WellFormed(nb, levels) && i < |levels| && k < |levels[i].params|
    requires forall j | i < j < |levels| :: levels[i].params[k] !in levels[j].params
    ensures Lookup(Enter(outer, levels), levels[i].params[k]) == Some(levels[i].args[k])
    decreases |levels|
  {
    hide WellFormed, AllClean;
    WellFormedTail(nb, levels);
    var x, params, args := levels[i].params[k], levels[0].params, levels[0].args;
    var rest := levels[1..];
    assert forall j | 0 <= j < |rest| :: rest[j] == levels[j + 1];
    if i == 0 {
      NotShadowed(Bind(outer, params, args), rest, x);
      FirstPosition(params, k);
    } else {
      InnermostFound(Bind(outer, params, args), nb, rest, i - 1, k);
    }
  }

  lemma FirstPosition(params: seq<Val>, k: nat)
    requires ParameterList(params) && k < |params|
    ensures IndexOf(params, params[k]) == k
  {
    var i := IndexOf(params, params[k]);
    assert params[i] == params[k];
  }

  /** Lexical scope, from the text to the result: a symbol inside any number of
      lambdas is the argument at its position in the innermost parameter list that
      has it. */
  lemma InnermostArgumentIsReturned(n: nat, g: Globals, cs: CState, c: Context, levels: seq<Scope>, i: nat, k: nat)
    requires WellFormed(|g.funs|, levels) && i < |levels| && k < |levels[i].params|
    requires forall j | i < j < |levels| :: levels[i].params[k] !in levels[j].params
    requires IdsFit(cs.nextId, |levels|)
    requires Ready(g, cs, c, Nested(levels, levels[i].params[k]))
    ensures Run(n + |levels|, g, cs, c, Nested(levels, levels[i].params[k])) == Some(Value(levels[i].args[k]))
  {
    hide IdsFit, WellFormed, Ready, Run, Nested, Enter, Lookup;
    var x := levels[i].params[k];
    ParameterIsSymbol(|g.funs|, levels, i, k);
    NestedIsFine(cs.nextId, [], |g.funs|, levels, x);
    NestedIsCleanAndLocal(|g.funs|, levels, x);
    RunIsDirect(n + |levels|, g, cs, c, Nested(levels, x));
    NestedDirect(n, g, [], c, |g.funs|, levels, x);
    InnermostFound([], |g.funs|, levels, i, k);
  }

  lemma ParameterIsSymbol(nb: nat, levels: seq<Scope>, i: nat, k: nat)
    requires WellFormed(nb, levels) && i < |levels| && k < |levels[i].params|
    ensures levels[i].params[k].Sym? && levels[i].params[k] != LEX_REF
  {
    assert levels[i].params[k] in levels[i].params;
  }

  /** And one that no parameter list has is its global value, or unbound. */
  lemma FreeSymbolIsGlobal(n: nat, g: Globals, cs: CState, c: Context, levels: seq<Scope>, x: Val)
    requires WellFormed(|g.funs|, levels) && x.Sym? && x != LEX_REF
    requires IdsFit(cs.nextId, |levels|) && forall j | 0 <= j < |levels| :: x !in levels[j].params
    requires Ready(g, cs, c, Nested(levels, x))
    ensures Run(n + |levels|, g, cs, c, Nested(levels, x)) ==
            Some(if x.id in g.syms then Value(g.syms[x.id]) else Raise(Exn("eval", "unbound", x)))
  {
    hide IdsFit, WellFormed, Ready, Run, Nested, Enter;
    NestedIsFine(cs.nextId, [], |g.funs|, levels, x);
    NestedIsCleanAndLocal(|g.funs|, levels, x);
    RunIsDirect(n + |levels|, g, cs, c, Nested(levels, x));
    NestedDirect(n, g, [], c, |g.funs|, levels, x);
    NotShadowed([], levels, x);
  }

  // ------------------------------------------------------- bodies and conditionals

  lemma {:induction false} QuotedBody(n: nat, g: Globals, scopes: seq<Scope>, c: Context, last: Val, vs: seq<Val>)
    ensures DirectBody(n, g, scopes, c, last, ListOf(AllQuoted(vs))) ==
            (Value(if vs == [] then last else vs[|vs| - 1]), c)
    decreases |vs|
  {
    hide Direct;
    if vs != [] {
      DirectQuoted(n, g, scopes, c, vs[0]);
      assert AllQuoted(vs)[1..] == AllQuoted(vs[1..]);
      QuotedBody(n, g, scopes, c, vs[0], vs[1..]);
    }
  }

  /** A lambda's value is its last form's, and :nil when it has none. */
  lemma LastValueIsReturned(n: nat, g: Globals, cs: CState, c: Context, params: seq<Val>, vs: seq<Val>, args: seq<Val>)
    requires WellFormed(|g.funs|, [Scope(params, args)]) && AllClean(|g.funs|, vs) && IdFits(cs.nextId)
    requires Ready(g, cs, c, Applied(params, AllQuoted(vs), AllQuoted(args)))
    ensures Run(n + 1, g, cs, c, Applied(params, AllQuoted(vs), AllQuoted(args))) ==
            Some(Value(if vs == [] then NIL else vs[|vs| - 1]))
  {
    hide IdFits, WellFormed, Ready, Run, Applied, AllClean, Clean, Direct, Local, LocalAll, DirectBody;
    var nb, v := |g.funs|, Applied(params, AllQuoted(vs), AllQuoted(args));
    WellFormedTail(nb, [Scope(params, args)]);
    QuotedListIsFine(cs.nextId + 1, [] + if params == [] then [] else [params], vs);
    AppliedIsFine(cs.nextId, [], params, AllQuoted(vs), args);
    ParametersAreClean(nb, params);
    QuotedAreClean(nb, vs);
    CleanList(nb, AllQuoted(vs));
    QuotedAreLocal(vs);
    AppliedIsCleanAndLocal(nb, params, AllQuoted(vs), args);
    RunIsDirect(n + 1, g, cs, c, v);
    DirectApplied(n, g, [], c, params, AllQuoted(vs), args);
    QuotedBody(n, g, Bind([], params, args), c, NIL, vs);
  }

  /** (:if t a b) */
  function IfForm(t: Val, a: Val, b: Val): Val { Cons(IF, Cons(t, Cons(a, Cons(b, NIL)))) }

  lemma IfParts(t: Val, a: Val, b: Val)
    ensures var v := IfForm(t, a, b);
            Proper(v) && |Elements(v)| == 4 && Nth(v, 1) == t && Nth(v, 2) == a && Nth(v, 3) == b
  {
    var v := IfForm(t, a, b);
    assert Proper(NIL) && Proper(v.cdr.cdr.cdr) && Proper(v.cdr.cdr) && Proper(v.cdr);
    assert |Elements(v.cdr.cdr.cdr)| == 1 && |Elements(v.cdr.cdr)| == 2 && |Elements(v.cdr)| == 3;
    assert Nth(v, 1) == Nth(v.cdr, 0);
    assert Nth(v, 2) == Nth(v.cdr, 1) == Nth(v.cdr.cdr, 0);
    assert Nth(v, 3) == Nth(v.cdr, 2) == Nth(v.cdr.cdr, 1) == Nth(v.cdr.cdr.cdr, 0);
  }

  /** The verdict on a conditional: the test, then each branch as the body of a
      lambda without parameters. */
  lemma IfVerdict(next: nat, scopes: seq<seq<Val>>, t: Val, a: Val, b: Val)
    ensures Check(next, scopes, IfForm(t, a, b)) ==
            var test := Check(next, scopes, t);
            if test.Fails? then test
            else
              var yes := Check(test.next, scopes, LambdaForm([], [a]));
              if yes.Fails? then yes else Check(yes.next, scopes, LambdaForm([], [b]))
  {
    hide Check, CheckLambda;
    IfParts(t, a, b);
    BranchIsLambda(a);
    BranchIsLambda(b);
    IsConditional(next, scopes, IfForm(t, a, b));
    forall m: nat, x ensures CheckLambda(m, scopes, LambdaForm([], [x])) == Check(m, scopes, LambdaForm([], [x])) {
      LambdaIsChecked(m, scopes, LambdaForm([], [x]));
    }
  }

  lemma BranchIsLambda(a: Val)
    ensures Branch(a) == LambdaForm([], [a])
  {
    assert [a][1..] == [] && ListOf([]) == NIL && ListOf([a]) == Cons(a, NIL);
  }

  lemma IsConditional(next: nat, scopes: seq<seq<Val>>, v: Val)
    requires v.Cons? && v.car == IF
    ensures Check(next, scopes, v) == CheckConditional(next, scopes, v)
  {
    hide CheckConditional;
  }

  lemma DirectIf(n: nat, g: Globals, c: Context, t: Val, a: Val, b: Val)
    ensures Direct(n + 1, g, [], c, IfForm(Quoted(t), a, b)) == Direct(n, g, [], c, if t == NIL then b else a)
  {
    IfParts(Quoted(t), a, b);
    DirectQuoted(n + 1, g, [], c, t);
  }

  /** The conditional with the form to be chosen in the place that t chooses. */
  function Choosing(t: Val, chosen: Val, other: Val): Val {
    if t == NIL then IfForm(Quoted(t), other, chosen) else IfForm(Quoted(t), chosen, other)
  }

  /** A conditional that compiles has the value of its first branch for every
      test but :nil, and then of its second; what the other branch would do, raise or
      run for ever, does not show. */
  lemma OneBranchIsRun(n: nat, g: Globals, cs: CState, c: Context, t: Val, r: Val, other: Val)
    requires Clean(|g.funs|, t) && Clean(|g.funs|, r) && Clean(|g.funs|, other) && Local(other)
    requires Ready(g, cs, c, Choosing(t, Quoted(r), other))
    ensures Run(n + 1, g, cs, c, Choosing(t, Quoted(r), other)) in {None, Some(Value(r))}
    ensures Run(n + 1, g, cs, c, Choosing(t, Quoted(r), other)).Some? <==>
            Check(cs.nextId, [], Choosing(t, Quoted(r), other)).Fine?
  {
    hide Form, Eval, Direct, Check, Clean, Local;
    var v := Choosing(t, Quoted(r), other);
    assert ScopesOf(cs) == [];
    EndIsDecided(cs, v);
    if Check(cs.nextId, [], v).Fine? {
      IfIsCleanAndLocal(|g.funs|, t, r, other);
      RunIsDirect(n + 1, g, cs, c, v);
      if t == NIL { DirectIf(n, g, c, t, other, Quoted(r)); } else { DirectIf(n, g, c, t, Quoted(r), other); }
      DirectQuoted(n, g, [], c, r);
    }
  }

  lemma IfIsCleanAndLocal(nb: nat, t: Val, r: Val, other: Val)
    requires Clean(nb, t) && Clean(nb, r) && Clean(nb, other) && Local(other)
    ensures Clean(nb, Choosing(t, Quoted(r), other)) && Local(Choosing(t, Quoted(r), other))
  {
    QuotedCleanLocal(nb, t);
    QuotedCleanLocal(nb, r);
    hide Quoted;
    if t == NIL {
      FourCleanLocal(nb, Quoted(t), other, Quoted(r));
    } else {
      FourCleanLocal(nb, Quoted(t), Quoted(r), other);
    }
  }

  lemma QuotedCleanLocal(nb: nat, v: Val)
    requires Clean(nb, v)
    ensures Clean(nb, Quoted(v)) && Local(Quoted(v))
  {
    assert Clean(nb, NIL) && Clean(nb, Cons(v, NIL)) && Clean(nb, QUOTE);
  }

  lemma FourCleanLocal(nb: nat, t: Val, a: Val, b: Val)
    requires Clean(nb, t) && Clean(nb, a) && Clean(nb, b) && Local(t) && Local(a) && Local(b)
    ensures Clean(nb, IfForm(t, a, b)) && Local(IfForm(t, a, b))
  {
    assert Clean(nb, NIL) && Clean(nb, IF) && Clean(nb, Cons(b, NIL)) && Clean(nb, Cons(a, Cons(b, NIL)));
    assert Clean(nb, Cons(t, Cons(a, Cons(b, NIL))));
    assert LocalAll(NIL) && LocalAll(Cons(b, NIL)) && LocalAll(Cons(a, Cons(b, NIL)));
    assert LocalAll(Cons(t, Cons(a, Cons(b, NIL))));
  }

  // ------------------------------------------------------------- forms by their parts

  /** A quote form compiles exactly when it has one part, and is that part. */
  lemma QuoteMeans(n: nat, g: Globals, cs: CState, c: Context, parts: seq<Val>)
    ensures Run(n, g, cs, c, Cons(QUOTE, ListOf(parts))) == if |parts| == 1 then Some(Value(parts[0])) else None
  {
    hide ListOf, Elements, Proper;
    var v := Cons(QUOTE, ListOf(parts));
    ElementsOfList(parts);
    assert Proper(v) && Elements(v) == [QUOTE] + parts by { HeadOfList(QUOTE, ListOf(parts)); }
    NthIsElement(v, 1);
    if |parts| == 1 { assert ([QUOTE] + parts)[1] == parts[0]; }
  }

  lemma HeadOfList(h: Val, tail: Val)
    requires Proper(tail)
    ensures Proper(Cons(h, tail)) && Elements(Cons(h, tail)) == [h] + Elements(tail)
  {
  }

  /** A conditional compiles only if it has three parts. */
  lemma IfNeedsThree(cs: CState, parts: seq<Val>)
    requires |parts| != 3
    ensures var v := Cons(IF, ListOf(parts)); Form(cs, v) == (Err(Exn(":if", "arity", v)), cs)
  {
    hide ListOf, Elements, Proper, Lambda;
    var v := Cons(IF, ListOf(parts));
    ElementsOfList(parts);
    HeadOfList(IF, ListOf(parts));
  }

  /** What may stand in front of arguments: a symbol, a function, or a lambda form
      that compiles. */
  lemma OnlyFunctionsAreCalled(cs: CState, head: Val, args: Val)
    requires Settled(cs) && head !in {QUOTE, IF, LAMBDA} && !head.Sym? && !head.Func?
    requires head.Cons? ==> head.car != LAMBDA
    ensures !Form(cs, Cons(head, args)).0.Ok?
  {
    hide Form;
    EndIsDecided(cs, Cons(head, args));
  }
}
