// Which forms compile, told from the form alone: a check that makes no function
// objects and no code, against what compiling does. It says how a compilation
// ends and which lambdas a failed one leaves among the enclosing ones.

module Checks {
  import opened Options
  import opened Lisp
  import opened Numerals
  import opened Evaluator
  import opened Compiler
  import opened Source
  import opened Simulation
  import opened Addresses

  /** A raised exception, a failed assertion, or no return. */
  datatype Failure = Error | Stop | Forever

  /** The form compiles, and `next` is the next frame number; or its first failing
      part fails, inside lambdas with these parameter lists, outermost first. */
  datatype Verdict = Fine(next: nat) | Fails(why: Failure, inside: seq<seq<Val>>)

  predicate Binds(scopes: seq<seq<Val>>, s: Val) {
    exists i :: 0 <= i < |scopes| && s in scopes[i]
  }

  /** The verdict on a form, under the parameter lists of the enclosing lambdas. */
  function Check(next: nat, scopes: seq<seq<Val>>, v: Val): Verdict
    decreases Size(v), 2
  {
    if v.Sym? then
      if Binds(scopes, v) && Binds(scopes, LEX_REF) then Fails(Forever, []) else Fine(next)
    else if !v.Cons? then Fine(next)
    else
      match v.car
      case Cons(inner, _) =>
        var head := Check(next, scopes, v.car);
        if head.Fails? then head
        else if inner != LAMBDA then Fails(Error, [])
        else CheckList(head.next, scopes, v.cdr)
      case Key(_) =>
        if v.car == LAMBDA then CheckLambda(next, scopes, v)
        else if v.car == QUOTE then
          if Proper(v) && |Elements(v)| == 2 then Fine(next) else Fails(Error, [])
        else if v.car == IF then CheckConditional(next, scopes, v)
        else Fails(Error, [])
      case Sym(_) => CheckList(next, scopes, v)
      case Func(_) => CheckList(next, scopes, v)
      case _ => Fails(Error, [])
  }

  function CheckList(next: nat, scopes: seq<seq<Val>>, vs: Val): Verdict
    decreases Size(vs), 0
  {
    if IsList(vs) then CheckForms(next, scopes, vs) else Fails(Stop, [])
  }

  /** In order, up to the first that fails. */
  function CheckForms(next: nat, scopes: seq<seq<Val>>, vs: Val): Verdict
    decreases Size(vs), 0, 0
  {
    if !vs.Cons? then Fine(next)
    else
      var first := Check(next, scopes, vs.car);
      if first.Fails? then first else CheckForms(first.next, scopes, vs.cdr)
  }

  /** The parameter list a lambda adds: none when it is empty. */
  function Adds(lambda: Val): seq<seq<Val>> {
    if Elements(lambda) == [] then [] else [Elements(lambda)]
  }

  function CheckLambda(next: nat, scopes: seq<seq<Val>>, v: Val): Verdict
    requires v.Cons?
    decreases Size(v), 1
  {
    if LambdaError(v).Some? then Fails(Error, [])
    else if !IdFits(next) then Fails(Stop, [])
    else if !Proper(Nth(v, 1)) then Fails(Error, [])
    else
      var added := Adds(Nth(v, 1));
      match CheckList(next + 1, scopes + added, BodyOf(v))
      case Fine(n) => Fine(n)
      case Fails(why, inside) => Fails(why, added + inside)
  }

  function CheckConditional(next: nat, scopes: seq<seq<Val>>, v: Val): Verdict
    requires v.Cons?
    decreases Size(v), 1
  {
    if !Proper(v) || |Elements(v)| != 4 then Fails(Error, [])
    else
      SizeOfFour(v);
      var test := Check(next, scopes, Nth(v, 1));
      if test.Fails? then test
      else
        var yes := CheckLambda(test.next, scopes, Branch(Nth(v, 2)));
        if yes.Fails? then yes else CheckLambda(yes.next, scopes, Branch(Nth(v, 3)))
  }

  // ------------------------------------------------------------ against compiling

  /** The enclosing lambdas have been made. */
  predicate Settled(cs: CState) {
    forall i | 0 <= i < |cs.lexicals| :: cs.lexicals[i] < |cs.funs|
  }

  function ScopesOf(cs: CState): (scopes: seq<seq<Val>>)
    ensures |scopes| == |cs.lexicals|
  {
    seq(|cs.lexicals|, i requires 0 <= i < |cs.lexicals| => ParamsOf(cs.funs, cs.lexicals[i]))
  }

  /** A compilation from cs to cs' with result r went as the verdict says: the
      lambdas around the failing part have become enclosing lambdas. */
  ghost predicate Went(cs: CState, r: CResult, cs': CState, k: Verdict) {
    && Settled(cs') && cs.lexicals <= cs'.lexicals
    && match k
       case Fine(next) => r.Ok? && cs'.nextId == next && ScopesOf(cs') == ScopesOf(cs)
       case Fails(why, inside) =>
         && ScopesOf(cs') == ScopesOf(cs) + inside
         && (r.Err? <==> why == Error) && (r.Broken? <==> why == Stop) && (r.NoReturn? <==> why == Forever)
         && !r.Ok?
  }

  lemma {:induction false} BindsIsMapped(cs: CState, lexicals: seq<nat>, scopes: seq<seq<Val>>, s: Val)
    requires s.Sym? && |scopes| == |lexicals|
    requires forall i | 0 <= i < |lexicals| :: scopes[i] == ParamsOf(cs.funs, lexicals[i])
    ensures MapLexical(cs.funs, lexicals, s).Some? <==> Binds(scopes, s)
    decreases |lexicals|
  {
    hide ParamsOf;
    if lexicals != [] {
      var n := |lexicals| - 1;
      BindsIsMapped(cs, lexicals[..n], scopes[..n], s);
      if s in scopes[n] {
        assert Binds(scopes, s);
      } else {
        if Binds(scopes[..n], s) {
          var i :| 0 <= i < n && s in scopes[..n][i];
          assert s in scopes[i];
        }
        if Binds(scopes, s) {
          var i :| 0 <= i < |scopes| && s in scopes[i];
          assert s in scopes[..n][i];
        }
      }
    }
  }

  lemma KeptScopes(cs: CState, cs': CState)
    requires Settled(cs) && cs'.lexicals == cs.lexicals && |cs.funs| <= |cs'.funs|
    requires forall f | 0 <= f < |cs.funs| :: cs'.funs[f] == cs.funs[f]
    ensures Settled(cs') && ScopesOf(cs') == ScopesOf(cs)
  {
  }

  /** The head of an applied form compiles to a function exactly when it is a
      lambda form. */
  lemma HeadCode(cs: CState, v: Val)
    requires v.Cons? && Form(cs, v).0.Ok?
    ensures Form(cs, v).0.code.Func? <==> v.car == LAMBDA
  {
    hide Forms, Conditional, Lambda;
    match v.car
    case Key(_) =>
      if v.car == LAMBDA { LambdaCode(cs, v); } else if v.car == IF { ConditionalCode(cs, v); }
    case Sym(_) => FormsProper(cs, v);
    case Func(_) => FormsProper(cs, v);
    case _ =>
  }

  lemma LambdaCode(cs: CState, v: Val)
    requires v.Cons? && Lambda(cs, v).0.Ok?
    ensures Lambda(cs, v).0.code.Func?
  {
  }

  lemma ConditionalCode(cs: CState, v: Val)
    requires v.Cons? && Conditional(cs, v).0.Ok?
    ensures Conditional(cs, v).0.code.Cons?
  {
  }

  lemma WentThen(cs: CState, cs1: CState, next: nat, code: Val, r: CResult, cs2: CState, k: Verdict)
    requires Settled(cs) && Went(cs, Ok(code), cs1, Fine(next)) && Went(cs1, r, cs2, k)
    ensures Went(cs, r, cs2, k)
  {
  }

  lemma WentAs(cs: CState, r: CResult, r': CResult, cs': CState, k: Verdict)
    requires Went(cs, r, cs', k)
    requires (r.Ok? <==> r'.Ok?) && (r.Err? <==> r'.Err?) && (r.Broken? <==> r'.Broken?) && (r.NoReturn? <==> r'.NoReturn?)
    ensures Went(cs, r', cs', k)
  {
  }

  lemma WentNowhere(cs: CState, r: CResult, k: Verdict)
    requires Settled(cs)
    requires match k case Fine(next) => r.Ok? && next == cs.nextId
                     case Fails(why, inside) =>
                       inside == [] && !r.Ok? && (r.Err? <==> why == Error) &&
                       (r.Broken? <==> why == Stop) && (r.NoReturn? <==> why == Forever)
    ensures Went(cs, r, cs, k)
  {
    assert ScopesOf(cs) + [] == ScopesOf(cs);
  }

  /** Compiling goes as the check says: it succeeds exactly when the form is fine;
      otherwise it ends as the first failing part ends, and the lambdas with
      parameters around that part stay among the enclosing ones, and no others. */
  lemma {:induction false} FormGoesAsChecked(cs: CState, v: Val)
    requires Settled(cs)
    ensures Went(cs, Form(cs, v).0, Form(cs, v).1, Check(cs.nextId, ScopesOf(cs), v))
    decreases Size(v), 2
  {
    hide Went, Settled, ScopesOf, Lambda, Conditional, FormList, CheckLambda, CheckConditional, CheckList;
    var scopes := ScopesOf(cs);
    if v.Sym? {
      SymbolGoesAsChecked(cs, v);
    } else if !v.Cons? {
      WentNowhere(cs, Form(cs, v).0, Fine(cs.nextId));
    } else {
      match v.car
      case Cons(inner, _) =>
        var (head, cs1) := Form(cs, v.car);
        FormGoesAsChecked(cs, v.car);
        var k := Check(cs.nextId, scopes, v.car);
        WentMeans(cs, head, cs1, k);
        if head.Ok? {
          HeadCode(cs, v.car);
          if inner == LAMBDA {
            FormListGoesAsChecked(cs1, v.cdr);
            var (args, cs2) := FormList(cs1, v.cdr);
            WentThen(cs, cs1, k.next, head.code, args, cs2, CheckList(k.next, scopes, v.cdr));
            WentAs(cs, args, Form(cs, v).0, cs2, CheckList(k.next, scopes, v.cdr));
          } else {
            WentFails(cs, head.code, cs1, k.next);
          }
        }
      case Key(_) =>
        if v.car == LAMBDA { LambdaGoesAsChecked(cs, v); }
        else if v.car == QUOTE {
          WentNowhere(cs, Form(cs, v).0, Check(cs.nextId, scopes, v));
        }
        else if v.car == IF { ConditionalGoesAsChecked(cs, v); }
        else { WentNowhere(cs, Form(cs, v).0, Fails(Error, [])); }
      case Sym(_) => FormListGoesAsChecked(cs, v);
      case Func(_) => FormListGoesAsChecked(cs, v);
      case _ => WentNowhere(cs, Form(cs, v).0, Fails(Error, []));
    }
  }

  lemma WentMeans(cs: CState, r: CResult, cs': CState, k: Verdict)
    requires Went(cs, r, cs', k)
    ensures Settled(cs') && (r.Ok? <==> k.Fine?)
    ensures k.Fine? ==> cs'.nextId == k.next && ScopesOf(cs') == ScopesOf(cs)
  {
  }

  /** A success that is then refused: an exception with nothing left behind. */
  lemma WentFails(cs: CState, code: Val, cs1: CState, next: nat)
    requires Settled(cs) && Went(cs, Ok(code), cs1, Fine(next))
    ensures forall e :: Went(cs, Err(e), cs1, Fails(Error, []))
  {
    assert ScopesOf(cs) + [] == ScopesOf(cs);
  }

  lemma SymbolGoesAsChecked(cs: CState, s: Val)
    requires Settled(cs) && s.Sym?
    ensures Went(cs, Form(cs, s).0, Form(cs, s).1, Check(cs.nextId, ScopesOf(cs), s))
  {
    hide Went, Binds, MapLexical;
    BindsIsMapped(cs, cs.lexicals, ScopesOf(cs), s);
    BindsIsMapped(cs, cs.lexicals, ScopesOf(cs), LEX_REF);
    WentNowhere(cs, Form(cs, s).0, Check(cs.nextId, ScopesOf(cs), s));
  }

  lemma {:induction false} FormListGoesAsChecked(cs: CState, vs: Val)
    requires Settled(cs)
    ensures Went(cs, FormList(cs, vs).0, FormList(cs, vs).1, CheckList(cs.nextId, ScopesOf(cs), vs))
    decreases Size(vs), 0
  {
    hide Went;
    if IsList(vs) { FormsGoAsChecked(cs, vs); } else { WentNowhere(cs, Broken, Fails(Stop, [])); }
  }

  lemma {:induction false} FormsGoAsChecked(cs: CState, vs: Val)
    requires Settled(cs)
    ensures Went(cs, Forms(cs, vs).0, Forms(cs, vs).1, CheckForms(cs.nextId, ScopesOf(cs), vs))
    decreases Size(vs), 0, 0
  {
    hide Went, Settled, ScopesOf, Form, Check;
    if !vs.Cons? {
      WentNowhere(cs, Ok(NIL), Fine(cs.nextId));
    } else {
      var (first, cs1) := Form(cs, vs.car);
      FormGoesAsChecked(cs, vs.car);
      var k := Check(cs.nextId, ScopesOf(cs), vs.car);
      WentMeans(cs, first, cs1, k);
      if first.Ok? {
        FormsGoAsChecked(cs1, vs.cdr);
        var (rest, cs2) := Forms(cs1, vs.cdr);
        var k2 := CheckForms(k.next, ScopesOf(cs), vs.cdr);
        WentThen(cs, cs1, k.next, first.code, rest, cs2, k2);
        WentAs(cs, rest, Forms(cs, vs).0, cs2, k2);
      }
    }
  }

  /** Inside a lambda its parameter list is one more scope. */
  lemma LambdaScopes(cs: CState, lambda: Val)
    requires Settled(cs)
    ensures Settled(InLambda(cs, lambda))
    ensures ScopesOf(InLambda(cs, lambda)) == ScopesOf(cs) + Adds(lambda)
  {
    var cs0 := InLambda(cs, lambda);
    assert ParamsOf(cs0.funs, |cs.funs|) == Elements(lambda);
    forall i | 0 <= i < |cs.lexicals| ensures ParamsOf(cs0.funs, cs.lexicals[i]) == ParamsOf(cs.funs, cs.lexicals[i]) {
      assert cs0.funs[cs.lexicals[i]] == cs.funs[cs.lexicals[i]];
    }
  }

  lemma LambdaFails(cs: CState, lambda: Val, body: CResult, cs1: CState, why: Failure, inside: seq<seq<Val>>)
    requires Settled(cs) && Went(InLambda(cs, lambda), body, cs1, Fails(why, inside))
    ensures Went(cs, body, cs1, Fails(why, Adds(lambda) + inside))
  {
    LambdaScopes(cs, lambda);
    assert ScopesOf(cs) + Adds(lambda) + inside == ScopesOf(cs) + (Adds(lambda) + inside);
  }

  lemma LambdaEnds(cs: CState, lambda: Val, code: Val, cs1: CState, next: nat, f: nat)
    requires Settled(cs) && Went(InLambda(cs, lambda), Ok(code), cs1, Fine(next)) && f == |cs.funs|
    requires Grows(InLambda(cs, lambda), Ok(code), cs1)
    ensures Went(cs, Ok(Func(f)), CloseLambda(cs1, f, lambda, code), Fine(next))
  {
    GrowsLambda(cs, lambda, Ok(code), cs1, f);
    KeptScopes(cs, CloseLambda(cs1, f, lambda, code));
  }

  lemma {:induction false} LambdaGoesAsChecked(cs: CState, v: Val)
    requires Settled(cs) && v.Cons?
    ensures Went(cs, Lambda(cs, v).0, Lambda(cs, v).1, CheckLambda(cs.nextId, ScopesOf(cs), v))
    decreases Size(v), 1
  {
    hide Went, Settled, ScopesOf, FormList, CheckList, InLambda, CloseLambda, Adds, Grows, IdFits, LambdaError;
    if LambdaError(v).Some? {
      WentNowhere(cs, Lambda(cs, v).0, Fails(Error, []));
    } else {
      var lambda := Nth(v, 1);
      if !IdFits(cs.nextId) || !Proper(lambda) {
        CountedFailure(cs, Lambda(cs, v).0, CheckLambda(cs.nextId, ScopesOf(cs), v));
      } else {
        ProperLambda(v);
        var cs0 := InLambda(cs, lambda);
        LambdaScopes(cs, lambda);
        assert cs0.nextId == cs.nextId + 1 by { NextInLambda(cs, lambda); }
        FormListGoesAsChecked(cs0, v.cdr.cdr);
        var (body, cs1) := FormList(cs0, v.cdr.cdr);
        var k := CheckList(cs0.nextId, ScopesOf(cs0), BodyOf(v));
        WentMeans(cs0, body, cs1, k);
        if body.Ok? {
          FormListGrows(cs0, v.cdr.cdr);
          LambdaEnds(cs, lambda, body.code, cs1, k.next, |cs.funs|);
        } else {
          LambdaFails(cs, lambda, body, cs1, k.why, k.inside);
        }
      }
    }
  }

  lemma NextInLambda(cs: CState, lambda: Val)
    ensures InLambda(cs, lambda).nextId == cs.nextId + 1
  {
  }

  lemma ProperLambda(v: Val)
    requires v.Cons? && LambdaError(v).None?
    ensures v.cdr.Cons? && BodyOf(v) == v.cdr.cdr
  {
    assert |Elements(v)| == 1 + |Elements(v.cdr)|;
  }

  lemma CountedFailure(cs: CState, r: CResult, k: Verdict)
    requires Settled(cs) && k.Fails? && k.inside == [] && !r.Ok?
    requires (r.Err? <==> k.why == Error) && (r.Broken? <==> k.why == Stop) && (r.NoReturn? <==> k.why == Forever)
    ensures Went(cs, r, cs.(nextId := cs.nextId + 1), k)
  {
    assert ScopesOf(cs) + [] == ScopesOf(cs);
  }

  lemma {:induction false} ConditionalGoesAsChecked(cs: CState, v: Val)
    requires Settled(cs) && v.Cons?
    ensures Went(cs, Conditional(cs, v).0, Conditional(cs, v).1, CheckConditional(cs.nextId, ScopesOf(cs), v))
    decreases Size(v), 1
  {
    hide Went, Settled, ScopesOf, Form, Check, Lambda, CheckLambda, Nth, Branch, ListOf;
    var scopes := ScopesOf(cs);
    if !Proper(v) || |Elements(v)| != 4 {
      WentNowhere(cs, Conditional(cs, v).0, Fails(Error, []));
    } else {
      SizeOfFour(v);
      var (test, cs1) := Form(cs, Nth(v, 1));
      FormGoesAsChecked(cs, Nth(v, 1));
      var k1 := Check(cs.nextId, scopes, Nth(v, 1));
      WentMeans(cs, test, cs1, k1);
      if test.Ok? {
        var b2, b3 := Branch(Nth(v, 2)), Branch(Nth(v, 3));
        LambdaGoesAsChecked(cs1, b2);
        var (yes, cs2) := Lambda(cs1, b2);
        var k2 := CheckLambda(k1.next, scopes, b2);
        WentMeans(cs1, yes, cs2, k2);
        WentThen(cs, cs1, k1.next, test.code, yes, cs2, k2);
        if yes.Ok? {
          LambdaGoesAsChecked(cs2, b3);
          var (no, cs3) := Lambda(cs2, b3);
          var k3 := CheckLambda(k2.next, scopes, b3);
          WentThen(cs, cs2, k2.next, yes.code, no, cs3, k3);
          WentAs(cs, no, Conditional(cs, v).0, cs3, k3);
        }
      }
    }
  }

  // -------------------------------------------------------------- what follows

  /** Scope leaks exactly when the first failing part lies inside a lambda with
      parameters, and by exactly the lambdas it lies in. */
  lemma LeakIsExact(cs: CState, v: Val)
    requires Settled(cs)
    ensures var k := Check(cs.nextId, ScopesOf(cs), v);
            var inside := if k.Fails? then k.inside else [];
            && |Form(cs, v).1.lexicals| == |cs.lexicals| + |inside|
            && (Form(cs, v).1.lexicals == cs.lexicals <==> inside == [])
            && ScopesOf(Form(cs, v).1) == ScopesOf(cs) + inside
  {
    hide Form, Check;
    FormGoesAsChecked(cs, v);
    assert ScopesOf(cs) + [] == ScopesOf(cs);
    var cs' := Form(cs, v).1;
    assert |ScopesOf(cs')| == |cs'.lexicals|;
    if |cs'.lexicals| == |cs.lexicals| { assert cs'.lexicals == cs.lexicals; }
  }

  /** From then on the parameters of those lambdas resolve lexically, also in forms
      that do not mention them. */
  lemma LeakedParametersResolve(cs: CState, v: Val, i: nat, s: Val)
    requires Settled(cs) && s.Sym?
    requires var k := Check(cs.nextId, ScopesOf(cs), v); k.Fails? && i < |k.inside| && s in k.inside[i]
    ensures var cs' := Form(cs, v).1; MapLexical(cs'.funs, cs'.lexicals, s).Some?
  {
    hide Form, Check;
    FormGoesAsChecked(cs, v);
    var k, cs' := Check(cs.nextId, ScopesOf(cs), v), Form(cs, v).1;
    assert ScopesOf(cs')[|cs.lexicals| + i] == k.inside[i];
    BindsIsMapped(cs', cs'.lexicals, ScopesOf(cs'), s);
  }

  /** How compiling ends is decided by the form and the enclosing parameter
      lists. */
  lemma EndIsDecided(cs: CState, v: Val)
    requires Settled(cs)
    ensures var k := Check(cs.nextId, ScopesOf(cs), v); var r := Form(cs, v).0;
            && (r.Ok? <==> k.Fine?)
            && (r.Err? <==> k.Fails? && k.why == Error)
            && (r.Broken? <==> k.Fails? && k.why == Stop)
            && (r.NoReturn? <==> k.Fails? && k.why == Forever)
  {
    hide Form, Check;
    FormGoesAsChecked(cs, v);
  }

  /** No lambda list in the form holds env:lex-ref. */
  predicate FreeOfLexRef(v: Val)
    decreases Size(v), 1
  {
    v.Cons? ==>
      if v.car == QUOTE then true
      else if v.car == LAMBDA then LEX_REF !in Elements(Nth(v, 1)) && AllFree(BodyOf(v))
      else FreeOfLexRef(v.car) && AllFree(v.cdr)
  }

  predicate AllFree(vs: Val)
    decreases Size(vs), 0
  {
    vs.Cons? ==> FreeOfLexRef(vs.car) && AllFree(vs.cdr)
  }

  predicate Returns(k: Verdict) { k.Fails? ==> k.why != Forever }

  lemma {:induction false} FreeFormsReturn(next: nat, scopes: seq<seq<Val>>, v: Val)
    requires FreeOfLexRef(v) && !Binds(scopes, LEX_REF)
    ensures Returns(Check(next, scopes, v))
    decreases Size(v), 2
  {
    hide Binds, CheckLambda, CheckList;
    if v.Cons? {
      match v.car
      case Cons(inner, _) =>
        FreeFormsReturn(next, scopes, v.car);
        var head := Check(next, scopes, v.car);
        if head.Fine? { FreeListReturns(head.next, scopes, v.cdr); }
      case Key(_) =>
        if v.car == LAMBDA { FreeLambdaReturns(next, scopes, v); }
        else if v.car == IF { FreeConditionalReturns(next, scopes, v); }
      case Sym(_) => FreeListReturns(next, scopes, v);
      case Func(_) => FreeListReturns(next, scopes, v);
      case _ =>
    }
  }

  lemma {:induction false} FreeListReturns(next: nat, scopes: seq<seq<Val>>, vs: Val)
    requires AllFree(vs) && !Binds(scopes, LEX_REF)
    ensures Returns(CheckList(next, scopes, vs)) && Returns(CheckForms(next, scopes, vs))
    decreases Size(vs), 0
  {
    hide Binds, Check;
    if vs.Cons? {
      FreeFormsReturn(next, scopes, vs.car);
      var first := Check(next, scopes, vs.car);
      if first.Fine? { FreeListReturns(first.next, scopes, vs.cdr); }
    }
  }

  lemma {:induction false} FreeLambdaReturns(next: nat, scopes: seq<seq<Val>>, v: Val)
    requires v.Cons? && LEX_REF !in Elements(Nth(v, 1)) && AllFree(BodyOf(v)) && !Binds(scopes, LEX_REF)
    ensures Returns(CheckLambda(next, scopes, v))
    decreases Size(v), 1
  {
    hide CheckList, IdFits, LambdaError;
    var added := Adds(Nth(v, 1));
    assert !Binds(scopes + added, LEX_REF) by {
      forall i | 0 <= i < |scopes + added| ensures LEX_REF !in (scopes + added)[i] {
        if i < |scopes| { assert (scopes + added)[i] == scopes[i]; }
      }
    }
    FreeListReturns(next + 1, scopes + added, BodyOf(v));
  }

  lemma {:induction false} FreeConditionalReturns(next: nat, scopes: seq<seq<Val>>, v: Val)
    requires v.Cons? && v.car == IF && FreeOfLexRef(v) && !Binds(scopes, LEX_REF)
    ensures Returns(CheckConditional(next, scopes, v))
    decreases Size(v), 1
  {
    hide Binds, Check, CheckLambda;
    if Proper(v) && |Elements(v)| == 4 {
      SizeOfFour(v);
      ListOfFour(v);
      var t, y, e := Nth(v, 1), Nth(v, 2), Nth(v, 3);
      assert v.cdr == Cons(t, Cons(y, Cons(e, NIL)));
      assert AllFree(Cons(y, Cons(e, NIL))) && AllFree(Cons(e, NIL));
      FreeFormsReturn(next, scopes, t);
      var k1 := Check(next, scopes, t);
      if k1.Fine? {
        FreeBranch(y);
        FreeBranch(e);
        FreeLambdaReturns(k1.next, scopes, Branch(y));
        var k2 := CheckLambda(k1.next, scopes, Branch(y));
        if k2.Fine? { FreeLambdaReturns(k2.next, scopes, Branch(e)); }
      }
    }
  }

  lemma FreeBranch(x: Val)
    requires FreeOfLexRef(x)
    ensures Elements(Nth(Branch(x), 1)) == [] && AllFree(BodyOf(Branch(x)))
  {
    hide FreeOfLexRef;
    var b := Branch(x);
    assert Nth(b, 1) == Nth(b.cdr, 0) == NIL;
    assert BodyOf(b) == Cons(x, NIL);
    assert AllFree(NIL);
  }

  /** Compiling returns whenever env:lex-ref is no parameter, neither of the
      enclosing lambdas nor in the form. */
  lemma CompilingReturns(cs: CState, v: Val)
    requires Settled(cs) && FreeOfLexRef(v) && !Binds(ScopesOf(cs), LEX_REF)
    ensures !Form(cs, v).0.NoReturn?
  {
    hide Form, Check;
    EndIsDecided(cs, v);
    FreeFormsReturn(cs.nextId, ScopesOf(cs), v);
  }

  // ---------------------------------------------------------------- lambda forms

  /** (:lambda (p ...) b ...) */
  function LambdaForm(params: seq<Val>, body: seq<Val>): Val {
    Cons(LAMBDA, Cons(ListOf(params), ListOf(body)))
  }

  /** Symbols, each once. */
  ghost predicate ParameterList(params: seq<Val>) {
    && (forall i | 0 <= i < |params| :: params[i].Sym?)
    && (forall i, j | 0 <= i < j < |params| :: params[i] != params[j])
  }

  lemma LambdaFormParts(params: seq<Val>, body: seq<Val>)
    ensures var v := LambdaForm(params, body);
            && Proper(v) && |Elements(v)| >= 2 && Nth(v, 1) == ListOf(params) && BodyOf(v) == ListOf(body)
            && Proper(ListOf(params)) && IsList(ListOf(params)) && IsList(ListOf(body))
            && Elements(ListOf(params)) == params && v.cdr.Cons?
            && Nth(ListOf(params), 0) == if params == [] then NIL else params[0]
  {
    ElementsOfList(params);
    ElementsOfList(body);
    var v := LambdaForm(params, body);
    assert |Elements(v)| == 1 + |Elements(v.cdr)| && |Elements(v.cdr)| == 1 + |body|;
    assert Proper(v.cdr) && Proper(v);
    assert Nth(v, 1) == Nth(v.cdr, 0);
  }

  /** A lambda form is refused exactly for its parameter list. */
  lemma LambdaFormError(params: seq<Val>, body: seq<Val>)
    ensures LambdaError(LambdaForm(params, body)).None? <==> ParameterList(params)
  {
    hide ListOf, Elements, Proper, Nth;
    LambdaFormParts(params, body);
    ParseLambdaIsExact(params, []);
    if params != [] && params[0] == QUOTE { assert !params[0].Sym?; }
  }

  /** What a lambda form is refused with: a parameter list that starts with :quote
      as such, any other for its first parameter that offends. Nothing changes. */
  lemma LambdaFormRaises(cs: CState, params: seq<Val>, body: seq<Val>, k: nat)
    requires k < |params| && Offends(params, [], k) && forall j: nat | j < k :: !Offends(params, [], j)
    ensures Form(cs, LambdaForm(params, body)) ==
            (Err(if params[0] == QUOTE then Exn(":lambda", "quote", ListOf(params))
                 else Exn(":lambda", if params[k].Sym? then "dup" else "type", params[k])), cs)
  {
    hide ListOf, Elements, Proper, Nth, FormList, Offends;
    LambdaFormParts(params, body);
    ParseLambdaNamesTheFirst(params, [], k);
    LambdaIsCompiled(cs, LambdaForm(params, body));
  }

  lemma LambdaIsCompiled(cs: CState, v: Val)
    requires v.Cons? && v.car == LAMBDA
    ensures Form(cs, v) == Lambda(cs, v)
  {
    hide Lambda;
  }

  /** The verdict on any lambda form, by its parameters and its body: distinct
      symbols, a frame number, and every form of the body, in order, within them. */
  lemma LambdaFormVerdict(next: nat, scopes: seq<seq<Val>>, params: seq<Val>, body: seq<Val>)
    ensures var added := if params == [] then [] else [params];
            Check(next, scopes, LambdaForm(params, body)) ==
            if !ParameterList(params) then Fails(Error, [])
            else if !IdFits(next) then Fails(Stop, [])
            else
              match CheckForms(next + 1, scopes + added, ListOf(body))
              case Fine(n) => Fine(n)
              case Fails(why, inside) => Fails(why, added + inside)
  {
    hide ListOf, Elements, Proper, Nth, LambdaError, IdFits, CheckForms, ParameterList, Check;
    LambdaFormParts(params, body);
    LambdaFormError(params, body);
    var v := LambdaForm(params, body);
    assert Check(next, scopes, v) == CheckLambda(next, scopes, v) by { LambdaIsChecked(next, scopes, v); }
    var scopes' := scopes + Adds(Nth(v, 1));
    assert CheckList(next + 1, scopes', BodyOf(v)) == CheckForms(next + 1, scopes', ListOf(body));
  }

  lemma LambdaIsChecked(next: nat, scopes: seq<seq<Val>>, v: Val)
    requires v.Cons? && v.car == LAMBDA
    ensures Check(next, scopes, v) == CheckLambda(next, scopes, v)
  {
    hide CheckLambda;
  }

  /** So a lambda form compiles exactly when its parameters are distinct symbols,
      the frame number fits, and each form of its body compiles after the others. */
  lemma LambdaFormCompiles(cs: CState, params: seq<Val>, body: seq<Val>)
    requires Settled(cs)
    ensures var scopes := ScopesOf(cs) + if params == [] then [] else [params];
            Form(cs, LambdaForm(params, body)).0.Ok? <==>
            ParameterList(params) && IdFits(cs.nextId) && CheckForms(cs.nextId + 1, scopes, ListOf(body)).Fine?
  {
    hide Form, Check, CheckForms, IdFits, ParameterList, LambdaForm, Settled, ScopesOf;
    EndIsDecided(cs, LambdaForm(params, body));
    LambdaFormVerdict(cs.nextId, ScopesOf(cs), params, body);
  }

  // ----------------------------------------------------------------- some forms

  function BadQuote(): Val { Cons(QUOTE, NIL) }

  lemma OneVerdict(next: nat, scopes: seq<seq<Val>>, v: Val)
    ensures CheckForms(next, scopes, Cons(v, NIL)) == Check(next, scopes, v)
  {
    hide Check;
    assert forall n :: CheckForms(n, scopes, NIL) == Fine(n);
  }

  /** The verdict on a lambda of one form is the verdict on that, one lambda in. */
  lemma OneFormLambda(next: nat, scopes: seq<seq<Val>>, params: seq<Val>, body: Val)
    requires params != [] && ParameterList(params) && IdFits(next)
    ensures LambdaForm(params, [body]).Cons? && LambdaForm(params, [body]).car == LAMBDA
    ensures Check(next, scopes, LambdaForm(params, [body])) ==
            match Check(next + 1, scopes + [params], body)
            case Fine(n) => Fine(n)
            case Fails(why, inside) => Fails(why, [params] + inside)
  {
    hide IdFits, Check, ParameterList, CheckForms;
    LambdaFormVerdict(next, scopes, params, [body]);
    assert ListOf([body]) == Cons(body, NIL) by { assert [body][1..] == [] && ListOf([]) == NIL; }
    OneVerdict(next + 1, scopes + [params], body);
  }

  lemma BadQuoteFails(next: nat, scopes: seq<seq<Val>>)
    ensures Check(next, scopes, BadQuote()) == Fails(Error, [])
  {
    assert |Elements(BadQuote())| == 1 + |Elements(NIL)| == 1;
  }

  /** (f (:lambda (x) (:quote))) is no lambda and leaks one. */
  lemma CallLeaksLambda(next: nat, f: Val, x: Val)
    requires f.Sym? && x.Sym? && IdFits(next)
    ensures Check(next, [], Cons(f, Cons(LambdaForm([x], [BadQuote()]), NIL))) == Fails(Error, [[x]])
  {
    hide IdFits, LambdaForm, BadQuote;
    var arg := LambdaForm([x], [BadQuote()]);
    OneFormLambda(next, [], [x], BadQuote());
    BadQuoteFails(next + 1, [] + [[x]]);
    assert [[x]] + [] == [[x]];
    assert Check(next, [], f) == Fine(next);
    OneVerdict(next, [], arg);
    assert CheckForms(next, [], Cons(f, Cons(arg, NIL))) == Fails(Error, [[x]]);
  }

  /** (:if (:quote) 1 2) fails and leaks nothing. */
  lemma TestLeaksNothing(next: nat)
    ensures Check(next, [], Cons(IF, Cons(BadQuote(), Cons(Fix(1), Cons(Fix(2), NIL))))) == Fails(Error, [])
  {
    var v := Cons(IF, Cons(BadQuote(), Cons(Fix(1), Cons(Fix(2), NIL))));
    assert Nth(v, 1) == Nth(v.cdr, 0) == BadQuote();
    assert Proper(NIL) && Proper(v.cdr.cdr.cdr) && Proper(v.cdr.cdr) && Proper(v.cdr) && Proper(v);
    assert Elements(v.cdr.cdr.cdr) == [Fix(2)] + Elements(NIL);
    assert |Elements(v.cdr.cdr)| == 2 && |Elements(v.cdr)| == 3 && |Elements(v)| == 4;
    BadQuoteFails(next, []);
  }

  /** So does ((:lambda (x) x) (:quote)), whose lambda is complete by then. */
  lemma ArgumentLeaksNothing(next: nat, x: Val)
    requires x.Sym? && x != LEX_REF && IdFits(next)
    ensures Check(next, [], Cons(LambdaForm([x], [x]), Cons(BadQuote(), NIL))) == Fails(Error, [])
  {
    hide IdFits, LambdaForm, BadQuote;
    var lam := LambdaForm([x], [x]);
    OneFormLambda(next, [], [x], x);
    assert [] + [[x]] == [[x]];
    assert !Binds([[x]], LEX_REF);
    assert Check(next + 1, [[x]], x) == Fine(next + 1);
    BadQuoteFails(next + 1, []);
    OneVerdict(next + 1, [], BadQuote());
  }

  /** ((:lambda (env:lex-ref x) x) 1 2) never finishes compiling. */
  lemma LexRefParameterNeverReturns(cs: CState, x: Val)
    requires Settled(cs) && cs.lexicals == [] && IdFits(cs.nextId) && x.Sym? && x != LEX_REF
    ensures Form(cs, Cons(LambdaForm([LEX_REF, x], [x]), Cons(Fix(1), Cons(Fix(2), NIL)))).0 == NoReturn
  {
    hide IdFits, LambdaForm, Form;
    var scope := [LEX_REF, x];
    OneFormLambda(cs.nextId, [], scope, x);
    assert scope[0] == LEX_REF && scope[1] == x;
    assert [] + [scope] == [scope] && [scope][0] == scope;
    assert Binds([scope], x) && Binds([scope], LEX_REF);
    assert ScopesOf(cs) == [];
    assert Check(cs.nextId + 1, [scope], x) == Fails(Forever, []);
    EndIsDecided(cs, Cons(LambdaForm(scope, [x]), Cons(Fix(1), Cons(Fix(2), NIL))));
  }
}
