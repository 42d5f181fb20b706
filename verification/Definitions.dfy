// Sessions that define functions: forms whose values are interned, so that later
// forms call what earlier ones defined.

module Definitions {
  import opened Options
  import opened Lisp
  import opened Numerals
  import opened Evaluator
  import opened Compiler
  import opened Source
  import opened Independence
  import opened Simulation
  import opened Sessions
  import opened Worlds

  /** A top-level form, and the symbol its value is interned for, if any. */
  datatype Item = Item(form: Val, symbol: Option<nat>)

  /** Where a session stands: the world, the compiler, and the context. */
  datatype Session = Session(g: Globals, cs: CState, d: Context)

  /** A symbol is bound once. */
  function Intern(g: Globals, symbol: Option<nat>, v: Val): Globals {
    if symbol.Some? && symbol.value !in g.syms then g.(syms := g.syms[symbol.value := v]) else g
  }

  /** Compiling, evaluating and interning one form; nothing when one of them
      fails. */
  function Enact(n: nat, s: Session, item: Item): Option<Session> {
    var (r, cs) := Form(s.cs, item.form);
    if !r.Ok? then None
    else
      var g := s.g.(funs := cs.funs);
      var (o, d) := Eval(n, g, s.d, r.code);
      if o.Value? then Some(Session(Intern(g, item.symbol, o.v), cs, d)) else None
  }

  function EnactAll(n: nat, s: Session, items: seq<Item>): Option<Session>
    decreases |items|
  {
    if items == [] then Some(s)
    else
      match Enact(n, s, items[0])
      case None => None
      case Some(s1) => EnactAll(n, s1, items[1..])
  }

  /** A form whose lambdas are applied where they are written, or a lambda whose
      body is made of such forms: a definition. It may call, by name or by value,
      any function there is by now. */
  predicate Admitted(s: Session, v: Val) {
    Clean(|s.g.funs|, v) && (Local(v) || (v.Cons? && v.car == LAMBDA && LocalAll(BodyOf(v))))
  }

  /** Every item is admitted by the time it is reached. */
  predicate AllAdmitted(n: nat, s: Session, items: seq<Item>)
    decreases |items|
  {
    items != [] ==>
      && Admitted(s, items[0].form)
      && (Enact(n, s, items[0]).Some? ==> AllAdmitted(n, Enact(n, s, items[0]).value, items[1..]))
  }

  /** Frame ids that have not been handed out. */
  ghost predicate Unused(ids: set<Val>, next: nat) {
    forall id | id in ids :: exists m: nat {:trigger FrameId(m)} :: m >= next && id == FrameId(m)
  }

  /** Between two items: whatever is compiled next finds a world in order, and
      clean frames. */
  ghost predicate Open(s: Session) {
    && s.cs.funs == s.g.funs && s.cs.lexicals == []
    && (forall ids {:trigger WorldOk(|s.g.funs|, ids, s.g)} :: Unused(ids, s.cs.nextId) ==> WorldOk(|s.g.funs|, ids, s.g))
    && forall id :: FramesClean(|s.g.funs|, Stack(s.d, id))
  }

  lemma NewIdsUnused(cs: CState, cs': CState)
    ensures Unused(NewIds(cs, cs'), cs.nextId)
  {
    hide FrameId;
  }

  lemma UnusedLater(ids: set<Val>, cs: CState, cs': CState)
    requires cs.nextId <= cs'.nextId && Unused(ids, cs'.nextId)
    ensures Unused(ids, cs.nextId)
    ensures forall m: nat {:trigger FrameId(m)} | cs.nextId <= m < cs'.nextId :: FrameId(m) !in ids
  {
    hide FrameId;
    forall m: nat {:trigger FrameId(m)} | cs.nextId <= m < cs'.nextId ensures FrameId(m) !in ids {
      if FrameId(m) in ids {
        var k: nat :| k >= cs'.nextId && FrameId(m) == FrameId(k);
        FrameIdInjective(m, k);
      }
    }
  }

  lemma FrameIdInjective(m: nat, k: nat)
    requires FrameId(m) == FrameId(k)
    ensures m == k
  {
    DecimalInjective(m, k);
  }

  /** The value of an admitted form is clean in the table with its functions, and
      so are the frames it leaves. */
  ghost predicate Leaves(nb: nat, o: Outcome, d: Context) {
    o.Value? ==> Clean(nb, o.v) && forall id :: FramesClean(nb, Stack(d, id))
  }

  lemma LocalLeaves(n: nat, s: Session, v: Val)
    requires Open(s) && Form(s.cs, v).0.Ok? && Local(v) && Clean(|s.g.funs|, v)
    ensures var (r, cs) := Form(s.cs, v);
            var (o, d) := Eval(n, s.g.(funs := cs.funs), s.d, r.code);
            Leaves(|s.g.funs|, o, d)
  {
    hide Form, Local, Clean, Direct, Eval, FramesClean, WorldOk, FrameId, Bound, Linked, Setting;
    var (r, cs) := Form(s.cs, v);
    var nb, news := |s.g.funs|, NewIds(s.cs, cs);
    NewIdsUnused(s.cs, cs);
    assert WorldOk(nb, news, s.g);
    FormGrows(s.cs, v);
    StartOfForm(nb, news, s.g, s.cs, s.d, s.d, r, cs);
    FormSim(n, nb, news, s.g, s.g.(funs := cs.funs), s.cs, [], s.d, s.d, v);
    var c' := Direct(n, s.g, [], s.d, v).1;
    var (o, d) := Eval(n, s.g.(funs := cs.funs), s.d, r.code);
    if o.Value? {
      forall id ensures FramesClean(nb, Stack(d, id)) {
        if id in news {
          assert Stack(d, id) == Stack(s.d, id);
        } else {
          assert Stack(c', id) == Stack(d, id);
        }
      }
    }
  }

  lemma DefinitionLeaves(n: nat, s: Session, v: Val)
    requires Open(s) && Form(s.cs, v).0.Ok? && v.Cons? && v.car == LAMBDA
    ensures var (r, cs) := Form(s.cs, v);
            var (o, d) := Eval(n, s.g.(funs := cs.funs), s.d, r.code);
            o == Value(Func(|s.g.funs|)) && d == s.d && Clean(|cs.funs|, o.v)
  {
    hide Forms, LambdaError, FramesClean, WorldOk, FrameId, IdFits;
    var (r, cs) := Form(s.cs, v);
    assert Lambda(s.cs, v) == (r, cs);
    LambdaGrows(s.cs, v);
    NewIdsUnused(s.cs, cs);
    assert 0 < |s.g.funs| by { SomeFunctions(s); }
    assert r == Ok(Func(|s.g.funs|)) && |s.g.funs| < |cs.funs| by { LambdaMakes(s.cs, v); }
  }

  lemma SomeFunctions(s: Session)
    requires Open(s)
    ensures 0 < |s.g.funs| && 0 in s.g.syms
  {
    hide FrameId;
    assert Unused({}, s.cs.nextId);
    assert WorldOk(|s.g.funs|, {}, s.g);
  }

  lemma LambdaMakes(cs: CState, v: Val)
    requires v.Cons? && Lambda(cs, v).0.Ok?
    ensures Lambda(cs, v).0 == Ok(Func(|cs.funs|)) && |cs.funs| < |Lambda(cs, v).1.funs|
  {
    hide FormList, LambdaError, FrameId, IdFits;
    var cs0 := InLambda(cs, Nth(v, 1));
    FormListGrows(cs0, v.cdr.cdr);
  }

  /** Every item leaves the session open for the next. */
  lemma EnactKeepsOpen(n: nat, s: Session, item: Item)
    requires Open(s) && Admitted(s, item.form) && Enact(n, s, item).Some?
    ensures Open(Enact(n, s, item).value)
  {
    hide Form, Local, Clean, Eval, FramesClean, WorldOk, FrameId, LocalAll;
    var (r, cs) := Form(s.cs, item.form);
    var g := s.g.(funs := cs.funs);
    var (o, d) := Eval(n, g, s.d, r.code);
    var nb, nb' := |s.g.funs|, |cs.funs|;
    FormGrows(s.cs, item.form);
    assert Clean(nb', o.v) && forall id :: FramesClean(nb', Stack(d, id)) by {
      if Local(item.form) {
        LocalLeaves(n, s, item.form);
        CleanGrows(nb, nb', o.v);
        FramesGrow(nb, nb', d);
      } else {
        DefinitionLeaves(n, s, item.form);
        FramesGrow(nb, nb', s.d);
      }
    }
    SomeFunctions(s);
    var g' := Intern(g, item.symbol, o.v);
    forall ids | Unused(ids, cs.nextId) ensures WorldOk(nb', ids, g') {
      UnusedLater(ids, s.cs, cs);
      CompilationKeepsWorld(s.g, s.cs, item.form, ids);
      InternKeepsWorld(nb', ids, g, item.symbol, o.v);
    }
  }

  lemma FramesGrow(nb: nat, nb': nat, d: Context)
    requires nb <= nb' && forall id :: FramesClean(nb, Stack(d, id))
    ensures forall id :: FramesClean(nb', Stack(d, id))
  {
    hide Clean;
    forall id, k, v | 0 <= k < |Stack(d, id)| && Stack(d, id)[k].Frame? && v in Stack(d, id)[k].argv
      ensures Clean(nb', v)
    {
      assert FramesClean(nb, Stack(d, id));
      CleanGrows(nb, nb', v);
    }
  }

  lemma InternKeepsWorld(nb: nat, ids: set<Val>, g: Globals, symbol: Option<nat>, v: Val)
    requires WorldOk(nb, ids, g) && Clean(nb, v)
    ensures WorldOk(nb, ids, Intern(g, symbol, v))
  {
    hide FuncOk, Clean, OutcomeClean, AllClean;
  }

  lemma {:induction false} EnactAllKeepsOpen(n: nat, s: Session, items: seq<Item>)
    requires Open(s) && AllAdmitted(n, s, items) && EnactAll(n, s, items).Some?
    ensures Open(EnactAll(n, s, items).value)
    decreases |items|
  {
    hide Open, Enact, Admitted;
    if items != [] {
      EnactKeepsOpen(n, s, items[0]);
      EnactAllKeepsOpen(n, Enact(n, s, items[0]).value, items[1..]);
    }
  }

  /** Compilation preserves meaning at every point of a session that defines
      functions: after any items, the code of the next form has the outcome of
      evaluating it directly, in the functions and symbol values there are by
      then, those of the session's own definitions included. */
  lemma LaterFormsKeepMeaning(n: nat, s0: Session, items: seq<Item>, v: Val)
    requires Open(s0) && AllAdmitted(n, s0, items) && EnactAll(n, s0, items).Some?
    requires var s := EnactAll(n, s0, items).value;
             Form(s.cs, v).0.Ok? && Local(v) && Clean(|s.g.funs|, v)
    ensures var s := EnactAll(n, s0, items).value;
            var (r, cs) := Form(s.cs, v);
            Eval(n, s.g.(funs := cs.funs), s.d, r.code).0 == Direct(n, s.g, [], s.d, v).0
  {
    hide Form, Local, Clean, Eval, Direct, FramesClean, WorldOk, FrameId, EnactAll, AllAdmitted;
    EnactAllKeepsOpen(n, s0, items);
    var s := EnactAll(n, s0, items).value;
    NewIdsUnused(s.cs, Form(s.cs, v).1);
    assert WorldOk(|s.g.funs|, NewIds(s.cs, Form(s.cs, v).1), s.g);
    CompilationPreservesMeaning(n, s.g, s.cs, s.d, v);
  }

  /** And a definition means its source: calling the function object it makes has
      the outcome of evaluating the lambda's body with the parameters bound. */
  lemma DefinitionMeansBody(n: nat, s: Session, lam: Val, args: seq<Val>)
    requires Open(s) && Form(s.cs, lam).0.Ok? && lam.Cons? && lam.car == LAMBDA
    requires LocalAll(BodyOf(lam)) && Clean(|s.g.funs|, lam)
    requires |args| == |Params(lam)| && AllClean(|s.g.funs|, args)
    ensures var (r, cs) := Form(s.cs, lam);
            && r == Ok(Func(|s.g.funs|))
            && Funcall(n, s.g.(funs := cs.funs), s.d, |s.g.funs|, args).0 == DirectCall(n, s.g, [], s.d, lam, args).0
  {
    hide LocalAll, Clean, AllClean, Funcall, DirectCall, FramesClean, WorldOk, FrameId, Lambda, Bound, Params,
         BodyOf;
    var (r, cs) := Form(s.cs, lam);
    assert Lambda(s.cs, lam) == (r, cs);
    LambdaMakes(s.cs, lam);
    LambdaGrows(s.cs, lam);
    var news := NewIds(s.cs, cs);
    NewIdsUnused(s.cs, cs);
    assert WorldOk(|s.g.funs|, news, s.g);
    StartOfForm(|s.g.funs|, news, s.g, s.cs, s.d, s.d, r, cs);
    LambdaSim(n, |s.g.funs|, news, s.g, s.g.(funs := cs.funs), s.cs, [], s.d, s.d, lam, args);
  }

  /** From then on the symbol evaluates to what the form did, unless it was bound
      before; no other symbol's meaning changes. */
  lemma DefinedSymbolEvaluates(n: nat, s: Session, v: Val, symbol: nat, other: nat)
    requires Enact(n, s, Item(v, Some(symbol))).Some? && other != symbol
    ensures var s' := Enact(n, s, Item(v, Some(symbol))).value;
            var (r, cs) := Form(s.cs, v);
            && Eval(n, s'.g, s'.d, Sym(symbol)) ==
               (if symbol in s.g.syms then Eval(n, s.g, s.d, Sym(symbol)).0
                else Eval(n, s.g.(funs := cs.funs), s.d, r.code).0, s'.d)
            && Eval(n, s'.g, s'.d, Sym(other)) == (Eval(n, s.g, s.d, Sym(other)).0, s'.d)
  {
    hide Form;
  }
}
