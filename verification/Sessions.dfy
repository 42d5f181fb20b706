// Whole sessions: top-level forms compiled and evaluated one after another, each
// in the function table and the context its predecessors left.

module Sessions {
  import opened Lisp
  import opened Numerals
  import opened Evaluator
  import opened Compiler
  import opened Source
  import opened Independence
  import opened Simulation

  /** Every form compiles, each from the state its predecessors left. */
  predicate AllCompile(cs: CState, vs: seq<Val>)
    decreases |vs|
  {
    vs == [] || (Form(cs, vs[0]).0.Ok? && AllCompile(Form(cs, vs[0]).1, vs[1..]))
  }

  /** The compiler's state after a session. */
  function Compiled(cs: CState, vs: seq<Val>): CState
    decreases |vs|
  {
    if vs == [] then cs else Compiled(Form(cs, vs[0]).1, vs[1..])
  }

  /** The outcomes of compiling and evaluating each form, up to the first that is
      not a value. */
  function RunSession(n: nat, g: Globals, cs: CState, d: Context, vs: seq<Val>): (seq<Outcome>, Context)
    decreases |vs|
  {
    if vs == [] then ([], d)
    else
      var (r, cs1) := Form(cs, vs[0]);
      if !r.Ok? then ([], d)
      else
        var (o, d1) := Eval(n, g.(funs := cs1.funs), d, r.code);
        if !o.Value? then ([o], d1)
        else
          var (rest, d2) := RunSession(n, g, cs1, d1, vs[1..]);
          ([o] + rest, d2)
  }

  /** The outcomes of evaluating each form directly, in the functions there were
      at the start. */
  function RunSource(n: nat, g: Globals, c: Context, vs: seq<Val>): (seq<Outcome>, Context)
    decreases |vs|
  {
    if vs == [] then ([], c)
    else
      var (o, c1) := Direct(n, g, [], c, vs[0]);
      if !o.Value? then ([o], c1)
      else
        var (rest, c2) := RunSource(n, g, c1, vs[1..]);
        ([o] + rest, c2)
  }

  lemma {:induction false} CompiledGrows(cs: CState, vs: seq<Val>)
    requires AllCompile(cs, vs)
    ensures Grows(cs, Ok(NIL), Compiled(cs, vs))
    decreases |vs|
  {
    hide Form, Grows;
    if vs == [] {
      GrowsNot(cs, Ok(NIL));
    } else {
      var (r, cs1) := Form(cs, vs[0]);
      FormGrows(cs, vs[0]);
      CompiledGrows(cs1, vs[1..]);
      GrowsThen(cs, r.code, cs1, Ok(NIL), Compiled(cs1, vs[1..]));
    }
  }

  /** The part of a session still to run, with the first nb functions fixed and
      every frame id it makes in `news`. */
  lemma {:induction false} SessionSim(n: nat, nb: nat, news: set<Val>, g: Globals, cs: CState,
                                      c: Context, d: Context, vs: seq<Val>)
    requires WorldOk(nb, news, g) && Agree(nb, news, c, d)
    requires nb <= |g.funs| && nb <= |cs.funs| && forall f | 0 <= f < nb :: cs.funs[f] == g.funs[f]
    requires cs.lexicals == [] && AllCompile(cs, vs)
    requires forall v | v in vs :: Local(v) && Clean(nb, v)
    requires forall m: nat {:trigger FrameId(m)} | cs.nextId <= m < Compiled(cs, vs).nextId :: FrameId(m) in news
    ensures RunSession(n, g, cs, d, vs).0 == RunSource(n, g, c, vs).0
    ensures Agree(nb, news, RunSource(n, g, c, vs).1, RunSession(n, g, cs, d, vs).1)
    decreases |vs|
  {
    hide Form, Local, Clean, Direct, Eval, WorldOk, Agree, FrameId;
    if vs != [] {
      var (r, cs1) := Form(cs, vs[0]);
      var g' := g.(funs := cs1.funs);
      assert vs[0] in vs && forall v | v in vs[1..] :: v in vs;
      FormGrows(cs, vs[0]);
      CompiledGrows(cs1, vs[1..]);
      StartOfForm(nb, news, g, cs, c, d, r, cs1);
      FormSim(n, nb, news, g, g', cs, [], c, d, vs[0]);
      var (o, c1) := Direct(n, g, [], c, vs[0]);
      var (p, d1) := Eval(n, g', d, r.code);
      if o.Value? {
        SessionSim(n, nb, news, g, cs1, c1, d1, vs[1..]);
      }
    }
  }

  lemma StartOfForm(nb: nat, news: set<Val>, g: Globals, cs: CState, c: Context, d: Context,
                    r: CResult, cs1: CState)
    requires WorldOk(nb, news, g) && Agree(nb, news, c, d)
    requires nb <= |g.funs| && nb <= |cs.funs| && forall f | 0 <= f < nb :: cs.funs[f] == g.funs[f]
    requires cs.lexicals == [] && r.Ok? && Grows(cs, r, cs1)
    requires forall m: nat {:trigger FrameId(m)} | cs.nextId <= m < cs1.nextId :: FrameId(m) in news
    ensures Setting(nb, news, g, g.(funs := cs1.funs), cs, [], c, d)
    ensures Linked(news, g.(funs := cs1.funs), cs, cs1)
    ensures nb <= |cs1.funs| && forall f | 0 <= f < nb :: cs1.funs[f] == g.funs[f]
  {
    hide WorldOk, Agree, FrameId;
    forall f | 0 <= f < nb ensures cs1.funs[f] == g.funs[f] {
      assert cs1.funs[f] == cs.funs[f];
    }
    assert SameWorld(nb, g, g.(funs := cs1.funs));
    assert Bound(nb, news, cs, [], d);
  }

  /** Compilation preserves the meaning of sessions: evaluating compiled forms one
      after another has, form by form, the outcomes of evaluating the source forms
      directly, in the functions there were before the first was compiled. */
  lemma SessionsPreserveMeaning(n: nat, g: Globals, cs: CState, c: Context, vs: seq<Val>)
    requires cs.lexicals == [] && cs.funs == g.funs && AllCompile(cs, vs)
    requires forall v | v in vs :: Local(v) && Clean(|g.funs|, v)
    requires WorldOk(|g.funs|, NewIds(cs, Compiled(cs, vs)), g)
    requires forall id :: id !in NewIds(cs, Compiled(cs, vs)) ==> FramesClean(|g.funs|, Stack(c, id))
    ensures RunSession(n, g, cs, c, vs).0 == RunSource(n, g, c, vs).0
    ensures forall id :: id !in NewIds(cs, Compiled(cs, vs)) ==>
              Stack(RunSession(n, g, cs, c, vs).1, id) == Stack(RunSource(n, g, c, vs).1, id)
  {
    hide Local, Clean, WorldOk, FramesClean, RunSession, RunSource, FrameId, AllCompile, Compiled;
    var news := NewIds(cs, Compiled(cs, vs));
    assert Agree(|g.funs|, news, c, c);
    SessionSim(n, |g.funs|, news, g, cs, c, c, vs);
    var c', d' := RunSource(n, g, c, vs).1, RunSession(n, g, cs, c, vs).1;
    assert Agree(|g.funs|, news, c', d');
    forall id | id !in news ensures Stack(d', id) == Stack(c', id) {
      assert Stack(c', id) == Stack(d', id);
    }
  }
}
