// Calls of closures (src/core/eval.l, funcall-closure): the captured frames are
// pushed on the lexical stacks around the call (env/env-frame.cc).

module Closures {
  import opened Lisp
  import opened Evaluator
  import opened Discipline
  import opened Independence

  /** A captured frame goes on the stack of its function's frame id. */
  function IdOf(g: Globals, fr: Frame): Val {
    if fr.Frame? && fr.func < |g.funs| then g.funs[fr.func].frameId else NIL
  }

  /** core:mapc env:lex-psh */
  function PushAll(g: Globals, c: Context, closure: seq<Frame>): Context
    decreases |closure|
  {
    if closure == [] then c
    else PushAll(g, PushLexical(c, IdOf(g, closure[0]), closure[0]), closure[1..])
  }

  /** core:mapc env:lex-pop, in the order of the pushes. */
  function PopAll(g: Globals, c: Context, closure: seq<Frame>): Context
    decreases |closure|
  {
    if closure == [] then c else PopAll(g, PopLexical(c, IdOf(g, closure[0])), closure[1..])
  }

  /** funcall-closure */
  function FuncallClosure(n: nat, g: Globals, c: Context, f: nat, args: seq<Val>, closure: seq<Frame>)
    : (Outcome, Context)
  {
    if closure == [] then Funcall(n, g, c, f, args)
    else
      var (o, c1) := Funcall(n, g, PushAll(g, c, closure), f, args);
      (o, if o.Value? then PopAll(g, c1, closure) else c1)
  }

  /** How many captured frames belong to a frame id. */
  function Count(g: Globals, closure: seq<Frame>, id: Val): nat
    decreases |closure|
  {
    if closure == [] then 0 else (if IdOf(g, closure[0]) == id then 1 else 0) + Count(g, closure[1..], id)
  }

  lemma {:induction false} Pushed(g: Globals, c: Context, closure: seq<Frame>, id: Val)
    ensures Stack(c, id) <= Stack(PushAll(g, c, closure), id)
    ensures |Stack(PushAll(g, c, closure), id)| == |Stack(c, id)| + Count(g, closure, id)
    ensures PushAll(g, c, closure).dynamic == c.dynamic && PushAll(g, c, closure).caught == c.caught
    decreases |closure|
  {
    if closure != [] {
      Pushed(g, PushLexical(c, IdOf(g, closure[0]), closure[0]), closure[1..], id);
    }
  }

  lemma {:induction false} Popped(g: Globals, c: Context, closure: seq<Frame>, id: Val)
    requires Count(g, closure, id) <= |Stack(c, id)|
    ensures Stack(PopAll(g, c, closure), id) == Stack(c, id)[..|Stack(c, id)| - Count(g, closure, id)]
    ensures PopAll(g, c, closure).dynamic == c.dynamic && PopAll(g, c, closure).caught == c.caught
    decreases |closure|
  {
    if closure != [] {
      Popped(g, PopLexical(c, IdOf(g, closure[0])), closure[1..], id);
    }
  }

  /** A closure call that returns a value restores the control stack; without
      caught exceptions it restores every lexical stack too, the pops undoing
      the pushes whatever frames the closure captured. */
  lemma ClosureCallRestoresStacks(n: nat, g: Globals, c: Context, f: nat, args: seq<Val>, closure: seq<Frame>)
    requires FuncallClosure(n, g, c, f, args, closure).0.Value?
    ensures var c' := FuncallClosure(n, g, c, f, args, closure).1;
            && c'.dynamic == c.dynamic
            && (c'.caught == c.caught ==> forall id :: Stack(c', id) == Stack(c, id))
  {
    hide Funcall;
    var c0 := PushAll(g, c, closure);
    FuncallIsDisciplined(n, g, c0, f, args);
    var (o, c1) := Funcall(n, g, c0, f, args);
    var c' := FuncallClosure(n, g, c, f, args, closure).1;
    forall id
      ensures c'.dynamic == c.dynamic && (c'.caught == c.caught ==> Stack(c', id) == Stack(c, id))
    {
      Pushed(g, c, closure, id);
      assert Stack(c0, id) <= Stack(c1, id);
      Popped(g, c1, closure, id);
    }
    assert c'.dynamic == c.dynamic by { Pushed(g, c, closure, NIL); }
  }

  /** A closure call that raises leaves its captured frames on the lexical
      stacks: later references find them instead of what was there. */
  lemma RaisingClosureCallLeavesFrames(n: nat, g: Globals, c: Context, f: nat, args: seq<Val>,
                                       closure: seq<Frame>, id: Val)
    requires FuncallClosure(n, g, c, f, args, closure).0.Raise?
    ensures var c' := FuncallClosure(n, g, c, f, args, closure).1;
            && Stack(c, id) <= Stack(c', id)
            && |Stack(c', id)| >= |Stack(c, id)| + Count(g, closure, id)
  {
    hide Funcall;
    var c0 := PushAll(g, c, closure);
    FuncallIsDisciplined(n, g, c0, f, args);
    Pushed(g, c, closure, id);
    assert Stack(c0, id) <= Stack(Funcall(n, g, c0, f, args).1, id);
  }

  /** The captured frames of one frame id, in the order they were captured. */
  function Captured(g: Globals, closure: seq<Frame>, id: Val): seq<Frame>
    decreases |closure|
  {
    if closure == [] then []
    else (if IdOf(g, closure[0]) == id then [closure[0]] else []) + Captured(g, closure[1..], id)
  }

  /** During the call each lexical stack has on top of what it had the captured
      frames of its own id, in order. */
  lemma {:induction false} CapturedFramesAreOnTop(g: Globals, c: Context, closure: seq<Frame>, id: Val)
    ensures Stack(PushAll(g, c, closure), id) == Stack(c, id) + Captured(g, closure, id)
    decreases |closure|
  {
    if closure != [] { CapturedFramesAreOnTop(g, PushLexical(c, IdOf(g, closure[0]), closure[0]), closure[1..], id); }
  }

  /** Frame j is the last that the closure captured of frame id `id`. */
  ghost predicate LastOf(g: Globals, closure: seq<Frame>, id: Val, j: nat) {
    && j < |closure| && IdOf(g, closure[j]) == id
    && forall k | j < k < |closure| :: IdOf(g, closure[k]) != id
  }

  lemma {:induction false} NoneCaptured(g: Globals, closure: seq<Frame>, id: Val)
    requires forall k | 0 <= k < |closure| :: IdOf(g, closure[k]) != id
    ensures Captured(g, closure, id) == []
    decreases |closure|
  {
    if closure != [] { NoneCaptured(g, closure[1..], id); }
  }

  lemma {:induction false} LastIsOnTop(g: Globals, closure: seq<Frame>, id: Val, j: nat)
    requires LastOf(g, closure, id, j)
    ensures var s := Captured(g, closure, id); s != [] && s[|s| - 1] == closure[j]
    decreases |closure|
  {
    var rest := closure[1..];
    if j == 0 {
      NoneCaptured(g, rest, id);
    } else {
      assert forall k | 0 <= k < |rest| :: rest[k] == closure[k + 1];
      LastIsOnTop(g, rest, id, j - 1);
    }
  }

  /** A closure call reads the variables it captured: where the lambda is a
      reference to another one's parameter, its value is the argument in the frame
      captured last for that one, whatever calls of it there are on the stack, or
      none. Without a captured frame the reference fails. */
  lemma ClosureReadsCapturedFrame(n: nat, g: Globals, c: Context, f: nat, params: Val, args: seq<Val>,
                                  closure: seq<Frame>, id: Val, j: nat, k: nat)
    requires 0 in g.syms && g.syms[0] == Func(0) && 0 < |g.funs| && g.funs[0].arity == 2 && g.funs[0].form == LEX_REF
    requires f < |g.funs| && g.funs[f].arity == |args| && id.Key? && g.funs[f].frameId != id
    requires g.funs[f].form == Cons(params, Cons(RefForm(id, Fix(k)), NIL))
    requires LastOf(g, closure, id, j) && closure[j].Frame? && k < |closure[j].argv|
    ensures FuncallClosure(n + 1, g, c, f, args, closure).0 == Value(closure[j].argv[k])
    ensures Stack(c, id) == [] ==> FuncallClosure(n + 1, g, c, f, args, []).0 == Abort
  {
    hide Eval, RefForm, Funcall;
    var c0 := PushAll(g, c, closure);
    CapturedFramesAreOnTop(g, c, closure, id);
    LastIsOnTop(g, closure, id, j);
    ReferenceCall(n, g, c0, f, params, args, id, k);
    ReferenceCall(n, g, c, f, params, args, id, k);
    assert Stack(c0, id)[|Stack(c0, id)| - 1] == closure[j];
  }

  /** Calling a lambda whose body is a reference to another lambda's parameter. */
  lemma ReferenceCall(n: nat, g: Globals, c: Context, f: nat, params: Val, args: seq<Val>, id: Val, k: nat)
    requires 0 in g.syms && g.syms[0] == Func(0) && 0 < |g.funs| && g.funs[0].arity == 2 && g.funs[0].form == LEX_REF
    requires f < |g.funs| && g.funs[f].arity == |args| && id.Key? && g.funs[f].frameId != id
    requires g.funs[f].form == Cons(params, Cons(RefForm(id, Fix(k)), NIL))
    ensures Funcall(n + 1, g, c, f, args).0 == FrameRef(c, [id, Fix(k)])
  {
    hide Eval, RefForm;
    var fn := g.funs[f];
    var c1 := Enter(c, fn, Frame(f, args));
    assert Stack(c1, id) == Stack(c, id);
    RefEval(n, g, c1, id, Fix(k));
    assert FrameRef(c1, [id, Fix(k)]) == FrameRef(c, [id, Fix(k)]);
    var o := FrameRef(c, [id, Fix(k)]);
    if o.Value? { assert forall c2 :: Body(n, g, c2, o.v, NIL) == (Value(o.v), c2); }
  }
}
