// The evaluator as core/eval.cc runs it: an execution context whose stacks are
// pushed and popped in place, proved against the functions of module Evaluator.

module Running {
  import opened Options
  import opened Lisp
  import opened Evaluator

  /** The context after popping the stack of a frame id k times. */
  ghost function Popped(c: Context, id: Val, k: nat): Context
    decreases k
  {
    if k == 0 then c else Popped(PopLexical(c, id), id, k - 1)
  }

  ghost function Top(c: Context, id: Val): Option<Frame> {
    var s := Stack(c, id);
    if s == [] then None else Some(s[|s| - 1])
  }

  lemma {:induction false} PoppedStack(c: Context, id: Val, k: nat)
    ensures var s := Stack(c, id);
            Stack(Popped(c, id, k), id) == if k <= |s| then s[..|s| - k] else []
    decreases k
  {
    var s := Stack(c, id);
    if k > 0 {
      PoppedStack(PopLexical(c, id), id, k - 1);
      if s != [] && k <= |s| { assert s[..|s| - 1][..|s| - k] == s[..|s| - k]; }
    } else {
      assert s[..|s|] == s;
    }
  }

  /** The frames of calls still active, pushed in order. */
  ghost function Pushed(c: Context, id: Val, frames: seq<Frame>): Context
    decreases |frames|
  {
    if frames == [] then c else Pushed(PushLexical(c, id, frames[0]), id, frames[1..])
  }

  lemma {:induction false} PushedStack(c: Context, id: Val, frames: seq<Frame>)
    ensures Stack(Pushed(c, id, frames), id) == Stack(c, id) + frames
    decreases |frames|
  {
    if frames == [] {
      assert Stack(c, id) + [] == Stack(c, id);
    } else {
      PushedStack(PushLexical(c, id, frames[0]), id, frames[1..]);
      assert Stack(c, id) + [frames[0]] + frames[1..] == Stack(c, id) + frames;
    }
  }

  /** Offset 0 is the latest call of a lambda, offset k the k-th call before it. */
  lemma OffsetCountsCalls(c: Context, id: Val, frames: seq<Frame>, offset: nat)
    requires offset < |frames|
    ensures Top(Popped(Pushed(c, id, frames), id, offset), id) == Some(frames[|frames| - 1 - offset])
  {
    PushedStack(c, id, frames);
    PoppedStack(Pushed(c, id, frames), id, offset);
  }

  class ExecutionContext {
    const env: Globals
    var dynamic: seq<Frame>
    var lexical: map<Val, seq<Frame>>
    var maxDepth: nat
    var caught: nat

    constructor (env: Globals)
      ensures this.env == env && State() == Context([], map[], 0, 0)
    {
      this.env := env;
      dynamic, lexical, maxDepth, caught := [], map[], 0, 0;
    }

    ghost function State(): Context
      reads this
    {
      Context(dynamic, lexical, maxDepth, caught)
    }

    method DynamicContextPush(fr: Frame)
      modifies this
      ensures State() == PushDynamic(old(State()), fr)
    {
      dynamic := dynamic + [fr];
      if |dynamic| > maxDepth { maxDepth := |dynamic|; }
    }

    method DynamicContextPop()
      modifies this
      ensures State() == PopDynamic(old(State()))
    {
      if dynamic != [] { dynamic := dynamic[..|dynamic| - 1]; }
    }

    method LexicalContextPush(id: Val, fr: Frame)
      modifies this
      ensures State() == PushLexical(old(State()), id, fr)
    {
      lexical := lexical[id := (if id in lexical then lexical[id] else []) + [fr]];
    }

    method LexicalContextPop(id: Val)
      modifies this
      ensures State() == PopLexical(old(State()), id)
    {
      if id in lexical && lexical[id] != [] {
        lexical := lexical[id := lexical[id][..|lexical[id]| - 1]];
      }
    }

    /** The frame of a call that is left: what its entry leads to is gone. */
    method ExpireFrame(fn: FuncObj, at: nat)
      modifies this
      ensures State() == Expire(old(State()), fn, at)
    {
      if fn.arity > 0 && fn.frameId in lexical && at < |lexical[fn.frameId]| {
        lexical := lexical[fn.frameId := lexical[fn.frameId][at := Gone]];
      }
    }

    /** MapLexicalContext: the frame that so many pops would bring to the top. */
    method MapLexicalContext(id: Val, offset: nat) returns (fr: Option<Frame>)
      ensures fr == Top(Popped(State(), id, offset), id)
    {
      PoppedStack(State(), id, offset);
      var s := if id in lexical then lexical[id] else [];
      fr := if offset < |s| then Some(s[|s| - 1 - offset]) else None;
    }

    /** env:lex-ref */
    method FrameReference(argv: seq<Val>) returns (o: Outcome)
      ensures o == FrameRef(State(), argv)
    {
      if |argv| != 2 { return Abort; }
      if !argv[1].Fix? { return Raise(Exn("lex-ref", "type", argv[1])); }
      var lfp := MapLexicalContext(argv[0], 0);
      if lfp.None? { return Abort; }
      if lfp.value.Gone? { return Stale; }
      if argv[1].n < 0 || argv[1].n >= |lfp.value.argv| { return OutOfRange; }
      o := Value(lfp.value.argv[argv[1].n]);
    }

    /** with-ex */
    method WithException(n: nat, handler: nat, thunk: nat) returns (o: Outcome)
      modifies this
      ensures (o, State()) ==
              var (o1, c1) := Evaluator.Funcall(n, env, old(State()), thunk, []);
              if o1.Raise? then Evaluator.Funcall(n, env, Unwind(c1, |old(dynamic)|), handler, [o1.exn])
              else (o1, c1)
      decreases n, 1, 1
    {
      var mark := |dynamic|;
      o := Funcall(n, thunk, []);
      if o.Raise? {
        if mark <= |dynamic| { dynamic := dynamic[..mark]; }
        caught := caught + 1;
        o := Funcall(n, handler, [o.exn]);
      }
    }

    /** The native functions. */
    method CallNative(n: nat, name: Val, argv: seq<Val>) returns (o: Outcome)
      modifies this
      ensures (o, State()) == Native(n, env, old(State()), name, argv)
      decreases n, 0, 0
    {
      if name == LEX_REF {
        o := FrameReference(argv);
      } else if !name.Sym? {
        o := Abort;
      } else if name.id == WITH_EX && |argv| == 2 {
        if !argv[1].Func? { return Raise(Exn("with-ex", "type", argv[1])); }
        if !argv[0].Func? { return Raise(Exn("with-ex", "type", argv[0])); }
        if n == 0 { return Deep; }
        o := WithException(n - 1, argv[0].fid, argv[1].fid);
      } else if name.id == FUNCALL && |argv| == 2 {
        if !argv[0].Func? { return Raise(Exn("funcall", "type", argv[0])); }
        if !IsList(argv[1]) { return Raise(Exn("funcall", "type", argv[1])); }
        if n == 0 { return Deep; }
        var args: seq<Val> := [];
        var it := argv[1];
        while it.Cons?
          invariant args + Elements(it) == Elements(argv[1])
          decreases Size(it)
        {
          args, it := args + [it.car], it.cdr;
        }
        assert args == Elements(argv[1]);
        o := Funcall(n - 1, argv[0].fid, args);
      } else if name.id == RAISE && |argv| == 1 {
        o := Raise(if argv[0].Exn? then argv[0] else Exn("ex-rais", "type", argv[0]));
      } else {
        o := env.prim(name.id, argv);
      }
    }

    /** Env::Funcall */
    method Funcall(n: nat, func: nat, argv: seq<Val>) returns (o: Outcome)
      modifies this
      ensures (o, State()) == Evaluator.Funcall(n, env, old(State()), func, argv)
      decreases n, 1, 0
    {
      if func >= |env.funs| { return Abort; }
      var fn := env.funs[func];
      if fn.arity != |argv| { return ArityError(fn, argv); }
      var fp := Frame(func, argv);
      if IsSymbol(fn.form) {
        DynamicContextPush(fp);
        o := CallNative(n, fn.form, argv);
        if o.Value? { DynamicContextPop(); }
        return;
      }
      if !fn.form.Cons? { return Abort; }
      if n == 0 { return Deep; }
      var at := if fn.frameId in lexical then |lexical[fn.frameId]| else 0;
      DynamicContextPush(fp);
      if fn.arity > 0 { LexicalContextPush(fn.frameId, fp); }
      if !IsList(fn.form.cdr) {
        ExpireFrame(fn, at);
        return Abort;
      }
      ghost var entered := State();
      var value := fn.form.cdr;
      var it := fn.form.cdr;
      while it.Cons?
        invariant Body(n - 1, env, entered, fn.form.cdr, fn.form.cdr) == Body(n - 1, env, State(), value, it)
        decreases Size(it)
      {
        o := EvalForm(n - 1, it.car);
        if !o.Value? {
          ExpireFrame(fn, at);
          return;
        }
        value, it := o.v, it.cdr;
      }
      if fn.arity > 0 { LexicalContextPop(fn.frameId); }
      DynamicContextPop();
      ExpireFrame(fn, at);
      o := Value(value);
    }

    /** Env::Eval */
    method EvalForm(n: nat, form: Val) returns (o: Outcome)
      modifies this
      ensures (o, State()) == Eval(n, env, old(State()), form)
      decreases n, 2, Size(form)
    {
      if IsSymbol(form) { return SymbolValue(env, form); }
      if !form.Cons? { return Value(form); }
      var fn := form.car;
      if fn == QUOTE { return Value(Nth(form, 1)); }
      if fn == IF {
        var test := EvalForm(n, Nth(form, 1));
        if !test.Value? { return test; }
        var branch := if test.v == NIL then Nth(form, 3) else Nth(form, 2);
        if !branch.Func? { return Abort; }
        o := Funcall(n, branch.fid, []);
        return;
      }
      if IsSymbol(fn) {
        o := SymbolValue(env, fn);
      } else {
        o := EvalForm(n, fn);
      }
      if !o.Value? { return; }
      if !o.v.Func? { return Raise(Exn("eval", "type", o.v)); }
      var func := o.v.fid;
      var args := form.cdr;
      if !IsList(args) { return Abort; }
      if !Proper(args) { return Raise(Exn("length", "type", args)); }
      ghost var started := State();
      var vlist: seq<Val> := [];
      var it := args;
      assert forall xs: seq<Val> :: [] + xs == xs;
      while it.Cons?
        invariant Size(it) <= Size(args)
        invariant Args(n, env, started, args) == Gathered(vlist, Args(n, env, State(), it))
        decreases Size(it)
      {
        ghost var c := State();
        o := EvalForm(n, it.car);
        if !o.Value? { return; }
        Gather(vlist, n, env, c, it);
        vlist, it := vlist + [o.v], it.cdr;
      }
      assert vlist + [] == vlist;
      o := Funcall(n, func, vlist);
    }
  }

  /** The argument values so far, and how the loop will end. */
  function Gathered(done: seq<Val>, rest: (Outcome, seq<Val>, Context)): (Outcome, seq<Val>, Context) {
    (rest.0, done + rest.1, rest.2)
  }

  lemma Gather(done: seq<Val>, n: nat, g: Globals, c: Context, forms: Val)
    requires forms.Cons? && Eval(n, g, c, forms.car).0.Value?
    ensures var (o, c1) := Eval(n, g, c, forms.car);
            Gathered(done, Args(n, g, c, forms)) == Gathered(done + [o.v], Args(n, g, c1, forms.cdr))
  {
    var (o, c1) := Eval(n, g, c, forms.car);
    var vs := Args(n, g, c1, forms.cdr).1;
    assert done + ([o.v] + vs) == done + [o.v] + vs;
  }
}
