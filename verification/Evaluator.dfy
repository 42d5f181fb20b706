// The evaluator (core/eval.cc), its contexts (core/context.h) and the natives
// that touch them (env/env-frame.cc, mu/mu-exception.cc, mu/mu-function.cc), as
// functions of the context.
//
// Evaluation need not terminate, so it is given a depth: each call of a lambda
// and each native that calls back spends one unit.

module Evaluator {
  import opened Lisp

  /** A function object: a native's form is its symbol, a lambda's is its
      parameter list consed on its body. */
  datatype FuncObj = FuncObj(arity: nat, form: Val, frameId: Val)

  /** What a stack of frames holds: frames, or what is left of one whose call has
      been left. The source's stacks hold pointers to the calls' own variables,
      so an entry that outlives its call leads nowhere. */
  datatype Frame = Frame(func: nat, argv: seq<Val>) | Gone

  /** Execution context: the control stack, one stack of frames for each frame
      id, the deepest control stack so far, and the number of exceptions caught. */
  datatype Context = Context(dynamic: seq<Frame>, lexical: map<Val, seq<Frame>>,
                             maxDepth: nat, caught: nat)

  /** A value, a raised exception object, a C++ failure that no handler sees, a
      read through an entry whose call is gone, a read beyond a frame's arguments,
      or the depth spent. */
  datatype Outcome = Value(v: Val) | Raise(exn: Val) | Abort | Stale | OutOfRange | Deep

  /** What evaluation reads but does not change: function objects, symbol values,
      and the natives that compute a result from their arguments alone. */
  datatype Globals = Globals(funs: seq<FuncObj>, syms: map<nat, Val>,
                             prim: (nat, seq<Val>) -> Outcome)

  // Natives that use the context or call back.
  const WITH_EX: nat := 1
  const FUNCALL: nat := 2
  const RAISE: nat := 3

  function Stack(c: Context, id: Val): seq<Frame> {
    if id in c.lexical then c.lexical[id] else []
  }

  /** DynamicContextPush */
  function PushDynamic(c: Context, fr: Frame): Context {
    var dynamic := c.dynamic + [fr];
    c.(dynamic := dynamic, maxDepth := if |dynamic| > c.maxDepth then |dynamic| else c.maxDepth)
  }

  /** DynamicContextPop */
  function PopDynamic(c: Context): Context {
    if c.dynamic == [] then c else c.(dynamic := c.dynamic[..|c.dynamic| - 1])
  }

  /** LexicalContextPush */
  function PushLexical(c: Context, id: Val, fr: Frame): Context {
    c.(lexical := c.lexical[id := Stack(c, id) + [fr]])
  }

  /** LexicalContextPop */
  function PopLexical(c: Context, id: Val): Context {
    var s := Stack(c, id);
    if s == [] then c else c.(lexical := c.lexical[id := s[..|s| - 1]])
  }

  /** What a returning lambda call does: one lexical pop if there are parameters,
      then the dynamic pop. */
  function Leave(c: Context, fn: FuncObj): Context {
    PopDynamic(if fn.arity > 0 then PopLexical(c, fn.frameId) else c)
  }

  /** A lambda call is left, one way or the other: if its entry, pushed at
      position `at`, is still on its stack, the frame it led to is gone. */
  function Expire(c: Context, fn: FuncObj, at: nat): Context {
    var s := Stack(c, fn.frameId);
    if fn.arity > 0 && at < |s| then c.(lexical := c.lexical[fn.frameId := s[at := Gone]]) else c
  }

  /** The context after a lambda call whose body ended with o. */
  function Exit(c: Context, fn: FuncObj, o: Outcome, at: nat): Context {
    Expire(if o.Value? then Leave(c, fn) else c, fn, at)
  }

  function ArityError(fn: FuncObj, args: seq<Val>): Outcome {
    Raise(Exn("funcall", "arity",
              ListOf([Key("nreq"), Fix(fn.arity), Key("from"), ListOf(args)])))
  }

  /** env:lex-ref: the offset-th argument of the latest frame of a frame id. */
  function FrameRef(c: Context, args: seq<Val>): Outcome {
    if |args| != 2 then Abort
    else if !args[1].Fix? then Raise(Exn("lex-ref", "type", args[1]))
    else
      var s := Stack(c, args[0]);
      if s == [] then Abort
      else if s[|s| - 1].Gone? then Stale
      else
        var argv := s[|s| - 1].argv;
        if 0 <= args[1].n < |argv| then Value(argv[args[1].n]) else OutOfRange
  }

  /** Env::Funcall */
  function Funcall(n: nat, g: Globals, c: Context, f: nat, args: seq<Val>): (Outcome, Context)
    decreases n, 1, 0
  {
    if f >= |g.funs| then (Abort, c)
    else
      var fn := g.funs[f];
      if fn.arity != |args| then (ArityError(fn, args), c)
      else if IsSymbol(fn.form) then
        var (o, c1) := Native(n, g, PushDynamic(c, Frame(f, args)), fn.form, args);
        (o, if o.Value? then PopDynamic(c1) else c1)
      else if !fn.form.Cons? then (Abort, c)
      else if n == 0 then (Deep, c)
      else
        var at := |Stack(c, fn.frameId)|;
        var c1 := Enter(c, fn, Frame(f, args));
        if !IsList(fn.form.cdr) then (Abort, Exit(c1, fn, Abort, at))
        else
          var (o, c2) := Body(n - 1, g, c1, fn.form.cdr, fn.form.cdr);
          (o, Exit(c2, fn, o, at))
  }

  /** What a lambda call pushes. */
  function Enter(c: Context, fn: FuncObj, fr: Frame): Context {
    var c1 := PushDynamic(c, fr);
    if fn.arity > 0 then PushLexical(c1, fn.frameId, fr) else c1
  }

  /** The native functions, dispatched on their symbol. */
  function Native(n: nat, g: Globals, c: Context, name: Val, args: seq<Val>): (Outcome, Context)
    decreases n, 0, 0
  {
    if name == LEX_REF then (FrameRef(c, args), c)
    else if !name.Sym? then (Abort, c)
    else if name.id == WITH_EX && |args| == 2 then
      if !args[1].Func? then (Raise(Exn("with-ex", "type", args[1])), c)
      else if !args[0].Func? then (Raise(Exn("with-ex", "type", args[0])), c)
      else if n == 0 then (Deep, c)
      else
        var (o, c1) := Funcall(n - 1, g, c, args[1].fid, []);
        if o.Raise? then Funcall(n - 1, g, Unwind(c1, |c.dynamic|), args[0].fid, [o.exn])
        else (o, c1)
    else if name.id == FUNCALL && |args| == 2 then
      if !args[0].Func? then (Raise(Exn("funcall", "type", args[0])), c)
      else if !IsList(args[1]) then (Raise(Exn("funcall", "type", args[1])), c)
      else if n == 0 then (Deep, c)
      else Funcall(n - 1, g, c, args[0].fid, Elements(args[1]))
    else if name.id == RAISE && |args| == 1 then
      (if args[0].Exn? then Raise(args[0]) else Raise(Exn("ex-rais", "type", args[0])), c)
    else (g.prim(name.id, args), c)
  }

  /** Catching an exception resizes the control stack to its mark; the lexical
      stacks are left as they are. */
  function Unwind(c: Context, mark: nat): Context {
    c.(dynamic := if mark <= |c.dynamic| then c.dynamic[..mark] else c.dynamic, caught := c.caught + 1)
  }

  /** A lambda body: the last value, or the body itself when it is empty. */
  function Body(n: nat, g: Globals, c: Context, last: Val, forms: Val): (Outcome, Context)
    decreases n, 2, Size(forms)
  {
    if !forms.Cons? then (Value(last), c)
    else
      var (o, c1) := Eval(n, g, c, forms.car);
      if o.Value? then Body(n, g, c1, o.v, forms.cdr) else (o, c1)
  }

  /** Argument forms, left to right: their values, or the first failure. */
  function Args(n: nat, g: Globals, c: Context, forms: Val): (Outcome, seq<Val>, Context)
    decreases n, 2, Size(forms), 0
  {
    if !forms.Cons? then (Value(NIL), [], c)
    else
      var (o, c1) := Eval(n, g, c, forms.car);
      if !o.Value? then (o, [], c1)
      else
        var (rest, vs, c2) := Args(n, g, c1, forms.cdr);
        (rest, [o.v] + vs, c2)
  }

  /** A symbol's value; keywords are their own. */
  function SymbolValue(g: Globals, s: Val): Outcome
    requires IsSymbol(s)
  {
    if s.Key? then Value(s)
    else if s.id in g.syms then Value(g.syms[s.id])
    else Raise(Exn("eval", "unbound", s))
  }

  /** Applying the value of a head to argument forms. */
  function Apply(n: nat, g: Globals, c: Context, head: Val, args: Val): (Outcome, Context)
    decreases n, 2, Size(args), 1
  {
    if !head.Func? then (Raise(Exn("eval", "type", head)), c)
    else if !IsList(args) then (Abort, c)
    else if !Proper(args) then (Raise(Exn("length", "type", args)), c)
    else
      var (o, vs, c1) := Args(n, g, c, args);
      if o.Value? then Funcall(n, g, c1, head.fid, vs) else (o, c1)
  }

  /** Env::Eval */
  function Eval(n: nat, g: Globals, c: Context, form: Val): (Outcome, Context)
    decreases n, 2, Size(form)
  {
    if IsSymbol(form) then (SymbolValue(g, form), c)
    else if !form.Cons? then (Value(form), c)
    else if form.car == QUOTE then (Value(Nth(form, 1)), c)
    else if form.car == IF then
      var (o, c1) := Eval(n, g, c, Nth(form, 1));
      if !o.Value? then (o, c1)
      else
        var branch := if o.v == NIL then Nth(form, 3) else Nth(form, 2);
        if branch.Func? then Funcall(n, g, c1, branch.fid, []) else (Abort, c1)
    else if IsSymbol(form.car) then
      var o := SymbolValue(g, form.car);
      if o.Value? then Apply(n, g, c, o.v, form.cdr) else (o, c)
    else
      var (o, c1) := Eval(n, g, c, form.car);
      if o.Value? then Apply(n, g, c1, o.v, form.cdr) else (o, c1)
  }
}
