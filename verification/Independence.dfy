// Calling a function that existed before a compilation neither sees nor touches
// the frames of the lambdas that compilation made.

module Independence {
  import opened Lisp
  import opened Evaluator
  import opened Source

  /** Code that refers to frames only by env:lex-ref calls with a constant frame
      id outside `news`, and is otherwise clean. */
  predicate CodeOk(nb: nat, news: set<Val>, code: Val)
    decreases code, 1
  {
    match code
    case Cons(head, args) =>
      if head == LEX_REF then
        args.Cons? && args.cdr.Cons? && args.cdr.cdr == NIL && args.car.Key? &&
        args.car !in news && args.cdr.car.Fix?
      else if head == QUOTE then Clean(nb, args)
      else Proper(args) && CodeOk(nb, news, head) && CodesOk(nb, news, args)
    case _ => Clean(nb, code)
  }

  predicate CodesOk(nb: nat, news: set<Val>, codes: Val)
    decreases codes, 0
  {
    codes.Cons? ==> CodeOk(nb, news, codes.car) && CodesOk(nb, news, codes.cdr)
  }

  /** An existing function: a native, or a lambda whose code and frame id have
      nothing to do with the news frames. */
  predicate FuncOk(nb: nat, news: set<Val>, fn: FuncObj) {
    && fn.frameId !in news
    && (IsSymbol(fn.form) ==> fn.form != LEX_REF)
    && (fn.form.Cons? ==> CodesOk(nb, news, fn.form.cdr))
  }

  ghost predicate OutcomeClean(nb: nat, o: Outcome) {
    (o.Value? ==> Clean(nb, o.v)) && (o.Raise? ==> Clean(nb, o.exn))
  }

  /** The world before a compilation: function 0 is env:lex-ref, the other
      functions, the symbol values and the natives deal in clean data only. */
  ghost predicate WorldOk(nb: nat, news: set<Val>, g: Globals) {
    && 0 < nb <= |g.funs|
    && g.funs[0].arity == 2 && g.funs[0].form == LEX_REF
    && (forall f | 0 < f < nb :: FuncOk(nb, news, g.funs[f]))
    && 0 in g.syms
    && (forall s | s in g.syms :: if s == 0 then g.syms[s] == Func(0) else Clean(nb, g.syms[s]))
    && (forall m: nat, s, args {:trigger AllClean(m, args), g.prim(s, args)} ::
          nb <= m && AllClean(m, args) ==> OutcomeClean(m, g.prim(s, args)))
  }

  /** Two globals with the same world. */
  ghost predicate SameWorld(nb: nat, g: Globals, g': Globals) {
    && nb <= |g.funs| && nb <= |g'.funs|
    && (forall f | 0 <= f < nb :: g'.funs[f] == g.funs[f])
    && g'.syms == g.syms && g'.prim == g.prim
  }

  ghost predicate FramesClean(nb: nat, s: seq<Frame>) {
    forall k | 0 <= k < |s| && s[k].Frame? :: AllClean(nb, s[k].argv)
  }

  /** Two contexts with the same, clean, frames for every id that is not news. */
  ghost predicate Agree(nb: nat, news: set<Val>, c: Context, d: Context) {
    forall id {:trigger Stack(c, id)} {:trigger Stack(d, id)} :: id !in news ==>
      Stack(c, id) == Stack(d, id) && FramesClean(nb, Stack(c, id))
  }

  /** The frames of news ids are untouched. */
  ghost predicate Untouched(news: set<Val>, d: Context, d': Context) {
    forall id | id in news :: Stack(d', id) == Stack(d, id)
  }

  /** Two runs from agreeing contexts that end alike. */
  ghost predicate Alike(nb: nat, news: set<Val>, d: Context,
                        o: Outcome, c': Context, p: Outcome, d': Context) {
    p == o && OutcomeClean(nb, o) && Agree(nb, news, c', d') && Untouched(news, d, d')
  }

  lemma {:induction false} CleanNth(nb: nat, v: Val, k: nat)
    requires Clean(nb, v)
    ensures Clean(nb, Nth(v, k))
  {
    if v.Cons? && k > 0 { CleanNth(nb, v.cdr, k - 1); }
  }

  lemma {:induction false} CleanElements(nb: nat, v: Val)
    requires Clean(nb, v)
    ensures AllClean(nb, Elements(v))
  {
    if v.Cons? { CleanElements(nb, v.cdr); }
  }

  lemma {:induction false} CleanListOf(nb: nat, vs: seq<Val>)
    requires AllClean(nb, vs)
    ensures Clean(nb, ListOf(vs))
  {
    if vs != [] { CleanListOf(nb, vs[1..]); }
  }

  lemma CleanArityError(nb: nat, fn: FuncObj, args: seq<Val>)
    requires AllClean(nb, args)
    ensures OutcomeClean(nb, ArityError(fn, args))
  {
    CleanListOf(nb, args);
    CleanListOf(nb, [Key("nreq"), Fix(fn.arity), Key("from"), ListOf(args)]);
  }

  lemma {:induction false} NthCodeOk(nb: nat, news: set<Val>, codes: Val, k: nat)
    requires CodesOk(nb, news, codes)
    ensures CodeOk(nb, news, Nth(codes, k))
  {
    if codes.Cons? && k > 0 { NthCodeOk(nb, news, codes.cdr, k - 1); }
  }

  lemma SameAlike(nb: nat, news: set<Val>, c: Context, d: Context, o: Outcome)
    requires Agree(nb, news, c, d) && OutcomeClean(nb, o)
    ensures Alike(nb, news, d, o, c, o, d)
  {
  }

  lemma PushAgree(nb: nat, news: set<Val>, c: Context, d: Context, fn: FuncObj, fr: Frame)
    requires Agree(nb, news, c, d) && fr.Frame? && AllClean(nb, fr.argv) && fn.frameId !in news
    ensures Agree(nb, news, Enter(c, fn, fr), Enter(d, fn, fr))
    ensures Untouched(news, d, Enter(d, fn, fr))
    ensures Agree(nb, news, PushDynamic(c, fr), PushDynamic(d, fr))
    ensures Untouched(news, d, PushDynamic(d, fr))
  {
    forall id | id !in news
      ensures Stack(Enter(c, fn, fr), id) == Stack(Enter(d, fn, fr), id)
      ensures FramesClean(nb, Stack(Enter(c, fn, fr), id))
    {
      assert Stack(c, id) == Stack(d, id);
    }
    forall id | id !in news
      ensures Stack(PushDynamic(c, fr), id) == Stack(PushDynamic(d, fr), id)
      ensures FramesClean(nb, Stack(PushDynamic(c, fr), id))
    {
      assert Stack(c, id) == Stack(d, id);
    }
  }

  lemma PopAgree(nb: nat, news: set<Val>, c: Context, d: Context)
    requires Agree(nb, news, c, d)
    ensures Agree(nb, news, PopDynamic(c), PopDynamic(d)) && Untouched(news, d, PopDynamic(d))
  {
    forall id | id !in news
      ensures Stack(PopDynamic(c), id) == Stack(PopDynamic(d), id)
      ensures FramesClean(nb, Stack(PopDynamic(c), id))
    {
      assert Stack(c, id) == Stack(d, id);
    }
  }

  lemma ExitAgree(nb: nat, news: set<Val>, c: Context, d: Context, fn: FuncObj, o: Outcome, at: nat)
    requires Agree(nb, news, c, d) && fn.frameId !in news
    ensures Agree(nb, news, Exit(c, fn, o, at), Exit(d, fn, o, at)) && Untouched(news, d, Exit(d, fn, o, at))
  {
    forall id | id !in news
      ensures Stack(Exit(c, fn, o, at), id) == Stack(Exit(d, fn, o, at), id)
      ensures FramesClean(nb, Stack(Exit(c, fn, o, at), id))
    {
      assert Stack(c, id) == Stack(d, id);
      ExitStack(c, fn, o, at, id);
      ExitStack(d, fn, o, at, id);
      LeftClean(nb, Stack(c, id), o.Value?, at);
    }
    forall id | id in news ensures Stack(Exit(d, fn, o, at), id) == Stack(d, id) {
      ExitStack(d, fn, o, at, id);
    }
  }

  /** What leaving a call does to its own stack: pop on a value, and empty the
      entry if it is still there. */
  function Left(s: seq<Frame>, popped: bool, at: nat): seq<Frame> {
    var t := if popped && s != [] then s[..|s| - 1] else s;
    if at < |t| then t[at := Gone] else t
  }

  lemma ExitStack(c: Context, fn: FuncObj, o: Outcome, at: nat, id: Val)
    ensures Stack(Exit(c, fn, o, at), id) ==
            if fn.arity > 0 && id == fn.frameId then Left(Stack(c, id), o.Value?, at) else Stack(c, id)
  {
  }

  lemma LeftClean(nb: nat, s: seq<Frame>, popped: bool, at: nat)
    requires FramesClean(nb, s)
    ensures FramesClean(nb, Left(s, popped, at))
  {
    hide AllClean;
  }

  lemma UnwindAgree(nb: nat, news: set<Val>, c: Context, m: nat, d: Context, k: nat)
    requires Agree(nb, news, c, d)
    ensures Agree(nb, news, Unwind(c, m), Unwind(d, k)) && Untouched(news, d, Unwind(d, k))
  {
    forall id | id !in news
      ensures Stack(Unwind(c, m), id) == Stack(Unwind(d, k), id)
      ensures FramesClean(nb, Stack(Unwind(c, m), id))
    {
      assert Stack(c, id) == Stack(d, id);
    }
  }

  ghost predicate Ready(nb: nat, news: set<Val>, g: Globals, g': Globals, c: Context, d: Context) {
    WorldOk(nb, news, g) && SameWorld(nb, g, g') && Agree(nb, news, c, d)
  }

  lemma {:induction false} FuncallAlike(n: nat, g: Globals, g': Globals, nb: nat, news: set<Val>,
                                        c: Context, d: Context, f: nat, args: seq<Val>)
    requires Ready(nb, news, g, g', c, d) && 0 < f < nb && AllClean(nb, args)
    ensures var (o, c') := Funcall(n, g, c, f, args);
            var (p, d') := Funcall(n, g', d, f, args);
            Alike(nb, news, d, o, c', p, d')
    decreases n, 1, 0
  {
    hide Native, Body, Agree, Untouched, AllClean, CodesOk, Exit, Enter, Stack;
    var fn := g.funs[f];
    assert g'.funs[f] == fn && FuncOk(nb, news, fn);
    var fr := Frame(f, args);
    CleanArityError(nb, fn, args);
    assert OutcomeClean(nb, Funcall(n, g, c, f, args).0) ==>
             Alike(nb, news, d, Funcall(n, g, c, f, args).0, c, Funcall(n, g, c, f, args).0, d) by {
      if OutcomeClean(nb, Funcall(n, g, c, f, args).0) {
        SameAlike(nb, news, c, d, Funcall(n, g, c, f, args).0);
      }
    }
    PushAgree(nb, news, c, d, fn, fr);
    if fn.arity == |args| {
      if IsSymbol(fn.form) {
        NativeAlike(n, g, g', nb, news, PushDynamic(c, fr), PushDynamic(d, fr), fn.form, args);
        var (o, c1) := Native(n, g, PushDynamic(c, fr), fn.form, args);
        var (p, d1) := Native(n, g', PushDynamic(d, fr), fn.form, args);
        PopAgree(nb, news, c1, d1);
        AlikeAround(nb, news, d, PushDynamic(d, fr), d1, PopDynamic(d1));
        UntouchedThen(news, d, PushDynamic(d, fr), d1);
      } else if fn.form.Cons? && n > 0 {
        var c1, d1 := Enter(c, fn, fr), Enter(d, fn, fr);
        var at := |Stack(c, fn.frameId)|;
        assert Stack(c, fn.frameId) == Stack(d, fn.frameId) by { SameStack(nb, news, c, d, fn.frameId); }
        if IsList(fn.form.cdr) {
          BodyAlike(n - 1, g, g', nb, news, c1, d1, fn.form.cdr, fn.form.cdr);
          var (o, c2) := Body(n - 1, g, c1, fn.form.cdr, fn.form.cdr);
          var (p, d2) := Body(n - 1, g', d1, fn.form.cdr, fn.form.cdr);
          ExitAgree(nb, news, c2, d2, fn, o, at);
          AlikeAround(nb, news, d, d1, d2, Exit(d2, fn, o, at));
        } else {
          ExitAgree(nb, news, c1, d1, fn, Abort, at);
          UntouchedThen(news, d, d1, Exit(d1, fn, Abort, at));
        }
      }
    }
  }

  lemma SameStack(nb: nat, news: set<Val>, c: Context, d: Context, id: Val)
    requires Agree(nb, news, c, d) && id !in news
    ensures Stack(c, id) == Stack(d, id)
  {
  }

  lemma UntouchedThen(news: set<Val>, d: Context, d1: Context, d2: Context)
    requires Untouched(news, d, d1) && Untouched(news, d1, d2)
    ensures Untouched(news, d, d2)
  {
  }

  lemma AlikeAround(nb: nat, news: set<Val>, d: Context, d1: Context, d2: Context, d3: Context)
    requires Untouched(news, d, d1) && Untouched(news, d1, d2) && Untouched(news, d2, d3)
    ensures Untouched(news, d, d3)
  {
  }

  lemma {:induction false} NativeAlike(n: nat, g: Globals, g': Globals, nb: nat, news: set<Val>,
                                       c: Context, d: Context, name: Val, args: seq<Val>)
    requires Ready(nb, news, g, g', c, d) && IsSymbol(name) && name != LEX_REF && AllClean(nb, args)
    ensures var (o, c') := Native(n, g, c, name, args);
            var (p, d') := Native(n, g', d, name, args);
            Alike(nb, news, d, o, c', p, d')
    decreases n, 0, 0
  {
    hide Funcall, Agree, Untouched, Unwind;
    forall v | v in args ensures Clean(nb, v) {}
    assert name.Sym? ==> OutcomeClean(nb, g.prim(name.id, args));
    if name.Sym? && name.id == WITH_EX && |args| == 2 {
      assert args[0] in args && args[1] in args;
      if args[1].Func? && args[0].Func? && n > 0 {
        FuncallAlike(n - 1, g, g', nb, news, c, d, args[1].fid, []);
        var (o, c1) := Funcall(n - 1, g, c, args[1].fid, []);
        var (p, d1) := Funcall(n - 1, g', d, args[1].fid, []);
        if o.Raise? {
          UnwindAgree(nb, news, c1, |c.dynamic|, d1, |d.dynamic|);
          var c2, d2 := Unwind(c1, |c.dynamic|), Unwind(d1, |d.dynamic|);
          FuncallAlike(n - 1, g, g', nb, news, c2, d2, args[0].fid, [o.exn]);
          UntouchedThen(news, d, d1, d2);
          UntouchedThen(news, d, d2, Funcall(n - 1, g', d2, args[0].fid, [o.exn]).1);
        }
      } else {
        SameAlike(nb, news, c, d, Native(n, g, c, name, args).0);
      }
    } else if name.Sym? && name.id == FUNCALL && |args| == 2 {
      assert args[0] in args && args[1] in args;
      if args[0].Func? && IsList(args[1]) && n > 0 {
        CleanElements(nb, args[1]);
        FuncallAlike(n - 1, g, g', nb, news, c, d, args[0].fid, Elements(args[1]));
      } else {
        SameAlike(nb, news, c, d, Native(n, g, c, name, args).0);
      }
    } else {
      if |args| == 1 { assert args[0] in args; }
      SameAlike(nb, news, c, d, Native(n, g, c, name, args).0);
    }
  }

  lemma {:induction false} BodyAlike(n: nat, g: Globals, g': Globals, nb: nat, news: set<Val>,
                                     c: Context, d: Context, last: Val, forms: Val)
    requires Ready(nb, news, g, g', c, d) && CodesOk(nb, news, forms)
    requires !forms.Cons? ==> Clean(nb, last)
    ensures var (o, c') := Body(n, g, c, last, forms);
            var (p, d') := Body(n, g', d, last, forms);
            Alike(nb, news, d, o, c', p, d')
    decreases n, 2, Size(forms)
  {
    hide Eval, Agree, Untouched, Clean, CodeOk;
    if !forms.Cons? {
      SameAlike(nb, news, c, d, Value(last));
    } else {
      EvalAlike(n, g, g', nb, news, c, d, forms.car);
      var (o, c1) := Eval(n, g, c, forms.car);
      var (p, d1) := Eval(n, g', d, forms.car);
      if o.Value? {
        BodyAlike(n, g, g', nb, news, c1, d1, o.v, forms.cdr);
        UntouchedThen(news, d, d1, Body(n, g', d1, o.v, forms.cdr).1);
      }
    }
  }

  lemma {:induction false} ArgsAlike(n: nat, g: Globals, g': Globals, nb: nat, news: set<Val>,
                                     c: Context, d: Context, forms: Val)
    requires Ready(nb, news, g, g', c, d) && CodesOk(nb, news, forms)
    ensures var (o, vs, c') := Args(n, g, c, forms);
            var (p, ws, d') := Args(n, g', d, forms);
            Alike(nb, news, d, o, c', p, d') && ws == vs && AllClean(nb, vs)
    decreases n, 2, Size(forms), 0
  {
    hide Eval, Agree, Untouched, CodeOk;
    if !forms.Cons? {
      SameAlike(nb, news, c, d, Value(NIL));
    } else {
      EvalAlike(n, g, g', nb, news, c, d, forms.car);
      var (o, c1) := Eval(n, g, c, forms.car);
      var (p, d1) := Eval(n, g', d, forms.car);
      if o.Value? {
        ArgsAlike(n, g, g', nb, news, c1, d1, forms.cdr);
        UntouchedThen(news, d, d1, Args(n, g', d1, forms.cdr).2);
      }
    }
  }

  lemma {:induction false} ApplyAlike(n: nat, g: Globals, g': Globals, nb: nat, news: set<Val>,
                                      c: Context, d: Context, head: Val, args: Val)
    requires Ready(nb, news, g, g', c, d) && Clean(nb, head) && CodesOk(nb, news, args) && Proper(args)
    ensures var (o, c') := Apply(n, g, c, head, args);
            var (p, d') := Apply(n, g', d, head, args);
            Alike(nb, news, d, o, c', p, d')
    decreases n, 2, Size(args), 1
  {
    hide Args, Funcall, Agree, Untouched, CodesOk;
    if head.Func? {
      ArgsAlike(n, g, g', nb, news, c, d, args);
      var (o, vs, c1) := Args(n, g, c, args);
      var (p, ws, d1) := Args(n, g', d, args);
      if o.Value? {
        FuncallAlike(n, g, g', nb, news, c1, d1, head.fid, vs);
        UntouchedThen(news, d, d1, Funcall(n, g', d1, head.fid, vs).1);
      }
    } else {
      SameAlike(nb, news, c, d, Apply(n, g, c, head, args).0);
    }
  }

  /** A reference to a frame that is not new: the same in both runs. */
  lemma RefAlike(n: nat, g: Globals, g': Globals, nb: nat, news: set<Val>,
                 c: Context, d: Context, form: Val)
    requires Ready(nb, news, g, g', c, d) && CodeOk(nb, news, form)
    requires form.Cons? && form.car == LEX_REF
    ensures var (o, c') := Eval(n, g, c, form);
            var (p, d') := Eval(n, g', d, form);
            Alike(nb, news, d, o, c', p, d')
  {
    hide Agree, Untouched, Funcall;
    var id, off := form.cdr.car, form.cdr.cdr.car;
    assert form == RefForm(id, off);
    RefEval(n, g, c, id, off);
    RefEval(n, g', d, id, off);
    FrameRefAlike(nb, news, c, d, id, off);
    SameStacks(nb, news, c, d, Frame(0, [id, off]));
  }

  function RefForm(id: Val, off: Val): Val { Cons(LEX_REF, Cons(id, Cons(off, NIL))) }

  /** Evaluating a reference reads the frame and changes no stack. */
  lemma RefEval(n: nat, g: Globals, c: Context, id: Val, off: Val)
    requires id.Key? && off.Fix? && 0 in g.syms && g.syms[0] == Func(0)
    requires 0 < |g.funs| && g.funs[0].arity == 2 && g.funs[0].form == LEX_REF
    ensures Eval(n, g, c, RefForm(id, off)) ==
            (FrameRef(c, [id, off]), AfterRef(c, FrameRef(c, [id, off]), Frame(0, [id, off])))
  {
    hide Funcall;
    RefArgs(n, g, c, id, off);
    RefCall(n, g, c, id, off);
    var args := Cons(id, Cons(off, NIL));
    assert Proper(NIL);
    assert args.cdr == Cons(off, NIL) && Proper(args.cdr);
    assert Proper(args);
    assert Eval(n, g, c, RefForm(id, off)) == Apply(n, g, c, Func(0), args);
  }

  lemma RefArgs(n: nat, g: Globals, c: Context, id: Val, off: Val)
    requires id.Key? && off.Fix?
    ensures Args(n, g, c, Cons(id, Cons(off, NIL))) == (Value(NIL), [id, off], c)
  {
    assert Eval(n, g, c, off) == (Value(off), c) && Eval(n, g, c, id) == (Value(id), c);
    assert Args(n, g, c, NIL) == (Value(NIL), [], c);
    assert [off] + [] == [off] && [id] + [off] == [id, off];
    assert Args(n, g, c, Cons(off, NIL)) == (Value(NIL), [off], c);
  }

  /** What a call of env:lex-ref leaves: nothing on the stacks. */
  function AfterRef(c: Context, o: Outcome, fr: Frame): Context {
    if o.Value? then PopDynamic(PushDynamic(c, fr)) else PushDynamic(c, fr)
  }

  lemma RefCall(n: nat, g: Globals, c: Context, id: Val, off: Val)
    requires 0 < |g.funs| && g.funs[0].arity == 2 && g.funs[0].form == LEX_REF
    ensures Funcall(n, g, c, 0, [id, off]) ==
            (FrameRef(c, [id, off]), AfterRef(c, FrameRef(c, [id, off]), Frame(0, [id, off])))
  {
    assert Stack(PushDynamic(c, Frame(0, [id, off])), id) == Stack(c, id);
  }

  lemma FrameRefAlike(nb: nat, news: set<Val>, c: Context, d: Context, id: Val, off: Val)
    requires Agree(nb, news, c, d) && id !in news && off.Fix?
    ensures FrameRef(c, [id, off]) == FrameRef(d, [id, off])
    ensures OutcomeClean(nb, FrameRef(c, [id, off]))
  {
    hide Clean;
    assert Stack(c, id) == Stack(d, id) && FramesClean(nb, Stack(c, id));
  }

  lemma SameStacks(nb: nat, news: set<Val>, c: Context, d: Context, fr: Frame)
    requires Agree(nb, news, c, d)
    ensures forall o :: Agree(nb, news, AfterRef(c, o, fr), AfterRef(d, o, fr))
    ensures forall o :: Untouched(news, d, AfterRef(d, o, fr))
  {
    forall o
      ensures Agree(nb, news, AfterRef(c, o, fr), AfterRef(d, o, fr))
      ensures Untouched(news, d, AfterRef(d, o, fr))
    {
      assert forall id :: Stack(AfterRef(c, o, fr), id) == Stack(c, id);
      assert forall id :: Stack(AfterRef(d, o, fr), id) == Stack(d, id);
    }
  }

  /** Clean code means the same whichever new frames there are, and leaves them
      alone. */
  lemma {:induction false} EvalAlike(n: nat, g: Globals, g': Globals, nb: nat, news: set<Val>,
                                     c: Context, d: Context, form: Val)
    requires Ready(nb, news, g, g', c, d) && CodeOk(nb, news, form)
    ensures var (o, c') := Eval(n, g, c, form);
            var (p, d') := Eval(n, g', d, form);
            Alike(nb, news, d, o, c', p, d')
    decreases n, 2, Size(form)
  {
    hide Apply, Funcall, Agree, Untouched, CodesOk;
    if form.Cons? {
      if form.car == LEX_REF {
        RefAlike(n, g, g', nb, news, c, d, form);
      } else if form.car == QUOTE {
        if form.cdr.Cons? { assert Nth(form, 1) == Nth(form.cdr, 0); }
        CleanNth(nb, form.cdr, 0);
        SameAlike(nb, news, c, d, Value(Nth(form, 1)));
      } else if form.car == IF {
        IfAlike(n, g, g', nb, news, c, d, form);
      } else if IsSymbol(form.car) {
        var o := SymbolValue(g, form.car);
        if o.Value? {
          ApplyAlike(n, g, g', nb, news, c, d, o.v, form.cdr);
        } else {
          SameAlike(nb, news, c, d, o);
        }
      } else {
        EvalAlike(n, g, g', nb, news, c, d, form.car);
        var (o, c1) := Eval(n, g, c, form.car);
        var (p, d1) := Eval(n, g', d, form.car);
        if o.Value? {
          ApplyAlike(n, g, g', nb, news, c1, d1, o.v, form.cdr);
          UntouchedThen(news, d, d1, Apply(n, g', d1, o.v, form.cdr).1);
        }
      }
    } else {
      SameAlike(nb, news, c, d, Eval(n, g, c, form).0);
    }
  }

  lemma {:induction false} IfAlike(n: nat, g: Globals, g': Globals, nb: nat, news: set<Val>,
                                   c: Context, d: Context, form: Val)
    requires Ready(nb, news, g, g', c, d) && CodeOk(nb, news, form) && form.Cons? && form.car == IF
    ensures var (o, c') := Eval(n, g, c, form);
            var (p, d') := Eval(n, g', d, form);
            Alike(nb, news, d, o, c', p, d')
    decreases n, 2, Size(form), 0
  {
    hide Funcall, Agree, Untouched;
    NthCodeOk(nb, news, form.cdr, 0);
    NthCodeOk(nb, news, form.cdr, 1);
    NthCodeOk(nb, news, form.cdr, 2);
    assert Nth(form, 1) == Nth(form.cdr, 0);
    assert Nth(form, 2) == Nth(form.cdr, 1) && Nth(form, 3) == Nth(form.cdr, 2);
    EvalAlike(n, g, g', nb, news, c, d, Nth(form, 1));
    var (o, c1) := Eval(n, g, c, Nth(form, 1));
    var (p, d1) := Eval(n, g', d, Nth(form, 1));
    if o.Value? {
      var branch := if o.v == NIL then Nth(form, 3) else Nth(form, 2);
      if branch.Func? {
        FuncallAlike(n, g, g', nb, news, c1, d1, branch.fid, []);
        UntouchedThen(news, d, d1, Funcall(n, g', d1, branch.fid, []).1);
      } else {
        SameAlike(nb, news, c1, d1, Abort);
        UntouchedThen(news, d, d1, d1);
      }
    }
  }
}
