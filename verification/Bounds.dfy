// References stay in bounds over whole runs: no evaluation of compiled code, from
// any context whose frames fit, reads beyond a frame's arguments.

module Bounds {
  import opened Options
  import opened Lisp
  import opened Numerals
  import opened Evaluator
  import opened Discipline
  import opened Compiler
  import opened Source
  import opened Independence
  import opened Simulation
  import opened Addresses
  import opened Worlds

  /** Every reference in the code is in range. */
  ghost predicate CodeInRange(funs: seq<FuncObj>, code: Val)
    decreases code, 1
  {
    match code
    case Cons(head, args) =>
      if head == LEX_REF then
        args.Cons? && args.cdr.Cons? && args.cdr.car.Fix? ==> InRange(funs, args.car, args.cdr.car.n)
      else head == QUOTE || (CodeInRange(funs, head) && CodesInRange(funs, args))
    case _ => true
  }

  ghost predicate CodesInRange(funs: seq<FuncObj>, codes: Val)
    decreases codes, 0
  {
    codes.Cons? ==> CodeInRange(funs, codes.car) && CodesInRange(funs, codes.cdr)
  }

  ghost predicate BodiesInRange(funs: seq<FuncObj>, from: nat, all: seq<FuncObj>) {
    forall f | from <= f < |funs| && funs[f].form.Cons? :: CodesInRange(all, funs[f].form.cdr)
  }

  /** A world of clean functions whose references are in range, natives that read
      no frames, and a context whose frames are clean and fit. */
  ghost predicate Bounded(g: Globals, c: Context) {
    && WorldOk(|g.funs|, {}, g) && Agree(|g.funs|, {}, c, c)
    && BodiesInRange(g.funs, 0, g.funs) && AllFit(g, c)
    && forall s, args {:trigger g.prim(s, args)} :: !g.prim(s, args).OutOfRange?
  }

  /** An evaluation that reads nothing beyond a frame and may be followed by
      another. */
  ghost predicate StaysIn(g: Globals, o: Outcome, c': Context) {
    !o.OutOfRange? && Bounded(g, c')
  }

  lemma BoundedReady(g: Globals, c: Context)
    requires Bounded(g, c)
    ensures Ready(|g.funs|, {}, g, g, c, c)
  {
  }

  lemma StaysBounded(g: Globals, c: Context, o: Outcome, c': Context)
    requires Bounded(g, c) && Disciplined(g, c, o, c') && Alike(|g.funs|, {}, c, o, c', o, c')
    ensures Bounded(g, c') && OutcomeClean(|g.funs|, o)
  {
    FramesKeepFitting(g, c, o, c');
  }

  lemma EnterBounded(g: Globals, c: Context, f: nat, args: seq<Val>)
    requires Bounded(g, c) && f < |g.funs| && g.funs[f].arity == |args| && AllClean(|g.funs|, args)
    ensures Bounded(g, Enter(c, g.funs[f], Frame(f, args)))
    ensures Bounded(g, PushDynamic(c, Frame(f, args)))
  {
    hide AllClean, FuncOk, CodesInRange;
    var fn, fr := g.funs[f], Frame(f, args);
    PushAgree(|g.funs|, {}, c, c, fn, fr);
    var c1 := Enter(c, fn, fr);
    forall id, k | 0 <= k < |Stack(c1, id)| ensures Fits(g, id, Stack(c1, id)[k]) {
      EnterStack(c, fn, fr, id);
      if k < |Stack(c, id)| { assert Stack(c1, id)[k] == Stack(c, id)[k]; }
    }
    forall id, k | 0 <= k < |Stack(PushDynamic(c, fr), id)| ensures Fits(g, id, Stack(PushDynamic(c, fr), id)[k]) {
      assert Stack(PushDynamic(c, fr), id) == Stack(c, id);
    }
  }

  lemma UnwindBounded(g: Globals, c: Context, mark: nat)
    requires Bounded(g, c)
    ensures Bounded(g, Unwind(c, mark))
  {
    hide WorldOk, BodiesInRange;
    UnwindAgree(|g.funs|, {}, c, mark, c, mark);
    forall id, k | 0 <= k < |Stack(Unwind(c, mark), id)| ensures Fits(g, id, Stack(Unwind(c, mark), id)[k]) {
      assert Stack(Unwind(c, mark), id) == Stack(c, id);
    }
  }

  lemma {:induction false} FuncallStaysIn(n: nat, g: Globals, c: Context, f: nat, args: seq<Val>)
    requires Bounded(g, c) && 0 < f < |g.funs| && AllClean(|g.funs|, args)
    ensures StaysIn(g, Funcall(n, g, c, f, args).0, Funcall(n, g, c, f, args).1)
    ensures OutcomeClean(|g.funs|, Funcall(n, g, c, f, args).0)
    decreases n, 1, 0
  {
    hide Native, Body, Enter, PushDynamic, Exit, AllClean, OutcomeClean, Disciplined, Alike, CodesOk, CodesInRange;
    BoundedReady(g, c);
    FuncallAlike(n, g, g, |g.funs|, {}, c, c, f, args);
    FuncallIsDisciplined(n, g, c, f, args);
    StaysBounded(g, c, Funcall(n, g, c, f, args).0, Funcall(n, g, c, f, args).1);
    var fn := g.funs[f];
    assert FuncOk(|g.funs|, {}, fn);
    hide Bounded;
    if fn.arity == |args| {
      EnterBounded(g, c, f, args);
      if IsSymbol(fn.form) {
        NativeStaysIn(n, g, PushDynamic(c, Frame(f, args)), fn.form, args);
      } else if fn.form.Cons? && n > 0 && IsList(fn.form.cdr) {
        BodyOfFunction(g, c, f);
        BodyStaysIn(n - 1, g, Enter(c, fn, Frame(f, args)), fn.form.cdr, fn.form.cdr);
      }
    }
  }

  lemma BodyOfFunction(g: Globals, c: Context, f: nat)
    requires Bounded(g, c) && f < |g.funs| && g.funs[f].form.Cons?
    ensures CodesInRange(g.funs, g.funs[f].form.cdr)
  {
  }

  lemma PrimStaysIn(g: Globals, c: Context, id: nat, args: seq<Val>)
    requires Bounded(g, c)
    ensures !g.prim(id, args).OutOfRange?
  {
  }

  lemma {:induction false} NativeStaysIn(n: nat, g: Globals, c: Context, name: Val, args: seq<Val>)
    requires Bounded(g, c) && IsSymbol(name) && name != LEX_REF && AllClean(|g.funs|, args)
    ensures !Native(n, g, c, name, args).0.OutOfRange?
    decreases n, 0, 0
  {
    hide Funcall, Bounded, Unwind, OutcomeClean;
    if name.Sym? {
      PrimStaysIn(g, c, name.id, args);
      forall v | v in args ensures Clean(|g.funs|, v) {}
      if name.id == WITH_EX && |args| == 2 && n > 0 {
        assert args[0] in args && args[1] in args;
        if args[1].Func? && args[0].Func? {
          FuncallStaysIn(n - 1, g, c, args[1].fid, []);
          var (o, c1) := Funcall(n - 1, g, c, args[1].fid, []);
          if o.Raise? {
            UnwindBounded(g, c1, |c.dynamic|);
            assert AllClean(|g.funs|, [o.exn]) by { RaisedIsClean(|g.funs|, o); }
            FuncallStaysIn(n - 1, g, Unwind(c1, |c.dynamic|), args[0].fid, [o.exn]);
          }
        }
      } else if name.id == FUNCALL && |args| == 2 && n > 0 {
        assert args[0] in args && args[1] in args;
        if args[0].Func? {
          CleanElements(|g.funs|, args[1]);
          FuncallStaysIn(n - 1, g, c, args[0].fid, Elements(args[1]));
        }
      }
    }
  }

  lemma RaisedIsClean(nb: nat, o: Outcome)
    requires o.Raise? && OutcomeClean(nb, o)
    ensures AllClean(nb, [o.exn])
  {
  }

  lemma {:induction false} BodyStaysIn(n: nat, g: Globals, c: Context, last: Val, forms: Val)
    requires Bounded(g, c) && CodesOk(|g.funs|, {}, forms) && CodesInRange(g.funs, forms)
    ensures !Body(n, g, c, last, forms).0.OutOfRange?
    decreases n, 2, Size(forms)
  {
    hide Eval, Bounded, CodeOk, CodeInRange;
    if forms.Cons? {
      EvalStaysIn(n, g, c, forms.car);
      var (o, c1) := Eval(n, g, c, forms.car);
      if o.Value? { BodyStaysIn(n, g, c1, o.v, forms.cdr); }
    }
  }

  lemma {:induction false} ArgsStayIn(n: nat, g: Globals, c: Context, forms: Val)
    requires Bounded(g, c) && CodesOk(|g.funs|, {}, forms) && CodesInRange(g.funs, forms)
    ensures StaysIn(g, Args(n, g, c, forms).0, Args(n, g, c, forms).2)
    ensures AllClean(|g.funs|, Args(n, g, c, forms).1)
    decreases n, 2, Size(forms), 0
  {
    hide Eval, Bounded, CodeOk, CodeInRange, OutcomeClean, Clean;
    if forms.Cons? {
      EvalStaysIn(n, g, c, forms.car);
      var (o, c1) := Eval(n, g, c, forms.car);
      if o.Value? {
        ArgsStayIn(n, g, c1, forms.cdr);
        ValueIsClean(|g.funs|, o);
      }
    }
  }

  lemma ValueIsClean(nb: nat, o: Outcome)
    requires o.Value? && OutcomeClean(nb, o)
    ensures Clean(nb, o.v)
  {
  }

  lemma {:induction false} ApplyStaysIn(n: nat, g: Globals, c: Context, head: Val, args: Val)
    requires Bounded(g, c) && Clean(|g.funs|, head)
    requires CodesOk(|g.funs|, {}, args) && CodesInRange(g.funs, args)
    ensures !Apply(n, g, c, head, args).0.OutOfRange?
    decreases n, 2, Size(args), 1
  {
    hide Args, Funcall, Bounded, CodesOk, CodesInRange, AllClean;
    if head.Func? && IsList(args) && Proper(args) {
      ArgsStayIn(n, g, c, args);
      var (o, vs, c1) := Args(n, g, c, args);
      if o.Value? { FuncallStaysIn(n, g, c1, head.fid, vs); }
    }
  }

  lemma RefStaysIn(n: nat, g: Globals, c: Context, form: Val)
    requires Bounded(g, c) && form.Cons? && form.car == LEX_REF
    requires CodeOk(|g.funs|, {}, form) && CodeInRange(g.funs, form)
    ensures !Eval(n, g, c, form).0.OutOfRange?
  {
    hide Eval, FrameRef;
    var id, off := form.cdr.car, form.cdr.cdr.car;
    assert form == RefForm(id, off);
    RefEval(n, g, c, id, off);
    ReferencesInRangeRead(g, c, id, off.n);
  }

  /** Clean code whose references are in range never reads beyond a frame, and
      whatever it returns or raises, evaluation can go on. */
  lemma {:induction false} EvalStaysIn(n: nat, g: Globals, c: Context, form: Val)
    requires Bounded(g, c) && CodeOk(|g.funs|, {}, form) && CodeInRange(g.funs, form)
    ensures StaysIn(g, Eval(n, g, c, form).0, Eval(n, g, c, form).1)
    ensures OutcomeClean(|g.funs|, Eval(n, g, c, form).0)
    decreases n, 2, Size(form)
  {
    hide Apply, Funcall, Disciplined, Alike, OutcomeClean, CodesOk, CodesInRange, FrameRef;
    BoundedReady(g, c);
    EvalAlike(n, g, g, |g.funs|, {}, c, c, form);
    EvalIsDisciplined(n, g, c, form);
    StaysBounded(g, c, Eval(n, g, c, form).0, Eval(n, g, c, form).1);
    if form.Cons? && form.car != QUOTE {
      if form.car == LEX_REF {
        RefStaysIn(n, g, c, form);
      } else if form.car == IF {
        IfStaysIn(n, g, c, form);
      } else if IsSymbol(form.car) {
        var o := SymbolValue(g, form.car);
        if o.Value? { ApplyStaysIn(n, g, c, o.v, form.cdr); }
      } else {
        EvalStaysIn(n, g, c, form.car);
        var (o, c1) := Eval(n, g, c, form.car);
        if o.Value? {
          ValueIsClean(|g.funs|, o);
          ApplyStaysIn(n, g, c1, o.v, form.cdr);
        }
      }
    }
  }

  lemma {:induction false} NthInRange(funs: seq<FuncObj>, codes: Val, k: nat)
    requires CodesInRange(funs, codes)
    ensures CodeInRange(funs, Nth(codes, k))
  {
    if codes.Cons? && k > 0 { NthInRange(funs, codes.cdr, k - 1); }
  }

  lemma {:induction false} IfStaysIn(n: nat, g: Globals, c: Context, form: Val)
    requires Bounded(g, c) && CodeOk(|g.funs|, {}, form) && CodeInRange(g.funs, form)
    requires form.Cons? && form.car == IF
    ensures !Eval(n, g, c, form).0.OutOfRange?
    decreases n, 2, Size(form), 0
  {
    hide Funcall, Bounded;
    var nb := |g.funs|;
    NthCodeOk(nb, {}, form.cdr, 0);
    NthCodeOk(nb, {}, form.cdr, 1);
    NthCodeOk(nb, {}, form.cdr, 2);
    NthInRange(g.funs, form.cdr, 0);
    assert Nth(form, 1) == Nth(form.cdr, 0);
    assert Nth(form, 2) == Nth(form.cdr, 1) && Nth(form, 3) == Nth(form.cdr, 2);
    EvalStaysIn(n, g, c, Nth(form, 1));
    var (o, c1) := Eval(n, g, c, Nth(form, 1));
    if o.Value? {
      var branch := if o.v == NIL then Nth(form, 3) else Nth(form, 2);
      if branch.Func? { FuncallStaysIn(n, g, c1, branch.fid, []); }
    }
  }

  // ------------------------------------------------------------ what compiling emits

  /** `all` is what the function table becomes: it has the frame ids and arities
      of what there is now. */
  ghost predicate Becomes(funs: seq<FuncObj>, all: seq<FuncObj>) {
    && |funs| <= |all|
    && forall h | 0 <= h < |funs| :: all[h].frameId == funs[h].frameId && all[h].arity == funs[h].arity
  }

  ghost predicate Sole(all: seq<FuncObj>, f: nat) {
    f < |all| && forall h | 0 <= h < |all| && all[h].frameId == all[f].frameId :: h == f
  }

  ghost predicate SoleFrom(all: seq<FuncObj>, from: nat, to: nat) {
    forall f | from <= f < to :: Sole(all, f)
  }

  /** The enclosing lambdas own their frame ids and have the arities of their
      parameter lists. */
  ghost predicate Enclosing(cs: CState, all: seq<FuncObj>) {
    forall f | f in cs.lexicals :: f < |cs.funs| && Sole(all, f) && all[f].arity == |ParamsOf(cs.funs, f)|
  }

  lemma BecomesEarlier(cs: CState, r: CResult, cs': CState, all: seq<FuncObj>)
    requires Grows(cs, r, cs') && Becomes(cs'.funs, all)
    ensures Becomes(cs.funs, all)
  {
    forall h | 0 <= h < |cs.funs| ensures all[h].frameId == cs.funs[h].frameId && all[h].arity == cs.funs[h].arity {
      assert cs'.funs[h] == cs.funs[h];
    }
  }

  lemma EnclosingLater(cs: CState, code: Val, cs': CState, all: seq<FuncObj>)
    requires Grows(cs, Ok(code), cs') && Enclosing(cs, all)
    ensures Enclosing(cs', all)
  {
    forall f | f in cs'.lexicals ensures f < |cs'.funs| && all[f].arity == |ParamsOf(cs'.funs, f)| {
      assert cs'.funs[f] == cs.funs[f];
    }
  }

  lemma BodiesThen(cs: CState, cs1: CState, r: CResult, cs2: CState, all: seq<FuncObj>)
    requires BodiesInRange(cs1.funs, |cs.funs|, all) && BodiesInRange(cs2.funs, |cs1.funs|, all)
    requires Grows(cs1, r, cs2)
    ensures BodiesInRange(cs2.funs, |cs.funs|, all)
  {
    hide CodesInRange;
    forall f | |cs.funs| <= f < |cs2.funs| && cs2.funs[f].form.Cons? ensures CodesInRange(all, cs2.funs[f].form.cdr) {
      if f < |cs1.funs| { assert cs2.funs[f] == cs1.funs[f]; }
    }
  }

  lemma SymbolInRange(cs: CState, s: Val, all: seq<FuncObj>)
    requires s.Sym? && s != LEX_REF && SymbolForm(cs, s).Ok? && Enclosing(cs, all) && Becomes(cs.funs, all)
    ensures CodeInRange(all, SymbolForm(cs, s).code)
  {
    hide MapLexical;
    if MapLexical(cs.funs, cs.lexicals, s).Some? {
      var (f, k) := MapLexical(cs.funs, cs.lexicals, s).value;
      MappedIsEnclosing(cs.funs, cs.lexicals, s);
      LexicalAddressIsInnermost(cs.funs, cs.lexicals, s);
      LexRefShape(cs.funs, f, k);
      assert InRange(all, cs.funs[f].frameId, k);
    }
  }

  // The lemmas below follow the compiler's functions one by one.

  lemma {:induction false} FormInRange(nb: nat, cs: CState, v: Val, all: seq<FuncObj>)
    requires Clean(nb, v) && Form(cs, v).0.Ok? && Enclosing(cs, all)
    requires Becomes(Form(cs, v).1.funs, all) && SoleFrom(all, |cs.funs|, |Form(cs, v).1.funs|)
    ensures CodeInRange(all, Form(cs, v).0.code)
    ensures BodiesInRange(Form(cs, v).1.funs, |cs.funs|, all)
    decreases Size(v), 2
  {
    hide Becomes, Enclosing, SoleFrom, Grows, Lambda, Conditional, Forms, SymbolForm;
    if v.Sym? {
      SymbolInRange(cs, v, all);
    } else if v.Cons? {
      match v.car
      case Cons(_, _) =>
        var (head, cs1) := Form(cs, v.car);
        var (args, cs2) := Forms(cs1, v.cdr);
        FormGrows(cs, v.car);
        FormsGrows(cs1, v.cdr);
        TwoParts(cs, head.code, cs1, args, cs2, all);
        FormInRange(nb, cs, v.car, all);
        FormsInRange(nb, cs1, v.cdr, all);
        BodiesThen(cs, cs1, args, cs2, all);
      case Key(_) =>
        if v.car == LAMBDA {
          LambdaInRange(nb, cs, v, all);
        } else if v.car == IF {
          ConditionalInRange(nb, cs, v, all);
        }
      case Sym(_) => FormsInRange(nb, cs, v, all); CallInRange(nb, cs, v, all);
      case Func(_) => FormsInRange(nb, cs, v, all); CallInRange(nb, cs, v, all);
      case _ =>
    }
  }

  /** What holds for two parts of a compilation holds for each. */
  lemma TwoParts(cs: CState, code: Val, cs1: CState, r: CResult, cs2: CState, all: seq<FuncObj>)
    requires Grows(cs, Ok(code), cs1) && Grows(cs1, r, cs2) && Enclosing(cs, all)
    requires Becomes(cs2.funs, all) && SoleFrom(all, |cs.funs|, |cs2.funs|)
    ensures Becomes(cs1.funs, all) && SoleFrom(all, |cs.funs|, |cs1.funs|)
    ensures SoleFrom(all, |cs1.funs|, |cs2.funs|) && Enclosing(cs1, all)
  {
    BecomesEarlier(cs1, r, cs2, all);
    EnclosingLater(cs, code, cs1, all);
  }

  lemma CallInRange(nb: nat, cs: CState, v: Val, all: seq<FuncObj>)
    requires v.Cons? && (v.car.Sym? || v.car.Func?) && Clean(nb, v) && Forms(cs, v).0.Ok?
    requires CodesInRange(all, Forms(cs, v).0.code)
    ensures CodeInRange(all, Forms(cs, v).0.code)
  {
    hide SymbolForm, MapLexical;
    var first := Form(cs, v.car).0;
    assert first.code == v.car || first.code.Cons? by {
      if v.car.Sym? { SymbolShape(cs, v.car); }
    }
  }

  lemma {:induction false} FormsInRange(nb: nat, cs: CState, vs: Val, all: seq<FuncObj>)
    requires Clean(nb, vs) && Forms(cs, vs).0.Ok? && Enclosing(cs, all)
    requires Becomes(Forms(cs, vs).1.funs, all) && SoleFrom(all, |cs.funs|, |Forms(cs, vs).1.funs|)
    ensures CodesInRange(all, Forms(cs, vs).0.code)
    ensures BodiesInRange(Forms(cs, vs).1.funs, |cs.funs|, all)
    decreases Size(vs), 0
  {
    hide Becomes, Enclosing, SoleFrom, Grows, Form, CodeInRange;
    if vs.Cons? {
      var (first, cs1) := Form(cs, vs.car);
      var (rest, cs2) := Forms(cs1, vs.cdr);
      FormGrows(cs, vs.car);
      FormsGrows(cs1, vs.cdr);
      TwoParts(cs, first.code, cs1, rest, cs2, all);
      FormInRange(nb, cs, vs.car, all);
      FormsInRange(nb, cs1, vs.cdr, all);
      BodiesThen(cs, cs1, rest, cs2, all);
    }
  }

  lemma LambdaEncloses(cs: CState, lambda: Val, code: Val, cs1: CState, all: seq<FuncObj>)
    requires Enclosing(cs, all) && Grows(InLambda(cs, lambda), Ok(code), cs1)
    requires Becomes(CloseLambda(cs1, |cs.funs|, lambda, code).funs, all)
    requires SoleFrom(all, |cs.funs|, |cs1.funs|)
    ensures Enclosing(InLambda(cs, lambda), all) && Becomes(cs1.funs, all)
    ensures SoleFrom(all, |InLambda(cs, lambda).funs|, |cs1.funs|)
  {
    var cs0 := InLambda(cs, lambda);
    var f := |cs.funs|;
    var closed := CloseLambda(cs1, f, lambda, code);
    forall h | 0 <= h < |cs1.funs| ensures all[h].frameId == cs1.funs[h].frameId && all[h].arity == cs1.funs[h].arity {
      assert closed.funs[h].frameId == cs1.funs[h].frameId && closed.funs[h].arity == cs1.funs[h].arity;
    }
    assert cs1.funs[f] == cs0.funs[f] == NewLambda(cs, lambda);
    assert ParamsOf(cs0.funs, f) == Elements(lambda);
    forall h | h in cs0.lexicals
      ensures h < |cs0.funs| && Sole(all, h) && all[h].arity == |ParamsOf(cs0.funs, h)|
    {
      if h in cs.lexicals { assert cs0.funs[h] == cs.funs[h]; }
    }
  }

  lemma {:induction false} LambdaInRange(nb: nat, cs: CState, v: Val, all: seq<FuncObj>)
    requires v.Cons? && Clean(nb, v) && Lambda(cs, v).0.Ok? && Enclosing(cs, all)
    requires Becomes(Lambda(cs, v).1.funs, all) && SoleFrom(all, |cs.funs|, |Lambda(cs, v).1.funs|)
    ensures CodeInRange(all, Lambda(cs, v).0.code)
    ensures BodiesInRange(Lambda(cs, v).1.funs, |cs.funs|, all)
    decreases Size(v), 1
  {
    hide Becomes, Enclosing, SoleFrom, Grows, Forms, LambdaError, IdFits, FrameId, CodesInRange, Clean;
    var lambda := Nth(v, 1);
    var f := |cs.funs|;
    var cs0 := InLambda(cs, lambda);
    var body := v.cdr.cdr;
    FormsGrows(cs0, body);
    var (r, cs1) := Forms(cs0, body);
    assert Lambda(cs, v) == (Ok(Func(f)), CloseLambda(cs1, f, lambda, r.code));
    CleanCdr(nb, v);
    LambdaKept(cs0, r, cs1, f);
    LambdaEncloses(cs, lambda, r.code, cs1, all);
    FormsInRange(nb, cs0, body, all);
    forall h | f <= h < |cs1.funs| && Lambda(cs, v).1.funs[h].form.Cons?
      ensures CodesInRange(all, Lambda(cs, v).1.funs[h].form.cdr)
    {
      if h > f { assert Lambda(cs, v).1.funs[h] == cs1.funs[h]; }
    }
  }

  lemma {:induction false} ConditionalInRange(nb: nat, cs: CState, v: Val, all: seq<FuncObj>)
    requires v.Cons? && Clean(nb, v) && Conditional(cs, v).0.Ok? && Enclosing(cs, all)
    requires Becomes(Conditional(cs, v).1.funs, all) && SoleFrom(all, |cs.funs|, |Conditional(cs, v).1.funs|)
    ensures CodeInRange(all, Conditional(cs, v).0.code)
    ensures BodiesInRange(Conditional(cs, v).1.funs, |cs.funs|, all)
    decreases Size(v), 1
  {
    hide Becomes, Enclosing, SoleFrom, Grows, Form, Lambda, Clean, CodeInRange, BodiesInRange, Nth, Branch, Proper, Elements, ListOf;
    var t, y, e := Nth(v, 1), Nth(v, 2), Nth(v, 3);
    SizeOfFour(v);
    CleanNth(nb, v, 1);
    CleanNth(nb, v, 2);
    CleanNth(nb, v, 3);
    CleanBranch(nb, y);
    CleanBranch(nb, e);
    var (test, cs1) := Form(cs, t);
    var (yes, cs2) := Lambda(cs1, Branch(y));
    var (no, cs3) := Lambda(cs2, Branch(e));
    assert Conditional(cs, v) == (Ok(ListOf([IF, test.code, yes.code, no.code])), cs3);
    FormGrows(cs, t);
    LambdaGrows(cs1, Branch(y));
    LambdaGrows(cs2, Branch(e));
    GrowsThen(cs1, yes.code, cs2, no, cs3);
    TwoParts(cs, test.code, cs1, no, cs3, all);
    TwoParts(cs1, yes.code, cs2, no, cs3, all);
    FormInRange(nb, cs, t, all);
    LambdaInRange(nb, cs1, Branch(y), all);
    LambdaInRange(nb, cs2, Branch(e), all);
    BodiesThen(cs, cs1, yes, cs2, all);
    BodiesThen(cs, cs2, no, cs3, all);
    FourInRange(all, test.code, yes.code, no.code);
  }

  lemma FourInRange(all: seq<FuncObj>, test: Val, yes: Val, no: Val)
    requires CodeInRange(all, test) && CodeInRange(all, yes) && CodeInRange(all, no)
    ensures CodeInRange(all, ListOf([IF, test, yes, no]))
  {
    var vs := [IF, test, yes, no];
    assert vs[1..] == [test, yes, no] && vs[1..][1..] == [yes, no];
    assert [yes, no][1..] == [no] && [no][1..] == [];
    assert ListOf([no]) == Cons(no, NIL);
    assert ListOf([yes, no]) == Cons(yes, ListOf([no]));
    assert ListOf(vs[1..]) == Cons(test, ListOf([yes, no]));
    assert CodesInRange(all, ListOf([no]));
    assert CodesInRange(all, ListOf([yes, no]));
    assert CodesInRange(all, ListOf(vs[1..]));
  }

  /** Code from before a compilation stays in range: it refers to none of the new
      frame ids. */
  lemma {:induction false} RangeExtends(nb: nat, news: set<Val>, funs: seq<FuncObj>, all: seq<FuncObj>, code: Val)
    requires CodeOk(nb, news, code) && CodeInRange(funs, code) && |funs| <= |all|
    requires forall h | 0 <= h < |funs| :: all[h] == funs[h]
    requires forall h | |funs| <= h < |all| :: all[h].frameId in news
    ensures CodeInRange(all, code)
    decreases code, 1
  {
    if code.Cons? && code.car != QUOTE && code.car != LEX_REF {
      RangeExtends(nb, news, funs, all, code.car);
      RangesExtend(nb, news, funs, all, code.cdr);
    }
  }

  lemma {:induction false} RangesExtend(nb: nat, news: set<Val>, funs: seq<FuncObj>, all: seq<FuncObj>, codes: Val)
    requires CodesOk(nb, news, codes) && CodesInRange(funs, codes) && |funs| <= |all|
    requires forall h | 0 <= h < |funs| :: all[h] == funs[h]
    requires forall h | |funs| <= h < |all| :: all[h].frameId in news
    ensures CodesInRange(all, codes)
    decreases codes, 0
  {
    if codes.Cons? {
      RangeExtends(nb, news, funs, all, codes.car);
      RangesExtend(nb, news, funs, all, codes.cdr);
    }
  }

  /** Compiling keeps a world in bounds: every reference it emits, and every
      reference there was, is in range for the functions there are afterwards. */
  lemma CompilationStaysInRange(g: Globals, cs: CState, v: Val)
    requires cs.lexicals == [] && cs.funs == g.funs && OldIds(cs)
    requires Form(cs, v).0.Ok? && Clean(|g.funs|, v)
    requires WorldOk(|g.funs|, NewIds(cs, Form(cs, v).1), g) && BodiesInRange(g.funs, 0, g.funs)
    ensures var (r, cs') := Form(cs, v);
            CodeInRange(cs'.funs, r.code) && BodiesInRange(cs'.funs, 0, cs'.funs)
  {
    hide Form, CodeInRange, CodesInRange, Clean, FrameId, CodesOk, ParamsOf;
    var (r, cs') := Form(cs, v);
    var news := NewIds(cs, cs');
    FormGrows(cs, v);
    var g' := g.(funs := cs'.funs);
    forall f | |cs.funs| <= f < |cs'.funs| ensures Sole(cs'.funs, f) {
      CompiledFunctionsOwnTheirFrames(g', cs, v, f);
    }
    FormInRange(|g.funs|, cs, v, cs'.funs);
    forall f | 0 <= f < |cs'.funs| && cs'.funs[f].form.Cons? ensures CodesInRange(cs'.funs, cs'.funs[f].form.cdr) {
      if f < |g.funs| {
        assert cs'.funs[f] == g.funs[f] && f != 0;
        assert FuncOk(|g.funs|, news, g.funs[f]);
        RangesExtend(|g.funs|, news, g.funs, cs'.funs, g.funs[f].form.cdr);
      }
    }
  }

  /** No evaluation of compiled code reads beyond a frame: whatever compiles, run
      from any context whose frames fit and hold clean data, at any depth, does
      not end that way, and leaves a context from which the same can be said. */
  lemma CompiledCodeStaysInBounds(n: nat, g: Globals, cs: CState, v: Val, c: Context)
    requires cs.lexicals == [] && cs.funs == g.funs && OldIds(cs)
    requires Form(cs, v).0.Ok? && Clean(|g.funs|, v)
    requires WorldOk(|g.funs|, NewIds(cs, Form(cs, v).1), g) && Bounded(g, c)
    ensures var (r, cs') := Form(cs, v); var g' := g.(funs := cs'.funs);
            StaysIn(g', Eval(n, g', c, r.code).0, Eval(n, g', c, r.code).1)
  {
    hide Form, Eval, Clean, CodeOk, CodesInRange, CodeInRange, OutcomeClean;
    var (r, cs') := Form(cs, v);
    var g' := g.(funs := cs'.funs);
    FormGrows(cs, v);
    CompilationKeepsWorld(g, cs, v, {});
    CompilationStaysInRange(g, cs, v);
    ContextCarriesOver(g, g', c);
    EvalStaysIn(n, g', c, r.code);
  }

  lemma ContextCarriesOver(g: Globals, g': Globals, c: Context)
    requires Bounded(g, c) && |g.funs| <= |g'.funs| && forall f | 0 <= f < |g.funs| :: g'.funs[f] == g.funs[f]
    ensures Agree(|g'.funs|, {}, c, c) && AllFit(g', c)
  {
    forall id ensures FramesClean(|g'.funs|, Stack(c, id)) {
      assert FramesClean(|g.funs|, Stack(c, id));
      forall k | 0 <= k < |Stack(c, id)| && Stack(c, id)[k].Frame? ensures AllClean(|g'.funs|, Stack(c, id)[k].argv) {
        forall v | v in Stack(c, id)[k].argv ensures Clean(|g'.funs|, v) {
          CleanGrows(|g.funs|, |g'.funs|, v);
        }
      }
    }
    forall id, k | 0 <= k < |Stack(c, id)| ensures Fits(g', id, Stack(c, id)[k]) {
      assert Fits(g, id, Stack(c, id)[k]);
    }
  }
}
