// What compiling does to the world that later compilations assume, and why the
// simulation is about lambdas applied where they are written.

module Worlds {
  import opened Options
  import opened Lisp
  import opened Numerals
  import opened Evaluator
  import opened Compiler
  import opened Source
  import opened Independence
  import opened Simulation

  lemma {:induction false} CleanGrows(nb: nat, nb': nat, v: Val)
    requires Clean(nb, v) && nb <= nb'
    ensures Clean(nb', v)
    decreases v
  {
    match v
    case Cons(a, d) => CleanGrows(nb, nb', a); CleanGrows(nb, nb', d);
    case Exn(_, _, source) => CleanGrows(nb, nb', source);
    case _ =>
  }

  lemma {:induction false} CodeGrows(nb: nat, nb': nat, news: set<Val>, code: Val)
    requires CodeOk(nb, news, code) && nb <= nb'
    ensures CodeOk(nb', news, code)
    decreases code, 1
  {
    if code.Cons? {
      if code.car == QUOTE {
        CleanGrows(nb, nb', code.cdr);
      } else if code.car != LEX_REF {
        CodeGrows(nb, nb', news, code.car);
        CodesGrow(nb, nb', news, code.cdr);
      }
    } else {
      CleanGrows(nb, nb', code);
    }
  }

  lemma {:induction false} CodesGrow(nb: nat, nb': nat, news: set<Val>, codes: Val)
    requires CodesOk(nb, news, codes) && nb <= nb'
    ensures CodesOk(nb', news, codes)
    decreases codes, 0
  {
    if codes.Cons? {
      CodeGrows(nb, nb', news, codes.car);
      CodesGrow(nb, nb', news, codes.cdr);
    }
  }

  /** No frame id handed out between two states is in `later`, and neither are
      the enclosing lambdas'. */
  ghost predicate Apart(later: set<Val>, cs: CState, next: nat) {
    && (forall f | f in cs.lexicals :: f < |cs.funs| && cs.funs[f].frameId.Key? && cs.funs[f].frameId !in later)
    && (forall m: nat {:trigger FrameId(m)} | cs.nextId <= m < next :: FrameId(m) !in later)
  }

  ghost predicate NewOnesOk(nb: nat, later: set<Val>, from: nat, funs: seq<FuncObj>) {
    forall f | from <= f < |funs| :: FuncOk(nb, later, funs[f])
  }

  lemma ApartSplit(later: set<Val>, cs: CState, code: Val, cs1: CState, next: nat)
    requires Apart(later, cs, next) && Grows(cs, Ok(code), cs1) && cs1.nextId <= next
    ensures Apart(later, cs, cs1.nextId) && Apart(later, cs1, next)
  {
    forall f | f in cs1.lexicals
      ensures f < |cs1.funs| && cs1.funs[f].frameId.Key? && cs1.funs[f].frameId !in later
    {
      assert cs1.funs[f] == cs.funs[f];
    }
  }

  lemma NewOnesThen(nb: nat, later: set<Val>, cs: CState, cs1: CState, r: CResult, cs2: CState)
    requires NewOnesOk(nb, later, |cs.funs|, cs1.funs) && NewOnesOk(nb, later, |cs1.funs|, cs2.funs)
    requires Grows(cs1, r, cs2)
    ensures NewOnesOk(nb, later, |cs.funs|, cs2.funs)
  {
    forall f | |cs.funs| <= f < |cs2.funs| ensures FuncOk(nb, later, cs2.funs[f]) {
      if f < |cs1.funs| { assert cs2.funs[f] == cs1.funs[f]; }
    }
  }

  lemma SymbolCodeOk(nb: nat, later: set<Val>, cs: CState, s: Val)
    requires s.Sym? && Clean(nb, s) && Apart(later, cs, cs.nextId) && SymbolForm(cs, s).Ok?
    ensures CodeOk(nb, later, SymbolForm(cs, s).code)
  {
    hide Clean;
    if MapLexical(cs.funs, cs.lexicals, s).Some? {
      var (f, k) := MapLexical(cs.funs, cs.lexicals, s).value;
      MappedIsEnclosing(cs.funs, cs.lexicals, s);
      LexRefShape(cs.funs, f, k);
    }
  }

  lemma {:induction false} MappedIsEnclosing(funs: seq<FuncObj>, lexicals: seq<nat>, s: Val)
    requires MapLexical(funs, lexicals, s).Some?
    ensures MapLexical(funs, lexicals, s).value.0 in lexicals
    decreases |lexicals|
  {
    hide ParamsOf;
    if s !in ParamsOf(funs, lexicals[|lexicals| - 1]) {
      MappedIsEnclosing(funs, lexicals[..|lexicals| - 1], s);
    }
  }

  // Every form, escaping lambdas included, compiles to code that refers only to
  // frames of the ids compiled so far.

  lemma {:induction false} FormCodeOk(nb: nat, later: set<Val>, cs: CState, v: Val)
    requires 0 < |cs.funs| && Clean(nb, v) && Form(cs, v).0.Ok?
    requires |Form(cs, v).1.funs| <= nb && Apart(later, cs, Form(cs, v).1.nextId)
    ensures CodeOk(nb, later, Form(cs, v).0.code)
    ensures NewOnesOk(nb, later, |cs.funs|, Form(cs, v).1.funs)
    decreases Size(v), 2
  {
    hide Apart, Lambda, Conditional, Forms, SymbolForm, FuncOk;
    if v.Sym? {
      SymbolCodeOk(nb, later, cs, v);
    } else if v.Cons? {
      match v.car
      case Cons(_, _) =>
        var (head, cs1) := Form(cs, v.car);
        FormGrows(cs, v.car);
        FormsGrows(cs1, v.cdr);
        ApartSplit(later, cs, head.code, cs1, Form(cs, v).1.nextId);
        FormCodeOk(nb, later, cs, v.car);
        FormsCodeOk(nb, later, cs1, v.cdr);
        NewOnesThen(nb, later, cs, cs1, Forms(cs1, v.cdr).0, Forms(cs1, v.cdr).1);
        FormsProper(cs1, v.cdr);
      case Key(_) =>
        if v.car == LAMBDA {
          LambdaCodeOk(nb, later, cs, v);
        } else if v.car == IF {
          ConditionalCodeOk(nb, later, cs, v);
        } else {
          assert v.car == QUOTE;
        }
      case Sym(_) => FormsCodeOk(nb, later, cs, v); CallCodeOk(nb, later, cs, v);
      case Func(_) => FormsCodeOk(nb, later, cs, v); CallCodeOk(nb, later, cs, v);
      case _ =>
    }
  }

  /** A compiled argument list whose head is code for a call is itself code. */
  lemma CallCodeOk(nb: nat, later: set<Val>, cs: CState, v: Val)
    requires v.Cons? && (v.car.Sym? || v.car.Func?) && Clean(nb, v) && Forms(cs, v).0.Ok?
    requires CodesOk(nb, later, Forms(cs, v).0.code)
    ensures CodeOk(nb, later, Forms(cs, v).0.code)
  {
    hide SymbolForm, MapLexical;
    FormsProper(cs, v);
    var (first, cs1) := Form(cs, v.car);
    var code := Forms(cs, v).0.code;
    assert code == Cons(first.code, Forms(cs1, v.cdr).0.code);
    FormsProper(cs1, v.cdr);
    assert first.code == v.car || first.code.Cons? by {
      if v.car.Sym? { SymbolShape(cs, v.car); }
    }
  }

  lemma SymbolShape(cs: CState, s: Val)
    requires SymbolForm(cs, s).Ok?
    ensures SymbolForm(cs, s).code == s || SymbolForm(cs, s).code.Cons?
  {
  }

  lemma {:induction false} FormsCodeOk(nb: nat, later: set<Val>, cs: CState, vs: Val)
    requires 0 < |cs.funs| && Clean(nb, vs) && Forms(cs, vs).0.Ok?
    requires |Forms(cs, vs).1.funs| <= nb && Apart(later, cs, Forms(cs, vs).1.nextId)
    ensures CodesOk(nb, later, Forms(cs, vs).0.code)
    ensures NewOnesOk(nb, later, |cs.funs|, Forms(cs, vs).1.funs)
    decreases Size(vs), 0
  {
    hide Apart, Form, FuncOk, CodeOk;
    if vs.Cons? {
      var (first, cs1) := Form(cs, vs.car);
      FormGrows(cs, vs.car);
      FormsGrows(cs1, vs.cdr);
      ApartSplit(later, cs, first.code, cs1, Forms(cs, vs).1.nextId);
      FormCodeOk(nb, later, cs, vs.car);
      FormsCodeOk(nb, later, cs1, vs.cdr);
      NewOnesThen(nb, later, cs, cs1, Forms(cs1, vs.cdr).0, Forms(cs1, vs.cdr).1);
    }
  }

  lemma {:induction false} LambdaCodeOk(nb: nat, later: set<Val>, cs: CState, v: Val)
    requires v.Cons? && 0 < |cs.funs| && Clean(nb, v) && Lambda(cs, v).0.Ok?
    requires |Lambda(cs, v).1.funs| <= nb && Apart(later, cs, Lambda(cs, v).1.nextId)
    ensures CodeOk(nb, later, Lambda(cs, v).0.code)
    ensures NewOnesOk(nb, later, |cs.funs|, Lambda(cs, v).1.funs)
    decreases Size(v), 1
  {
    hide Forms, LambdaError, CodeOk, CodesOk, Clean, Grows;
    var lambda := Nth(v, 1);
    var f := |cs.funs|;
    var cs0 := InLambda(cs, lambda);
    var body := v.cdr.cdr;
    FormsGrows(cs0, body);
    var (r, cs1) := Forms(cs0, body);
    assert Lambda(cs, v) == (Ok(Func(f)), CloseLambda(cs1, f, lambda, r.code));
    CleanCdr(nb, v);
    assert cs.nextId < cs1.nextId && f < |cs1.funs| && cs1.funs[f] == NewLambda(cs, lambda) by {
      LambdaKept(cs0, r, cs1, f);
    }
    assert FrameId(cs.nextId) !in later;
    assert Apart(later, cs0, cs1.nextId);
    FormsCodeOk(nb, later, cs0, body);
    forall h | f <= h < |cs1.funs| ensures FuncOk(nb, later, Lambda(cs, v).1.funs[h]) {
      if h == f {
        assert Lambda(cs, v).1.funs[h] == NewLambda(cs, lambda).(form := Cons(lambda, r.code));
      } else {
        assert FuncOk(nb, later, cs1.funs[h]);
      }
    }
    assert CodeOk(nb, later, Func(f)) by { FuncIsCode(nb, later, f); }
  }

  lemma FuncIsCode(nb: nat, later: set<Val>, f: nat)
    requires 0 < f < nb
    ensures CodeOk(nb, later, Func(f))
  {
  }

  lemma CleanCdr(nb: nat, v: Val)
    requires v.Cons? && v.cdr.Cons? && Clean(nb, v)
    ensures Clean(nb, v.cdr.cdr)
  {
  }

  lemma LambdaKept(cs0: CState, r: CResult, cs1: CState, f: nat)
    requires Grows(cs0, r, cs1) && f < |cs0.funs|
    ensures f < |cs1.funs| && cs1.funs[f] == cs0.funs[f] && cs0.nextId <= cs1.nextId
  {
  }

  lemma {:induction false} ConditionalCodeOk(nb: nat, later: set<Val>, cs: CState, v: Val)
    requires v.Cons? && 0 < |cs.funs| && Clean(nb, v) && Conditional(cs, v).0.Ok?
    requires |Conditional(cs, v).1.funs| <= nb && Apart(later, cs, Conditional(cs, v).1.nextId)
    ensures CodeOk(nb, later, Conditional(cs, v).0.code)
    ensures NewOnesOk(nb, later, |cs.funs|, Conditional(cs, v).1.funs)
    decreases Size(v), 1
  {
    hide Form, Lambda, Apart, FuncOk, Clean, CodeOk, Nth, Branch, Proper, Elements, ListOf, Grows, NewOnesOk;
    var t, y, e := Nth(v, 1), Nth(v, 2), Nth(v, 3);
    SizeOfFour(v);
    CleanNth(nb, v, 1);
    CleanNth(nb, v, 2);
    CleanNth(nb, v, 3);
    CleanBranch(nb, y);
    CleanBranch(nb, e);
    var (test, cs1) := Form(cs, t);
    var (yes, cs2) := Lambda(cs1, Branch(y));
    var (no, cs3) := Lambda(cs2, Branch(e));
    assert Conditional(cs, v) == (Ok(ListOf([IF, test.code, yes.code, no.code])), cs3);
    FormGrows(cs, t);
    LambdaGrows(cs1, Branch(y));
    LambdaGrows(cs2, Branch(e));
    Counters(cs, test, cs1);
    Counters(cs1, yes, cs2);
    Counters(cs2, no, cs3);
    ApartSplit(later, cs, test.code, cs1, cs3.nextId);
    ApartSplit(later, cs1, yes.code, cs2, cs3.nextId);
    FormCodeOk(nb, later, cs, t);
    LambdaCodeOk(nb, later, cs1, Branch(y));
    LambdaCodeOk(nb, later, cs2, Branch(e));
    NewOnesThen(nb, later, cs, cs1, yes, cs2);
    NewOnesThen(nb, later, cs, cs2, no, cs3);
    FourCodes(nb, later, test.code, yes.code, no.code);
  }

  lemma Counters(cs: CState, r: CResult, cs': CState)
    requires Grows(cs, r, cs')
    ensures cs.nextId <= cs'.nextId && |cs.funs| <= |cs'.funs|
  {
  }

  lemma CleanBranch(nb: nat, x: Val)
    requires Clean(nb, x)
    ensures Clean(nb, Branch(x))
  {
    assert Clean(nb, Cons(x, NIL));
    assert Clean(nb, Cons(NIL, Cons(x, NIL)));
  }

  lemma FourCodes(nb: nat, later: set<Val>, test: Val, yes: Val, no: Val)
    requires CodeOk(nb, later, test) && CodeOk(nb, later, yes) && CodeOk(nb, later, no)
    ensures CodeOk(nb, later, ListOf([IF, test, yes, no]))
  {
    var vs := [IF, test, yes, no];
    ElementsOfList(vs);
    assert vs[1..] == [test, yes, no] && vs[1..][1..] == [yes, no];
    assert [yes, no][1..] == [no] && [no][1..] == [];
    assert ListOf([no]) == Cons(no, NIL);
    assert ListOf([yes, no]) == Cons(yes, ListOf([no]));
    assert ListOf(vs[1..]) == Cons(test, ListOf([yes, no]));
    assert CodesOk(nb, later, ListOf([no]));
    assert CodesOk(nb, later, ListOf([yes, no]));
    assert CodesOk(nb, later, ListOf(vs[1..]));
  }

  /** The simulation's assumption is an invariant: after any successful top-level
      compilation, the world with the new function objects added is again one
      that any later compilation, with its own fresh frame ids, may assume. */
  lemma CompilationKeepsWorld(g: Globals, cs: CState, v: Val, later: set<Val>)
    requires cs.lexicals == [] && cs.funs == g.funs
    requires Form(cs, v).0.Ok? && Clean(|g.funs|, v) && WorldOk(|g.funs|, later, g)
    requires forall m: nat {:trigger FrameId(m)} | cs.nextId <= m < Form(cs, v).1.nextId :: FrameId(m) !in later
    ensures var (r, cs') := Form(cs, v);
            && WorldOk(|cs'.funs|, later, g.(funs := cs'.funs))
            && CodeOk(|cs'.funs|, later, r.code)
  {
    hide Form, CodeOk, Clean, FuncOk, OutcomeClean, AllClean, FrameId;
    var (r, cs') := Form(cs, v);
    var nb, nb' := |g.funs|, |cs'.funs|;
    FormGrows(cs, v);
    CleanGrows(nb, nb', v);
    FormCodeOk(nb', later, cs, v);
    forall f | 0 < f < nb' ensures FuncOk(nb', later, cs'.funs[f]) {
      if f < nb {
        assert FuncOk(nb, later, g.funs[f]);
        FuncGrows(nb, nb', later, g.funs[f]);
      }
    }
    forall s | s in g.syms && s != 0 ensures Clean(nb', g.syms[s]) {
      CleanGrows(nb, nb', g.syms[s]);
    }
  }

  lemma FuncGrows(nb: nat, nb': nat, later: set<Val>, fn: FuncObj)
    requires FuncOk(nb, later, fn) && nb <= nb'
    ensures FuncOk(nb', later, fn)
  {
    if fn.form.Cons? { CodesGrow(nb, nb', later, fn.form.cdr); }
  }

  // ----------------------------------------------------- lambdas that escape

  /** (:lambda (x) (:lambda () x)) */
  function Getter(): Val {
    Cons(LAMBDA, Cons(Cons(Sym(5), NIL), Cons(Cons(LAMBDA, Cons(NIL, Cons(Sym(5), NIL))), NIL)))
  }

  /** ((:lambda (f) (f)) ((:lambda (x) (:lambda () x)) 1)) */
  function Escaping(): Val {
    Cons(Cons(LAMBDA, Cons(Cons(Sym(6), NIL), Cons(Cons(Sym(6), NIL), NIL))),
         Cons(Cons(Getter(), Cons(Fix(1), NIL)), NIL))
  }

  const BASE := [FuncObj(2, LEX_REF, Key("lib"))]

  /** The function objects that compiling Escaping() makes: the caller of f, the
      getter, and the lambda the getter returns. */
  function EscapingFuns(): seq<FuncObj> {
    BASE + [CallerFun(Key("1"))] + GetterFuns(Key("2"), Key("3"))
  }

  function CallerFun(id: Val): FuncObj {
    FuncObj(1, Cons(Cons(Sym(6), NIL), Cons(Cons(RefForm(id, Fix(0)), NIL), NIL)), id)
  }

  function GetterFuns(id: Val, inner: Val): seq<FuncObj> {
    [FuncObj(1, Cons(Cons(Sym(5), NIL), Cons(Func(3), NIL)), id),
     FuncObj(0, Cons(NIL, Cons(RefForm(id, Fix(0)), NIL)), inner)]
  }

  lemma OneParameter(cs: CState, f: nat, s: Val)
    requires cs.lexicals == [f] && f < |cs.funs| && s.Sym? && s != LEX_REF
    requires cs.funs[f].form.Cons? && cs.funs[f].form.car == Cons(s, NIL)
    ensures Form(cs, s) == (Ok(RefForm(cs.funs[f].frameId, Fix(0))), cs)
  {
    assert Elements(cs.funs[f].form.car) == [s] + Elements(NIL) == [s];
    assert ParamsOf(cs.funs, f) == [s] && IndexOf([s], s) == 0;
    assert LEX_REF !in ParamsOf(cs.funs, f);
    assert cs.lexicals[..|cs.lexicals| - 1] == [];
    assert MapLexical(cs.funs, [], LEX_REF).None?;
    assert MapLexical(cs.funs, cs.lexicals, LEX_REF).None?;
    assert MapLexical(cs.funs, cs.lexicals, s) == Some((f, 0));
    LexRefShape(cs.funs, f, 0);
  }

  /** Compiling a lambda of at most one parameter is compiling its body. */
  lemma SmallLambda(cs: CState, x: Val, body: Val)
    requires x == NIL || (x.Cons? && x.car.Sym? && x.cdr == NIL)
    requires body.Cons? && Proper(body) && Forms(InLambda(cs, x), body).0.Ok? && IdFits(cs.nextId)
    ensures var (code, cs1) := Forms(InLambda(cs, x), body);
            Form(cs, Cons(LAMBDA, Cons(x, body))) ==
            (Ok(Func(|cs.funs|)), CloseLambda(cs1, |cs.funs|, x, code.code))
  {
    hide Forms, CloseLambda, InLambda, IdFits, FrameId;
    var v := Cons(LAMBDA, Cons(x, body));
    assert Nth(v, 1) == Nth(v.cdr, 0) == x;
    assert |Elements(v)| == 1 + |Elements(v.cdr)| && |Elements(v.cdr)| >= 1;
    assert Proper(v.cdr) && Proper(v);
    assert Elements(NIL) == [];
    if x.Cons? {
      assert Elements(x) == [x.car] + Elements(x.cdr) == [x.car];
      ParameterAlone(x.car);
    }
    assert LambdaError(v) == None;
    assert Proper(NIL) && Proper(x) && v.cdr.cdr == body;
    assert FormList(InLambda(cs, x), body) == Forms(InLambda(cs, x), body);
    assert Form(cs, v) == Lambda(cs, v);
  }

  /** The frame id n, and that a keyword has room for it. */
  predicate Numbers(n: nat, id: Val) { IdFits(n) && FrameId(n) == id }

  lemma FirstIds()
    ensures Numbers(1, Key("1")) && Numbers(2, Key("2")) && Numbers(3, Key("3"))
  {
  }

  lemma OneForm(cs: CState, v: Val)
    requires Form(cs, v).0.Ok?
    ensures Forms(cs, Cons(v, NIL)) == (Ok(Cons(Form(cs, v).0.code, NIL)), Form(cs, v).1)
  {
    hide Form;
    assert Forms(Form(cs, v).1, NIL) == (Ok(NIL), Form(cs, v).1);
  }

  lemma OneElement(v: Val)
    ensures Elements(Cons(v, NIL)) == [v] && Proper(Cons(v, NIL)) && Elements(NIL) == []
  {
    assert [v] + Elements(NIL) == [v];
  }

  lemma GetterCompiles(cs: CState, n: nat, id: Val, id': Val)
    requires |cs.funs| == 2 && cs.nextId == n && cs.lexicals == [] && Numbers(n, id) && Numbers(n + 1, id')
    ensures Form(cs, Getter()) == (Ok(Func(2)), CState(n + 2, cs.funs + GetterFuns(id, id'), []))
  {
    hide Decimal, FrameId, IdFits, Form, Forms, Elements, Proper, RefForm;
    var x := Cons(Sym(5), NIL);
    OneElement(Sym(5));
    var cs0 := InLambda(cs, x);
    assert cs0.lexicals == [2] && cs0.funs[2] == FuncObj(1, Cons(x, NIL), id);
    // the lambda inside
    var inner := Cons(LAMBDA, Cons(NIL, x));
    var cs1 := InLambda(cs0, NIL);
    OneParameter(cs1, 2, Sym(5));
    OneForm(cs1, Sym(5));
    SmallLambda(cs0, NIL, x);
    var ref := Cons(RefForm(id, Fix(0)), NIL);
    var cs2 := CState(n + 2, cs0.funs + [FuncObj(0, Cons(NIL, ref), id')], [2]);
    assert CloseLambda(cs1, 3, NIL, ref) == cs2;
    // the getter
    OneForm(cs0, inner);
    OneElement(inner);
    SmallLambda(cs, x, Cons(inner, NIL));
    assert [2][..0] == [];
    assert CloseLambda(cs2, 2, x, Cons(Func(3), NIL)).funs == cs.funs + GetterFuns(id, id');
  }

  lemma ParameterAlone(s: Val)
    requires s.Sym?
    ensures ParseLambda([s], []) == None
  {
    assert [s][1..] == [];
  }

  /** (:lambda (f) (f)) */
  function Caller(): Val {
    Cons(LAMBDA, Cons(Cons(Sym(6), NIL), Cons(Cons(Sym(6), NIL), NIL)))
  }

  lemma CallerCompiles(cs: CState, n: nat, id: Val)
    requires |cs.funs| == 1 && cs.nextId == n && cs.lexicals == [] && Numbers(n, id)
    ensures Form(cs, Caller()) == (Ok(Func(1)), CState(n + 1, cs.funs + [CallerFun(id)], []))
  {
    hide Decimal, FrameId, IdFits, Form, Forms, Elements, Proper, RefForm;
    var f := Cons(Sym(6), NIL);
    OneElement(Sym(6));
    var cs0 := InLambda(cs, f);
    assert cs0.lexicals == [1] && cs0.funs[1] == FuncObj(1, Cons(f, NIL), id);
    OneParameter(cs0, 1, Sym(6));
    OneForm(cs0, Sym(6));
    assert Form(cs0, f) == Forms(cs0, f) by { CallForm(cs0, f); }
    OneForm(cs0, f);
    OneElement(f);
    SmallLambda(cs, f, Cons(f, NIL));
    assert [1][..0] == [];
    var code := Cons(Cons(RefForm(id, Fix(0)), NIL), NIL);
    assert CloseLambda(cs0, 1, f, code).funs == cs.funs + [CallerFun(id)];
  }

  /** A call of a symbol is compiled like a list. */
  lemma CallForm(cs: CState, v: Val)
    requires v.Cons? && (v.car.Sym? || v.car.Func?)
    ensures Form(cs, v) == Forms(cs, v)
  {
  }

  lemma EscapingCompiles(n: nat)
    requires Numbers(n, Key("1")) && Numbers(n + 1, Key("2")) && Numbers(n + 2, Key("3"))
    ensures Form(CState(n, BASE, []), Escaping()) ==
            (Ok(Cons(Func(1), Cons(Cons(Func(2), Cons(Fix(1), NIL)), NIL))), CState(n + 3, EscapingFuns(), []))
  {
    hide Numbers, Caller, Getter, CallerFun, GetterFuns, Form, Forms, Escaping;
    FourFuns();
    CallerCompiles(CState(n, BASE, []), n, Key("1"));
    var cs1 := CState(n + 1, BASE + [CallerFun(Key("1"))], []);
    GetterCompiles(cs1, n + 1, Key("2"), Key("3"));
    var cs2 := CState(n + 3, EscapingFuns(), []);
    var arg := Cons(Fix(1), NIL);
    var made := Cons(Getter(), arg);
    assert Form(cs2, Fix(1)) == (Ok(Fix(1)), cs2) by { ConstantForm(cs2, Fix(1)); }
    OneForm(cs2, Fix(1));
    AppliedForm(cs1, Getter(), arg);
    OneForm(cs1, made);
    AppliedForm(CState(n, BASE, []), Caller(), Cons(made, NIL));
  }

  lemma ConstantForm(cs: CState, v: Val)
    requires v.Fix?
    ensures Form(cs, v) == (Ok(v), cs)
  {
  }

  /** An applied lambda: its function object, then the compiled arguments. */
  lemma AppliedForm(cs: CState, lam: Val, args: Val)
    requires lam.Cons? && IsList(args) && Form(cs, lam).0.Ok? && Form(cs, lam).0.code.Func?
    requires Forms(Form(cs, lam).1, args).0.Ok?
    ensures var (head, cs1) := Form(cs, lam);
            var (rest, cs2) := Forms(cs1, args);
            Form(cs, Cons(lam, args)) == (Ok(Cons(head.code, rest.code)), cs2)
  {
    hide Forms, Lambda, Conditional, SymbolForm;
  }

  lemma FourFuns()
    ensures |EscapingFuns()| == 4 && Getter().Cons? && Caller().Cons? && |BASE| == 1
    ensures Escaping() == Cons(Caller(), Cons(Cons(Getter(), Cons(Fix(1), NIL)), NIL))
  {
  }

  lemma OneArg(n: nat, g: Globals, c: Context, form: Val)
    ensures var (o, c1) := Eval(n, g, c, form);
            Args(n, g, c, Cons(form, NIL)) == if o.Value? then (Value(NIL), [o.v], c1) else (o, [], c1)
  {
    hide Eval;
    var (o, c1) := Eval(n, g, c, form);
    assert Args(n, g, c1, NIL) == (Value(NIL), [], c1);
    if o.Value? { assert [o.v] + [] == [o.v]; }
  }

  /** The getter returns the lambda inside it and pops its own frame. */
  lemma GetterRuns(g: Globals, n: nat, c: Context)
    requires n >= 1 && g.funs == EscapingFuns() && c == Context([], map[], 0, 0)
    ensures var (o, c') := Eval(n, g, c, Cons(Func(2), Cons(Fix(1), NIL)));
            o == Value(Func(3)) && forall id :: Stack(c', id) == []
  {
    OneArg(n, g, c, Fix(1));
    var c1 := Enter(c, g.funs[2], Frame(2, [Fix(1)]));
    var body := Cons(Func(3), NIL);
    assert Body(n - 1, g, c1, Func(3), NIL) == (Value(Func(3)), c1);
    assert Body(n - 1, g, c1, body, body) == (Value(Func(3)), c1);
    assert Funcall(n, g, c, 2, [Fix(1)]) == (Value(Func(3)), Leave(c1, g.funs[2]));
  }

  /** That lambda refers to the frame that is gone. */
  lemma InnerDies(g: Globals, n: nat, c: Context)
    requires n >= 1 && g.funs == EscapingFuns() && 0 in g.syms && g.syms[0] == Func(0)
    requires Stack(c, Key("2")) == []
    ensures Apply(n, g, c, Func(3), NIL).0 == Abort
  {
    assert Args(n, g, c, NIL) == (Value(NIL), [], c);
    var c1 := Enter(c, g.funs[3], Frame(3, []));
    assert Stack(c1, Key("2")) == [];
    RefEval(n - 1, g, c1, Key("2"), Fix(0));
    var body := Cons(RefForm(Key("2"), Fix(0)), NIL);
    assert Body(n - 1, g, c1, body, body).0 == Abort;
  }

  lemma CallerDies(g: Globals, n: nat, c: Context)
    requires n >= 2 && g.funs == EscapingFuns() && 0 in g.syms && g.syms[0] == Func(0)
    requires forall id :: Stack(c, id) == []
    ensures Funcall(n, g, c, 1, [Func(3)]).0 == Abort
  {
    hide Apply;
    var c3 := Enter(c, g.funs[1], Frame(1, [Func(3)]));
    assert Stack(c3, Key("2")) == Stack(c, Key("2")) == [];
    assert Stack(c, Key("1")) == [] && g.funs[1].frameId == Key("1") && g.funs[1].arity == 1;
    assert Stack(c3, Key("1")) == [] + [Frame(1, [Func(3)])] == [Frame(1, [Func(3)])];
    RefEval(n - 1, g, c3, Key("1"), Fix(0));
    var call := Cons(RefForm(Key("1"), Fix(0)), NIL);
    var c4 := AfterRef(c3, Value(Func(3)), Frame(0, [Key("1"), Fix(0)]));
    assert Eval(n - 1, g, c3, RefForm(Key("1"), Fix(0))) == (Value(Func(3)), c4);
    assert Stack(c4, Key("2")) == [];
    InnerDies(g, n - 1, c4);
    assert Eval(n - 1, g, c3, call).0 == Abort;
    assert Body(n - 1, g, c3, Cons(call, NIL), Cons(call, NIL)).0 == Abort;
  }

  lemma EscapingRuns(g: Globals, n: nat)
    requires n >= 3 && g.funs == EscapingFuns() && 0 in g.syms && g.syms[0] == Func(0)
    ensures Eval(n, g, Context([], map[], 0, 0), Cons(Func(1), Cons(Cons(Func(2), Cons(Fix(1), NIL)), NIL))).0 == Abort
  {
    hide Funcall, EscapingFuns;
    var c := Context([], map[], 0, 0);
    var made := Cons(Func(2), Cons(Fix(1), NIL));
    GetterRuns(g, n, c);
    OneArg(n, g, c, made);
    CallerDies(g, n, Eval(n, g, c, made).1);
  }

  /** Locality is needed: this form compiles, static scope would give 1, and the
      run dies looking for a frame that was popped when the getter returned. */
  lemma EscapingClosureLosesItsFrame(g: Globals, n: nat)
    requires n >= 3 && g.funs == EscapingFuns() && 0 in g.syms && g.syms[0] == Func(0)
    ensures !Local(Escaping())
    ensures Form(CState(1, BASE, []), Escaping()) ==
            (Ok(Cons(Func(1), Cons(Cons(Func(2), Cons(Fix(1), NIL)), NIL))), CState(4, EscapingFuns(), []))
    ensures Eval(n, g, Context([], map[], 0, 0), Form(CState(1, BASE, []), Escaping()).0.code).0 == Abort
  {
    hide Form, Numbers, Eval, EscapingFuns;
    FirstIds();
    EscapingCompiles(1);
    EscapingRuns(g, n);
  }
}
