// The compiler as core/compile.cc runs it: an object that pushes and pops
// `lexicals`, counts frame ids and patches function objects, proved against the
// functions of module Compiler.

module Compiling {
  import opened Options
  import opened Lisp
  import opened Evaluator
  import opened Compiler

  /** vs consed onto a tail. */
  function OnTo(vs: seq<Val>, tail: Val): Val {
    if vs == [] then tail else Cons(vs[0], OnTo(vs[1..], tail))
  }

  lemma {:induction false} OnToPush(vs: seq<Val>, v: Val, tail: Val)
    ensures OnTo(vs + [v], tail) == OnTo(vs, Cons(v, tail))
  {
    if vs == [] {
      assert (vs + [v])[1..] == [];
    } else {
      assert (vs + [v])[1..] == vs[1..] + [v];
      OnToPush(vs[1..], v, tail);
    }
  }

  lemma {:induction false} OnToNil(vs: seq<Val>)
    ensures OnTo(vs, NIL) == ListOf(vs)
  {
    if vs != [] { OnToNil(vs[1..]); }
  }

  /** The forms already compiled, and how the loop will end. */
  function Ahead(done: seq<Val>, rest: (CResult, CState)): (CResult, CState) {
    (if rest.0.Ok? then Ok(OnTo(done, rest.0.code)) else rest.0, rest.1)
  }

  lemma AheadPush(done: seq<Val>, cs: CState, vs: Val)
    requires vs.Cons? && Form(cs, vs.car).0.Ok?
    ensures Ahead(done, Forms(cs, vs)) ==
            Ahead(done + [Form(cs, vs.car).0.code], Forms(Form(cs, vs.car).1, vs.cdr))
  {
    hide Form;
    var (first, cs1) := Form(cs, vs.car);
    var rest := Forms(cs1, vs.cdr).0;
    if rest.Ok? { OnToPush(done, first.code, rest.code); }
  }

  /** Searching a reversed prefix and then the rest. */
  lemma MapLexicalStep(funs: seq<FuncObj>, lexicals: seq<nat>, n: nat, s: Val)
    requires n < |lexicals| && s.Sym? && s !in ParamsOf(funs, lexicals[n])
    ensures MapLexical(funs, lexicals[..n + 1], s) == MapLexical(funs, lexicals[..n], s)
  {
    assert lexicals[..n + 1][..n] == lexicals[..n];
  }

  lemma ParameterList(funs: seq<FuncObj>, f: nat)
    ensures ParamsOf(funs, f) == Elements(if f < |funs| && funs[f].form.Cons? then funs[f].form.car else NIL)
  {
  }

  class Compile {
    var lexicals: seq<nat>
    var frameId: nat
    var funs: seq<FuncObj>

    constructor (existing: seq<FuncObj>)
      ensures State() == CState(1, existing, [])
    {
      lexicals, frameId, funs := [], 1, existing;
    }

    ghost function State(): CState
      reads this
    {
      CState(frameId, funs, lexicals)
    }

    /** The inner loop of map_lexical_symbol: where a parameter list has s. */
    method FindParameter(list: Val, s: Val) returns (k: Option<nat>)
      ensures var params := Elements(list);
              k == if s in params then Some(IndexOf(params, s)) else None
    {
      var it := list;
      var i := 0;
      ghost var params := Elements(it);
      while it.Cons?
        invariant i <= |params| && params[i..] == Elements(it)
        invariant s !in params[..i]
        decreases Size(it)
      {
        assert params[i] == Elements(it)[0] == it.car;
        if s == it.car {
          FirstIndex(params, s, i);
          return Some(i);
        }
        assert params[i + 1..] == params[i..][1..] == Elements(it.cdr);
        it, i := it.cdr, i + 1;
      }
      assert params[..i] == params;
      k := None;
    }

    /** map_lexical_symbol */
    method MapLexicalSymbol(s: Val) returns (found: bool, f: nat, k: nat)
      requires IsSymbol(s)
      ensures MapLexical(funs, lexicals, s) == if found then Some((f, k)) else None
    {
      hide ParamsOf, Elements;
      found, f, k := false, 0, 0;
      if s.Key? { return; }
      var n := |lexicals|;
      assert lexicals[..n] == lexicals;
      while n > 0
        invariant n <= |lexicals|
        invariant MapLexical(funs, lexicals, s) == MapLexical(funs, lexicals[..n], s)
      {
        f := lexicals[n - 1];
        var list := if f < |funs| && funs[f].form.Cons? then funs[f].form.car else NIL;
        assert ParamsOf(funs, f) == Elements(list) by { ParameterList(funs, f); }
        var at := FindParameter(list, s);
        assert lexicals[..n][n - 1] == f;
        if at.Some? { return true, f, at.value; }
        MapLexicalStep(funs, lexicals, n - 1, s);
        n := n - 1;
      }
    }

    /** parse_lambda: the exception it raises, if any. */
    method ParseLambdaList(lambda: Val) returns (error: Option<Val>)
      ensures error == ParseLambda(Elements(lambda), [])
    {
      var seen: seq<Val> := [];
      var it := lambda;
      while it.Cons?
        invariant ParseLambda(Elements(lambda), []) == ParseLambda(Elements(it), seen)
        decreases Size(it)
      {
        assert Elements(it)[0] == it.car && Elements(it)[1..] == Elements(it.cdr);
        if !it.car.Sym? { return Some(Exn(":lambda", "type", it.car)); }
        if it.car in seen { return Some(Exn(":lambda", "dup", it.car)); }
        seen := seen + [it.car];
        it := it.cdr;
      }
      return None;
    }

    /** compile_list */
    method CompileList(list: Val) returns (r: CResult)
      modifies this
      ensures (r, State()) == FormList(old(State()), list)
      decreases Size(list), 0
    {
      if !IsList(list) { return Broken; }
      var vlist: seq<Val> := [];
      var it := list;
      while it.Cons?
        invariant Size(it) <= Size(list)
        invariant Forms(old(State()), list) == Ahead(vlist, Forms(State(), it))
        decreases Size(it)
      {
        ghost var before := State();
        var first := CompileForm(it.car);
        if !first.Ok? { return first; }
        AheadPush(vlist, before, it);
        vlist := vlist + [first.code];
        it := it.cdr;
      }
      OnToNil(vlist);
      r := Ok(ListOf(vlist));
    }

    /** def_lambda */
    method DefLambda(form: Val) returns (r: CResult)
      requires form.Cons?
      modifies this
      ensures (r, State()) == Lambda(old(State()), form)
      decreases Size(form), 1
    {
      if !Proper(form) { return Err(Exn("length", "type", form)); }
      if |Elements(form)| == 1 { return Err(Exn(":lambda", "arity", form)); }
      var lambda := Nth(form, 1);
      if !IsList(lambda) { return Err(Exn(":lambda", "type", lambda)); }
      if Nth(lambda, 0) == QUOTE { return Err(Exn(":lambda", "quote", lambda)); }
      var error := ParseLambdaList(lambda);
      if error.Some? { return Err(error.value); }
      var id := FrameId(frameId);
      frameId := frameId + 1;
      if !IdFits(frameId - 1) { return Broken; }
      if !Proper(lambda) { return Err(Exn("length", "type", lambda)); }
      assert |Elements(form)| == 1 + |Elements(form.cdr)|;
      assert form.cdr.Cons?;
      var fn := |funs|;
      var arity := |Elements(lambda)|;
      funs := funs + [FuncObj(arity, Cons(lambda, NIL), id)];
      if arity != 0 { lexicals := lexicals + [fn]; }
      assert State() == InLambda(old(State()), lambda);
      var body := CompileList(form.cdr.cdr);
      if !body.Ok? { return body; }
      if fn < |funs| {
        funs := funs[fn := funs[fn].(form := Cons(lambda, body.code))];
      }
      if arity != 0 && lexicals != [] { lexicals := lexicals[..|lexicals| - 1]; }
      r := Ok(Func(fn));
    }

    /** def_conditional */
    method DefConditional(form: Val) returns (r: CResult)
      requires form.Cons?
      modifies this
      ensures (r, State()) == Conditional(old(State()), form)
      decreases Size(form), 1
    {
      if !Proper(form) { return Err(Exn("length", "type", form)); }
      if |Elements(form)| != 4 { return Err(Exn(":if", "arity", form)); }
      SizeOfFour(form);
      var test := CompileForm(Nth(form, 1));
      if !test.Ok? { return test; }
      var yes := DefLambda(Branch(Nth(form, 2)));
      if !yes.Ok? { return yes; }
      var no := DefLambda(Branch(Nth(form, 3)));
      if !no.Ok? { return no; }
      r := Ok(ListOf([IF, test.code, yes.code, no.code]));
    }

    /** Compile::Form */
    method CompileForm(form: Val) returns (r: CResult)
      modifies this
      ensures (r, State()) == Form(old(State()), form)
      decreases Size(form), 2
    {
      if form.Sym? {
        var found, f, k := MapLexicalSymbol(form);
        if !found { return Ok(form); }
        var again, _, _ := MapLexicalSymbol(LEX_REF);
        if again { return NoReturn; }
        return Ok(LexRef(funs, f, k));
      }
      if !form.Cons? { return Ok(form); }
      var fn := form.car;
      match fn
      case Cons(_, _) =>
        var func := CompileForm(fn);
        if !func.Ok? { return func; }
        if !func.code.Func? { return Err(Exn("compile", "type", fn)); }
        var args := CompileList(form.cdr);
        if !args.Ok? { return args; }
        r := Ok(Cons(func.code, args.code));
      case Key(_) =>
        if fn == LAMBDA { r := DefLambda(form); }
        else if fn == QUOTE { r := Quote(form); }
        else if fn == IF { r := DefConditional(form); }
        else { r := Err(Exn("compile", "type", fn)); }
      case Sym(_) => r := CompileList(form);
      case Func(_) => r := CompileList(form);
      case _ => r := Err(Exn("compile", "type", fn));
    }
  }

  lemma {:induction false} FirstIndex(vs: seq<Val>, v: Val, i: nat)
    requires i < |vs| && vs[i] == v && v !in vs[..i]
    ensures v in vs && IndexOf(vs, v) == i
    decreases i
  {
    if i > 0 {
      assert vs[..i][0] == vs[0] && vs[..i][1..] == vs[1..][..i - 1];
      FirstIndex(vs[1..], v, i - 1);
    }
  }
}
