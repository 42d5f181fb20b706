// The compiler (core/compile.cc) as functions of its state: the next frame id,
// the function objects made so far, and the enclosing lambdas.

module Compiler {
  import opened Options
  import opened Lisp
  import opened Numerals
  import opened Evaluator

  /** The compiler's state. `lexicals` lists the enclosing lambdas that have
      parameters, outermost first, by function reference. */
  datatype CState = CState(nextId: nat, funs: seq<FuncObj>, lexicals: seq<nat>)

  /** A compiled form, a raised exception, a failed assertion, or no return. */
  datatype CResult = Ok(code: Val) | Err(exn: Val) | Broken | NoReturn

  /** The frame id keyword for a number. */
  function FrameId(n: nat): Val { Key(Decimal(n)) }

  /** A number short enough for a keyword. */
  predicate IdFits(n: nat) { |Decimal(n)| <= 7 }

  /** The parameters of function f: the head of its form. */
  function ParamsOf(funs: seq<FuncObj>, f: nat): seq<Val> {
    if f < |funs| && funs[f].form.Cons? then Elements(funs[f].form.car) else []
  }

  /** map_lexical_symbol: the innermost enclosing lambda that lists the symbol,
      and the symbol's position among its parameters. */
  function MapLexical(funs: seq<FuncObj>, lexicals: seq<nat>, s: Val): Option<(nat, nat)>
  {
    if lexicals == [] || s.Key? then None
    else
      var f := lexicals[|lexicals| - 1];
      var params := ParamsOf(funs, f);
      if s in params then Some((f, IndexOf(params, s)))
      else MapLexical(funs, lexicals[..|lexicals| - 1], s)
  }

  /** parse_lambda: every parameter a symbol, none a keyword, none repeated. */
  function ParseLambda(params: seq<Val>, seen: seq<Val>): Option<Val>
    decreases |params|
  {
    if params == [] then None
    else if !params[0].Sym? then Some(Exn(":lambda", "type", params[0]))
    else if params[0] in seen then Some(Exn(":lambda", "dup", params[0]))
    else ParseLambda(params[1..], seen + [params[0]])
  }

  /** A reference to parameter k of function f. */
  function LexRef(funs: seq<FuncObj>, f: nat, k: nat): Val {
    ListOf([LEX_REF, if f < |funs| then funs[f].frameId else NIL, Fix(k)])
  }

  /** A symbol form. The reference that replaces a parameter is compiled in turn:
      were env:lex-ref itself a parameter in scope, that would never end. */
  function SymbolForm(cs: CState, s: Val): CResult {
    match MapLexical(cs.funs, cs.lexicals, s)
    case None => Ok(s)
    case Some((f, k)) =>
      if MapLexical(cs.funs, cs.lexicals, LEX_REF).Some? then NoReturn
      else Ok(LexRef(cs.funs, f, k))
  }

  /** Compile::Form */
  function Form(cs: CState, v: Val): (CResult, CState)
    decreases Size(v), 2
  {
    if v.Sym? then (SymbolForm(cs, v), cs)
    else if !v.Cons? then (Ok(v), cs)
    else
      match v.car
      case Cons(_, _) =>
        var (head, cs1) := Form(cs, v.car);
        if !head.Ok? then (head, cs1)
        else if !head.code.Func? then (Err(Exn("compile", "type", v.car)), cs1)
        else
          var (args, cs2) := FormList(cs1, v.cdr);
          (if args.Ok? then Ok(Cons(head.code, args.code)) else args, cs2)
      case Key(_) =>
        if v.car == LAMBDA then Lambda(cs, v)
        else if v.car == QUOTE then (Quote(v), cs)
        else if v.car == IF then Conditional(cs, v)
        else (Err(Exn("compile", "type", v.car)), cs)
      case Sym(_) => FormList(cs, v)
      case Func(_) => FormList(cs, v)
      case _ => (Err(Exn("compile", "type", v.car)), cs)
  }

  /** compile_list */
  function FormList(cs: CState, vs: Val): (CResult, CState)
    decreases Size(vs), 0
  {
    if IsList(vs) then Forms(cs, vs) else (Broken, cs)
  }

  /** The loop of compile_list: the compiled elements as a fresh proper list. */
  function Forms(cs: CState, vs: Val): (CResult, CState)
    decreases Size(vs), 0, 0
  {
    if !vs.Cons? then (Ok(NIL), cs)
    else
      var (first, cs1) := Form(cs, vs.car);
      if !first.Ok? then (first, cs1)
      else
        var (rest, cs2) := Forms(cs1, vs.cdr);
        (if rest.Ok? then Ok(Cons(first.code, rest.code)) else rest, cs2)
  }

  /** def_quote */
  function Quote(v: Val): CResult {
    if !Proper(v) then Err(Exn("length", "type", v))
    else if |Elements(v)| != 2 then Err(Exn(":quote", "arity", v))
    else Ok(v)
  }

  /** The function object def_lambda starts from: parameters, no body yet. */
  function NewLambda(cs: CState, lambda: Val): FuncObj {
    FuncObj(|Elements(lambda)|, Cons(lambda, NIL), FrameId(cs.nextId))
  }

  /** The state while a lambda's body is compiled. */
  function InLambda(cs: CState, lambda: Val): CState {
    CState(cs.nextId + 1, cs.funs + [NewLambda(cs, lambda)],
           if Elements(lambda) == [] then cs.lexicals else cs.lexicals + [|cs.funs|])
  }

  /** Why def_lambda refuses a form before it makes a function object. */
  function LambdaError(v: Val): Option<Val> {
    if !Proper(v) then Some(Exn("length", "type", v))
    else if |Elements(v)| == 1 then Some(Exn(":lambda", "arity", v))
    else
      var lambda := Nth(v, 1);
      if !IsList(lambda) then Some(Exn(":lambda", "type", lambda))
      else if Nth(lambda, 0) == QUOTE then Some(Exn(":lambda", "quote", lambda))
      else ParseLambda(Elements(lambda), [])
  }

  /** def_lambda. A failure in the body leaves the lambda on `lexicals`. */
  function Lambda(cs: CState, v: Val): (CResult, CState)
    requires v.Cons?
    decreases Size(v), 1
  {
    var error := LambdaError(v);
    if error.Some? then (Err(error.value), cs)
    else
      var lambda := Nth(v, 1);
      if !IdFits(cs.nextId) then (Broken, cs.(nextId := cs.nextId + 1))
      else if !Proper(lambda) then
        (Err(Exn("length", "type", lambda)), cs.(nextId := cs.nextId + 1))
      else if !v.cdr.Cons? then (Broken, cs)
      else
        var (body, cs1) := FormList(InLambda(cs, lambda), v.cdr.cdr);
        if !body.Ok? then (body, cs1)
        else (Ok(Func(|cs.funs|)), CloseLambda(cs1, |cs.funs|, lambda, body.code))
  }

  /** Patching the body in and popping the lambda. */
  function CloseLambda(cs: CState, f: nat, lambda: Val, body: Val): CState {
    cs.(funs := if f < |cs.funs| then cs.funs[f := cs.funs[f].(form := Cons(lambda, body))] else cs.funs,
        lexicals := if Elements(lambda) != [] && cs.lexicals != []
                    then cs.lexicals[..|cs.lexicals| - 1] else cs.lexicals)
  }

  /** def_conditional: the branches become lambdas without parameters. */
  function Conditional(cs: CState, v: Val): (CResult, CState)
    requires v.Cons?
    decreases Size(v), 1
  {
    if !Proper(v) then (Err(Exn("length", "type", v)), cs)
    else if |Elements(v)| != 4 then (Err(Exn(":if", "arity", v)), cs)
    else
      SizeOfFour(v);
      var (test, cs1) := Form(cs, Nth(v, 1));
      if !test.Ok? then (test, cs1)
      else
        var (yes, cs2) := Lambda(cs1, Branch(Nth(v, 2)));
        if !yes.Ok? then (yes, cs2)
        else
          var (no, cs3) := Lambda(cs2, Branch(Nth(v, 3)));
          (if no.Ok? then Ok(ListOf([IF, test.code, yes.code, no.code])) else no, cs3)
  }

  /** The lambda form of a branch. */
  function Branch(v: Val): (b: Val)
    ensures Size(b) == 3 + Size(v)
  {
    assert Size(Cons(v, NIL)) == 1 + Size(v);
    Cons(LAMBDA, Cons(NIL, Cons(v, NIL)))
  }

  lemma ListOfFour(v: Val)
    requires Proper(v) && |Elements(v)| == 4
    ensures v == Cons(Nth(v, 0), Cons(Nth(v, 1), Cons(Nth(v, 2), Cons(Nth(v, 3), NIL))))
  {
    assert |Elements(v)| == 1 + |Elements(v.cdr)|;
    assert |Elements(v.cdr)| == 1 + |Elements(v.cdr.cdr)|;
    assert |Elements(v.cdr.cdr)| == 1 + |Elements(v.cdr.cdr.cdr)|;
    assert v.cdr.cdr.cdr.cdr == NIL by {
      assert |Elements(v.cdr.cdr.cdr)| == 1 + |Elements(v.cdr.cdr.cdr.cdr)|;
      assert Proper(v.cdr.cdr) && Proper(v.cdr.cdr.cdr) && Proper(v.cdr.cdr.cdr.cdr);
    }
    assert Nth(v, 3) == Nth(v.cdr, 2) == Nth(v.cdr.cdr, 1) == Nth(v.cdr.cdr.cdr, 0);
    assert Nth(v, 2) == Nth(v.cdr, 1) == Nth(v.cdr.cdr, 0);
  }

  lemma SizeOfFour(v: Val)
    requires Proper(v) && |Elements(v)| == 4
    ensures Size(v) == 4 + Size(Nth(v, 0)) + Size(Nth(v, 1)) + Size(Nth(v, 2)) + Size(Nth(v, 3))
  {
    hide Nth;
    ListOfFour(v);
    var d := v.cdr.cdr.cdr;
    assert Size(d) == 1 + Size(d.car) + Size(NIL) == 1 + Size(d.car);
    assert Size(v.cdr.cdr) == 1 + Size(v.cdr.cdr.car) + Size(d);
  }
}
