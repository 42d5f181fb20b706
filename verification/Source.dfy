// What a source form means, without compiling it: direct evaluation in an
// environment of scopes. Lambdas are applied where they are written; functions
// that already exist are called as the runtime calls them.

module Source {
  import opened Options
  import opened Lisp
  import opened Evaluator
  import opened Compiler

  /** The bindings one applied lambda makes. */
  datatype Scope = Scope(params: seq<Val>, args: seq<Val>)

  /** The value bound to s by the innermost scope that binds it. */
  function Lookup(scopes: seq<Scope>, s: Val): Option<Val> {
    if scopes == [] then None
    else
      var scope := scopes[|scopes| - 1];
      if s in scope.params then
        var k := IndexOf(scope.params, s);
        if k < |scope.args| then Some(scope.args[k]) else None
      else Lookup(scopes[..|scopes| - 1], s)
  }

  /** A symbol's meaning: its local binding, or else its global value. */
  function Meaning(g: Globals, scopes: seq<Scope>, s: Val): Outcome
    requires IsSymbol(s)
  {
    if s.Key? then Value(s)
    else
      match Lookup(scopes, s)
      case Some(v) => Value(v)
      case None => SymbolValue(g, s)
  }

  function Bind(scopes: seq<Scope>, params: seq<Val>, args: seq<Val>): seq<Scope> {
    if params == [] then scopes else scopes + [Scope(params, args)]
  }

  function Params(lambda: Val): seq<Val> { Elements(Nth(lambda, 1)) }

  function BodyOf(lambda: Val): (body: Val)
    ensures lambda.Cons? ==> Size(body) < Size(lambda)
  {
    if lambda.Cons? && lambda.cdr.Cons? then lambda.cdr.cdr else NIL
  }

  /** Direct evaluation. */
  function Direct(n: nat, g: Globals, scopes: seq<Scope>, c: Context, v: Val): (Outcome, Context)
    decreases n, 2, Size(v)
  {
    if IsSymbol(v) then (Meaning(g, scopes, v), c)
    else if !v.Cons? then (Value(v), c)
    else if v.car == QUOTE then (Value(Nth(v, 1)), c)
    else if v.car == IF then
      var (o, c1) := Direct(n, g, scopes, c, Nth(v, 1));
      if !o.Value? then (o, c1)
      else if n == 0 then (Deep, c1)
      else Direct(n - 1, g, scopes, c1, if o.v == NIL then Nth(v, 3) else Nth(v, 2))
    else if v.car.Cons? then
      var (o, vs, c1) := DirectArgs(n, g, scopes, c, v.cdr);
      var params := Params(v.car);
      if !o.Value? then (o, c1)
      else if |vs| != |params| then (ArityError(FuncObj(|params|, NIL, NIL), vs), c1)
      else if n == 0 then (Deep, c1)
      else DirectBody(n - 1, g, Bind(scopes, params, vs), c1, NIL, BodyOf(v.car))
    else
      var head := if IsSymbol(v.car) then Meaning(g, scopes, v.car) else Value(v.car);
      if !head.Value? then (head, c)
      else if !head.v.Func? then (Raise(Exn("eval", "type", head.v)), c)
      else
        var (o, vs, c1) := DirectArgs(n, g, scopes, c, v.cdr);
        if o.Value? then Funcall(n, g, c1, head.v.fid, vs) else (o, c1)
  }

  function DirectArgs(n: nat, g: Globals, scopes: seq<Scope>, c: Context, forms: Val)
    : (Outcome, seq<Val>, Context)
    decreases n, 2, Size(forms), 0
  {
    if !forms.Cons? then (Value(NIL), [], c)
    else
      var (o, c1) := Direct(n, g, scopes, c, forms.car);
      if !o.Value? then (o, [], c1)
      else
        var (rest, vs, c2) := DirectArgs(n, g, scopes, c1, forms.cdr);
        (rest, [o.v] + vs, c2)
  }

  function DirectBody(n: nat, g: Globals, scopes: seq<Scope>, c: Context, last: Val, forms: Val)
    : (Outcome, Context)
    decreases n, 2, Size(forms)
  {
    if !forms.Cons? then (Value(last), c)
    else
      var (o, c1) := Direct(n, g, scopes, c, forms.car);
      if o.Value? then DirectBody(n, g, scopes, c1, o.v, forms.cdr) else (o, c1)
  }

  // ------------------------------------------------------------------- fragment

  /** A datum without env:lex-ref, and whose functions exist already. Function 0
      is the one env:lex-ref names. */
  predicate Clean(nb: nat, v: Val) {
    match v
    case Sym(id) => v != LEX_REF
    case Func(f) => 0 < f < nb
    case Cons(a, d) => Clean(nb, a) && Clean(nb, d)
    case Exn(_, _, source) => Clean(nb, source)
    case _ => true
  }

  predicate AllClean(nb: nat, vs: seq<Val>) { forall v | v in vs :: Clean(nb, v) }

  /** Source forms whose lambdas are all applied where they are written. */
  predicate Local(v: Val)
    decreases Size(v), 1
  {
    match v
    case Cons(head, args) =>
      if head == QUOTE then true
      else if head == LAMBDA then false
      else if head.Cons? then
        head.car == LAMBDA && LocalAll(BodyOf(head)) && LocalAll(args)
      else LocalAll(args)
    case _ => true
  }

  predicate LocalAll(vs: Val)
    decreases Size(vs), 0
  {
    vs.Cons? ==> Local(vs.car) && LocalAll(vs.cdr)
  }
}
