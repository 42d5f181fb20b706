// Lexical addresses: which frame and slot a compiled parameter reference names,
// and that the slot is there whenever the frame is.

module Addresses {
  import opened Options
  import opened Lisp
  import opened Numerals
  import opened Evaluator
  import opened Compiler
  import opened Discipline
  import opened Simulation

  /** parse_lambda accepts exactly the lists of distinct symbols that are not
      keywords. */
  lemma {:induction false} ParseLambdaIsExact(params: seq<Val>, seen: seq<Val>)
    ensures ParseLambda(params, seen).None? <==>
            && (forall i | 0 <= i < |params| :: params[i].Sym? && params[i] !in seen)
            && (forall i, j | 0 <= i < j < |params| :: params[i] != params[j])
    decreases |params|
  {
    if params != [] && params[0].Sym? && params[0] !in seen {
      var seen' := seen + [params[0]];
      ParseLambdaIsExact(params[1..], seen');
      var tail := params[1..];
      assert forall i | 0 <= i < |tail| :: tail[i] == params[i + 1];
      assert forall i | 1 <= i < |params| :: params[i] == tail[i - 1];
      if ParseLambda(params, seen).None? {
        forall i, j | 0 <= i < j < |params| ensures params[i] != params[j] {
          assert params[j] == tail[j - 1] && tail[j - 1] !in seen';
          if i > 0 { assert params[i] == tail[i - 1]; }
        }
      }
    }
  }

  /** Parameter k is no symbol, or there already. */
  predicate Offends(params: seq<Val>, seen: seq<Val>, k: nat)
    requires k < |params|
  {
    !params[k].Sym? || params[k] in seen || params[k] in params[..k]
  }

  /** What parse_lambda raises is about the first parameter that offends. */
  lemma {:induction false} ParseLambdaNamesTheFirst(params: seq<Val>, seen: seq<Val>, k: nat)
    requires k < |params| && Offends(params, seen, k) && forall j: nat | j < k :: !Offends(params, seen, j)
    ensures ParseLambda(params, seen) == Some(Exn(":lambda", if params[k].Sym? then "dup" else "type", params[k]))
    decreases |params|
  {
    if k > 0 {
      assert !Offends(params, seen, 0);
      var tail, seen' := params[1..], seen + [params[0]];
      forall j: nat | j < |tail| ensures Offends(tail, seen', j) <==> Offends(params, seen, j + 1) {
        assert params[..j + 1] == [params[0]] + tail[..j];
      }
      forall j: nat | j < k - 1 ensures !Offends(tail, seen', j) { assert !Offends(params, seen, j + 1); }
      ParseLambdaNamesTheFirst(tail, seen', k - 1);
    }
  }

  /** Address (f, k) is the innermost enclosing lambda that lists the symbol and
      the symbol's first position there. */
  ghost predicate Innermost(funs: seq<FuncObj>, lexicals: seq<nat>, s: Val, f: nat, k: nat) {
    exists i | 0 <= i < |lexicals| ::
      && lexicals[i] == f && k < |ParamsOf(funs, f)|
      && ParamsOf(funs, f)[k] == s && s !in ParamsOf(funs, f)[..k]
      && forall j | i < j < |lexicals| :: s !in ParamsOf(funs, lexicals[j])
  }

  lemma {:induction false} LexicalAddressIsInnermost(funs: seq<FuncObj>, lexicals: seq<nat>, s: Val)
    requires s.Sym?
    ensures match MapLexical(funs, lexicals, s)
            case None => forall i | 0 <= i < |lexicals| :: s !in ParamsOf(funs, lexicals[i])
            case Some((f, k)) => Innermost(funs, lexicals, s, f, k)
    decreases |lexicals|
  {
    hide ParamsOf;
    if lexicals != [] {
      var n := |lexicals| - 1;
      LexicalAddressIsInnermost(funs, lexicals[..n], s);
      if s in ParamsOf(funs, lexicals[n]) {
        assert lexicals[n] == lexicals[|lexicals| - 1];
      } else if MapLexical(funs, lexicals, s).Some? {
        var (f, k) := MapLexical(funs, lexicals, s).value;
        var i :| 0 <= i < n && lexicals[..n][i] == f && k < |ParamsOf(funs, f)|
          && ParamsOf(funs, f)[k] == s && s !in ParamsOf(funs, f)[..k]
          && forall j | i < j < n :: s !in ParamsOf(funs, lexicals[..n][j]);
        forall j | i < j < |lexicals| ensures s !in ParamsOf(funs, lexicals[j]) {
          if j < n { assert lexicals[j] == lexicals[..n][j]; }
        }
        assert lexicals[i] == f;
      }
    }
  }

  /** Function objects made by one compilation have different frame ids. */
  lemma FrameIdsAreDistinct(cs: CState, v: Val, f: nat, h: nat)
    requires Form(cs, v).0.Ok?
    requires |cs.funs| <= f < |Form(cs, v).1.funs| && |cs.funs| <= h < |Form(cs, v).1.funs|
    requires Form(cs, v).1.funs[f].frameId == Form(cs, v).1.funs[h].frameId
    ensures f == h
  {
    hide Form;
    FormGrows(cs, v);
    DecimalInjective(cs.nextId + (f - |cs.funs|), cs.nextId + (h - |cs.funs|));
  }

  /** Only function f runs under frame id `id`. */
  ghost predicate Owns(g: Globals, f: nat, id: Val) {
    forall h | 0 <= h < |g.funs| && g.funs[h].frameId == id :: h == f
  }

  /** A frame of a function with this frame id, with one argument per parameter. */
  ghost predicate Fits(g: Globals, id: Val, fr: Frame) {
    fr.Frame? ==> fr.func < |g.funs| && g.funs[fr.func].frameId == id && |fr.argv| == g.funs[fr.func].arity
  }

  /** Every frame on a lexical stack fits there. Calls push only such frames. */
  ghost predicate AllFit(g: Globals, c: Context) {
    forall id, k {:trigger Stack(c, id)[k]} :: 0 <= k < |Stack(c, id)| ==> Fits(g, id, Stack(c, id)[k])
  }

  /** A reference is in range for every function that runs under its frame id. */
  ghost predicate InRange(funs: seq<FuncObj>, id: Val, off: int) {
    0 <= off && forall h | 0 <= h < |funs| && funs[h].frameId == id :: off < funs[h].arity
  }

  /** In any context whose frames fit, in the middle of a run or not, a reference
      in range reads the latest frame's argument; it fails only if there is no
      frame, or what is left of one. */
  lemma ReferencesInRangeRead(g: Globals, c: Context, id: Val, off: int)
    requires AllFit(g, c) && InRange(g.funs, id, off)
    ensures var s := Stack(c, id);
            var o := FrameRef(c, [id, Fix(off)]);
            if s == [] then o == Abort
            else if s[|s| - 1].Gone? then o == Stale
            else off < |s[|s| - 1].argv| && o == Value(s[|s| - 1].argv[off])
  {
    var s := Stack(c, id);
    if s != [] { assert Fits(g, id, s[|s| - 1]); }
  }

  /** The address of a symbol is in range if its lambda's frame id is its own. */
  lemma AddressesAreInBounds(g: Globals, lexicals: seq<nat>, s: Val)
    requires s.Sym? && MapLexical(g.funs, lexicals, s).Some?
    ensures var (f, k) := MapLexical(g.funs, lexicals, s).value;
            f < |g.funs| && Owns(g, f, g.funs[f].frameId) && g.funs[f].arity == |ParamsOf(g.funs, f)| ==>
              InRange(g.funs, g.funs[f].frameId, k)
  {
    hide MapLexical;
    LexicalAddressIsInnermost(g.funs, lexicals, s);
  }

  /** Evaluation, whatever it does, leaves frames that fit. */
  lemma FramesKeepFitting(g: Globals, c: Context, o: Outcome, c': Context)
    requires AllFit(g, c) && Disciplined(g, c, o, c')
    ensures AllFit(g, c')
  {
    forall id, k | 0 <= k < |Stack(c', id)| ensures Fits(g, id, Stack(c', id)[k]) {
      assert Stack(c, id) <= Stack(c', id);
      if k < |Stack(c, id)| { assert Stack(c', id)[k] == Stack(c, id)[k]; }
    }
  }

  /** The functions there were before have frame ids older than the counter. */
  ghost predicate OldIds(cs: CState) {
    forall h | 0 <= h < |cs.funs| :: OldId(cs.funs[h].frameId, cs.nextId)
  }

  /** Both conditions hold of every function a compilation makes: its frame id is
      its own and its arity is the length of its parameter list. */
  lemma CompiledFunctionsOwnTheirFrames(g: Globals, cs: CState, v: Val, f: nat)
    requires OldIds(cs) && Form(cs, v).0.Ok? && g.funs == Form(cs, v).1.funs
    requires |cs.funs| <= f < |g.funs|
    ensures Owns(g, f, g.funs[f].frameId) && g.funs[f].arity == |ParamsOf(g.funs, f)|
    ensures OldIds(Form(cs, v).1)
  {
    hide Form, ParamsOf, FrameId;
    FormGrows(cs, v);
    var cs' := Form(cs, v).1;
    assert g.funs[f].frameId == FrameId(cs.nextId + (f - |cs.funs|));
    forall h | 0 <= h < |cs.funs| ensures g.funs[h].frameId != g.funs[f].frameId {
      assert g.funs[h] == cs.funs[h] && OldId(cs.funs[h].frameId, cs.nextId);
    }
    forall h | |cs.funs| <= h < |g.funs| && g.funs[h].frameId == g.funs[f].frameId ensures h == f {
      FrameIdsAreDistinct(cs, v, h, f);
    }
    forall h | 0 <= h < |cs'.funs| ensures OldId(cs'.funs[h].frameId, cs'.nextId) {
      forall m: nat | m >= cs'.nextId ensures cs'.funs[h].frameId != FrameId(m) {
        if h < |cs.funs| {
          assert cs'.funs[h] == cs.funs[h] && OldId(cs.funs[h].frameId, cs.nextId);
        } else {
          DifferentIds(cs.nextId + (h - |cs.funs|), m);
        }
      }
    }
  }

  lemma DifferentIds(m: nat, n: nat)
    requires m != n
    ensures FrameId(m) != FrameId(n)
  {
    if FrameId(m) == FrameId(n) { DecimalInjective(m, n); }
  }

  // ------------------------------------------------------- where the compiler fails

  /** Symbol forms with the recursion written out: the reference that replaces a
      parameter is compiled in turn, head first. None: more than `fuel` calls. */
  function SymbolRecursion(fuel: nat, cs: CState, s: Val): Option<Val> {
    if fuel == 0 then None
    else
      match MapLexical(cs.funs, cs.lexicals, s)
      case None => Some(s)
      case Some((f, k)) =>
        match SymbolRecursion(fuel - 1, cs, LEX_REF)
        case None => None
        case Some(head) => Some(Cons(head, LexRef(cs.funs, f, k).cdr))
  }

  /** The recursion ends, with what SymbolForm says, exactly when SymbolForm has
      a code: a parameter in scope beside a parameter named env:lex-ref never
      finishes compiling. */
  lemma SymbolFormIsTheRecursion(cs: CState, s: Val)
    requires s.Sym?
    ensures match SymbolForm(cs, s)
            case Ok(code) => forall fuel: nat | fuel >= 2 :: SymbolRecursion(fuel, cs, s) == Some(code)
            case _ => forall fuel: nat :: SymbolRecursion(fuel, cs, s) == None
  {
    if SymbolForm(cs, s).Ok? {
      forall fuel: nat | fuel >= 2 ensures SymbolRecursion(fuel, cs, s) == Some(SymbolForm(cs, s).code) {}
    } else {
      forall fuel: nat ensures SymbolRecursion(fuel, cs, s) == None {
        NeverEnds(fuel, cs, s);
      }
    }
  }

  lemma {:induction false} NeverEnds(fuel: nat, cs: CState, s: Val)
    requires MapLexical(cs.funs, cs.lexicals, s).Some? && MapLexical(cs.funs, cs.lexicals, LEX_REF).Some?
    ensures SymbolRecursion(fuel, cs, s) == None
    decreases fuel
  {
    if fuel > 0 { NeverEnds(fuel - 1, cs, LEX_REF); }
  }

  /** Compilation failures leak scope. When the body of a lambda with parameters
      fails to compile, the lambda stays among the enclosing ones, and from then
      on each of its parameters resolves lexically at top level. Only a lambda
      that gets no frame id is never among them. */
  lemma FailedBodyLeaksScope(cs: CState, v: Val, x: Val)
    requires v.Cons? && LambdaError(v).None? && Proper(Nth(v, 1)) && v.cdr.Cons?
    requires !FormList(InLambda(cs, Nth(v, 1)), v.cdr.cdr).0.Ok? && x in Elements(Nth(v, 1))
    ensures var cs' := Lambda(cs, v).1;
            if IdFits(cs.nextId) then
              && |cs'.lexicals| > |cs.lexicals| && cs'.lexicals[|cs.lexicals|] == |cs.funs|
              && MapLexical(cs'.funs, cs'.lexicals, x).Some?
            else cs'.lexicals == cs.lexicals
  {
    hide FormList, LambdaError, IdFits, FrameId, MapLexical, Elements, Proper;
    if IdFits(cs.nextId) {
      var lambda := Nth(v, 1);
      var cs0 := InLambda(cs, lambda);
      FormListGrows(cs0, v.cdr.cdr);
      ParametersAreSymbols(v, x);
      var cs' := Lambda(cs, v).1;
      assert cs' == FormList(cs0, v.cdr.cdr).1;
      assert cs'.funs[|cs.funs|] == NewLambda(cs, lambda);
      assert ParamsOf(cs'.funs, |cs.funs|) == Elements(lambda);
      LexicalAddressIsInnermost(cs'.funs, cs'.lexicals, x);
    }
  }

  lemma ParametersAreSymbols(v: Val, x: Val)
    requires LambdaError(v).None? && x in Elements(Nth(v, 1))
    ensures x.Sym?
  {
    ParseLambdaIsExact(Elements(Nth(v, 1)), []);
  }

  /** A compilation that succeeds leaks nothing. */
  lemma SuccessRestoresScope(cs: CState, v: Val)
    requires Form(cs, v).0.Ok?
    ensures Form(cs, v).1.lexicals == cs.lexicals
  {
    FormGrows(cs, v);
  }
}
