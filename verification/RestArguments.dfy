// Calls of functions with a rest parameter (src/core/eval.l, core:funcall), over
// the list functions of src/core/lists.l and src/core/sequences.l.

module RestArguments {
  import opened Lisp
  import opened Evaluator

  /** core:foldl on a list. */
  function FoldL(f: (Val, Val) -> Val, acc: Val, list: Val): Val
    decreases list
  {
    if list.Cons? then FoldL(f, f(list.car, acc), list.cdr) else acc
  }

  /** core:foldr on a list. */
  function FoldR(f: (Val, Val) -> Val, init: Val, list: Val): Val
    decreases list
  {
    if list.Cons? then f(list.car, FoldR(f, init, list.cdr)) else init
  }

  /** core::append */
  function Append(list1: Val, list2: Val): Val {
    FoldR((el, acc) => Cons(el, acc), list2, list1)
  }

  /** The step of core:dropr's inner fold: keep elements while there are fewer
      than a limit. */
  function KeepBelow(limit: int): (Val, Val) -> Val {
    (el, last) => if |Elements(last)| < limit then Cons(el, last) else last
  }

  /** core:dropr: the list without its last n elements. */
  function DropR(list: Val, n: int): Val {
    FoldL((el, acc) => Cons(el, acc), NIL, FoldL(KeepBelow(|Elements(list)| - n), NIL, list))
  }

  /** core:dropl, that is mu:nthcdr on a proper list. */
  function DropL(list: Val, n: nat): Val {
    if n == 0 || !list.Cons? then list else DropL(list.cdr, n - 1)
  }

  /** The argument list core:funcall makes for a function with nreqs required
      parameters and a rest parameter. */
  function RestCall(args: Val, nreqs: nat): Val {
    Append(DropR(args, |Elements(args)| - nreqs), Cons(DropL(args, nreqs), NIL))
  }

  function Reversed(vs: seq<Val>): (r: seq<Val>)
    ensures |r| == |vs| && forall k | 0 <= k < |vs| :: r[k] == vs[|vs| - 1 - k]
  {
    if vs == [] then [] else Reversed(vs[1..]) + [vs[0]]
  }

  lemma {:induction false} FoldLConses(vs: seq<Val>, acc: seq<Val>)
    ensures FoldL((el, a) => Cons(el, a), ListOf(acc), ListOf(vs)) == ListOf(Reversed(vs) + acc)
    decreases |vs|
  {
    if vs == [] {
      assert Reversed(vs) + acc == acc;
    } else {
      assert ([vs[0]] + acc)[1..] == acc;
      assert ListOf([vs[0]] + acc) == Cons(vs[0], ListOf(acc));
      FoldLConses(vs[1..], [vs[0]] + acc);
      assert Reversed(vs[1..]) + ([vs[0]] + acc) == Reversed(vs) + acc;
    }
  }

  /** Once full, the inner fold keeps nothing more. */
  lemma {:induction false} FoldLFull(vs: seq<Val>, kept: seq<Val>)
    ensures FoldL(KeepBelow(|kept|), ListOf(kept), ListOf(vs)) == ListOf(kept)
    decreases |vs|
  {
    ElementsOfList(kept);
    if vs != [] {
      assert KeepBelow(|kept|)(vs[0], ListOf(kept)) == ListOf(kept);
      FoldLFull(vs[1..], kept);
    }
  }

  lemma ReversedSplits(vs: seq<Val>, n: nat, kept: seq<Val>)
    requires 0 < n <= |vs|
    ensures Reversed(vs[1..][..n - 1]) + ([vs[0]] + kept) == Reversed(vs[..n]) + kept
  {
    assert vs[..n][1..] == vs[1..][..n - 1];
  }

  /** The inner fold keeps the first `limit` elements, last first. */
  lemma {:induction false} FoldLKeeps(vs: seq<Val>, kept: seq<Val>, limit: nat)
    requires |kept| <= limit
    ensures var n := if |vs| <= limit - |kept| then |vs| else limit - |kept|;
            FoldL(KeepBelow(limit), ListOf(kept), ListOf(vs)) == ListOf(Reversed(vs[..n]) + kept)
    decreases |vs|
  {
    hide Reversed;
    var n := if |vs| <= limit - |kept| then |vs| else limit - |kept|;
    ElementsOfList(kept);
    if n == 0 {
      assert vs[..n] == [] && Reversed([]) + kept == kept;
      if |kept| == limit { FoldLFull(vs, kept); }
    } else {
      var kept' := [vs[0]] + kept;
      assert kept'[1..] == kept;
      assert KeepBelow(limit)(vs[0], ListOf(kept)) == ListOf(kept');
      FoldLKeeps(vs[1..], kept', limit);
      ReversedSplits(vs, n, kept);
    }
  }

  lemma {:induction false} FoldRAppends(vs: seq<Val>, ws: seq<Val>)
    ensures Append(ListOf(vs), ListOf(ws)) == ListOf(vs + ws)
    decreases |vs|
  {
    if vs == [] {
      assert vs + ws == ws;
    } else {
      FoldRAppends(vs[1..], ws);
      assert (vs + ws)[1..] == vs[1..] + ws;
    }
  }

  lemma {:induction false} DropLDrops(vs: seq<Val>, n: nat)
    ensures DropL(ListOf(vs), n) == ListOf(if n <= |vs| then vs[n..] else [])
    decreases n
  {
    if n > 0 && vs != [] {
      DropLDrops(vs[1..], n - 1);
      if n <= |vs| { assert vs[1..][n - 1..] == vs[n..]; }
    }
  }

  lemma DropRDrops(vs: seq<Val>, keep: nat)
    ensures DropR(ListOf(vs), |vs| - keep) == ListOf(if keep <= |vs| then vs[..keep] else vs)
  {
    hide FoldL, KeepBelow, Reversed, ListOf, Elements;
    ElementsOfList(vs);
    FoldLKeeps(vs, [], keep);
    var kept := if keep <= |vs| then vs[..keep] else vs;
    assert vs[..|vs|] == vs && ListOf([]) == NIL by { EmptyList(vs); }
    assert Reversed(kept) + [] == Reversed(kept);
    FoldLConses(Reversed(kept), []);
    assert Reversed(Reversed(kept)) + [] == kept;
  }

  lemma EmptyList(vs: seq<Val>)
    ensures vs[..|vs|] == vs && ListOf([]) == NIL
  {
  }

  /** With enough arguments the required ones are passed as they are and the
      others as one list; with too few the call is made with one argument more
      than was given, which cannot match the parameters. */
  lemma RestCallSplits(vs: seq<Val>, nreqs: nat)
    ensures RestCall(ListOf(vs), nreqs) ==
            ListOf(if nreqs <= |vs| then vs[..nreqs] + [ListOf(vs[nreqs..])] else vs + [NIL])
  {
    ElementsOfList(vs);
    DropRDrops(vs, nreqs);
    DropLDrops(vs, nreqs);
    var kept := if nreqs <= |vs| then vs[..nreqs] else vs;
    var rest := DropL(ListOf(vs), nreqs);
    assert [rest][1..] == [] && ListOf([rest]) == Cons(rest, NIL);
    FoldRAppends(kept, [rest]);
  }

  /** So a clone of arity nreqs + 1 raises the arity error exactly when fewer
      than nreqs arguments are given. */
  lemma RestCallArity(n: nat, g: Globals, c: Context, f: nat, vs: seq<Val>, nreqs: nat)
    requires f < |g.funs| && g.funs[f].arity == nreqs + 1
    ensures var args := Elements(RestCall(ListOf(vs), nreqs));
            && (|args| == g.funs[f].arity <==> nreqs <= |vs|)
            && (|vs| < nreqs ==> Funcall(n, g, c, f, args) == (ArityError(g.funs[f], vs + [NIL]), c))
  {
    RestCallSplits(vs, nreqs);
    ElementsOfList(if nreqs <= |vs| then vs[..nreqs] + [ListOf(vs[nreqs..])] else vs + [NIL]);
  }
}
