// Marking from the roots marks exactly the objects reachable from them.

module Reach {
  import opened Words
  import opened HeapInfo
  import opened Mapped
  import opened Graph

  /** Everything marked since m leads only to marked objects. */
  ghost predicate ClosedSince(h: Heap, m: set<nat>, r: set<nat>)
    requires Parses(h)
  {
    forall i | i in r && i !in m :: Succ(h, i) <= r
  }

  lemma MarkingProgress(h: Heap, m: set<nat>, w: Word)
    requires Sound(h) && Traceable(h, w) && !IsPacked(w) && m <= Nodes(h)
    requires Designates(h, w) && !(Target(h, w) <= m)
    ensures m + Target(h, w) <= Nodes(h)
    ensures |Nodes(h) - (m + Target(h, w))| < |Nodes(h) - m|
    ensures AllTraceable(h, KidsOf(h, w))
    ensures Mark(h, m, w) == MarkAll(h, m + Target(h, w), KidsOf(h, w))
  {
    hide At, Kids, MarkAll, TargetsOf;
    FewerLeft(Nodes(h), m, m + Target(h, w));
    assert At(w) - 1 in Nodes(h) * (m + Target(h, w));
  }

  lemma DesignatedObject(h: Heap, w: Word)
    requires Parses(h) && Designates(h, w) && !IsPacked(w)
    ensures Target(h, w) == Targets(h, w) == {At(w) - 1}
    ensures Succ(h, At(w) - 1) == TargetsOf(h, KidsOf(h, w))
  {
    hide At, Kids, TargetsOf;
  }

  lemma MarkPacked(h: Heap, m: set<nat>, w: Word)
    requires Sound(h) && Traceable(h, w) && m <= Nodes(h) && IsPacked(w)
    ensures !IsPacked(UnpackCar(w)) && !IsPacked(UnpackCdr(w))
    ensures AllTraceable(h, [UnpackCar(w), UnpackCdr(w)])
    ensures Mark(h, m, w) == MarkAll(h, m, [UnpackCar(w), UnpackCdr(w)])
    ensures Targets(h, w) == TargetsOf(h, [UnpackCar(w), UnpackCdr(w)])
  {
    hide UnpackCar, UnpackCdr, MarkAll, Target;
    NoPackedInPacked(w);
    TargetsOfPair(h, UnpackCar(w), UnpackCdr(w));
  }

  lemma MarkNothing(h: Heap, m: set<nat>, w: Word)
    requires Sound(h) && Traceable(h, w) && m <= Nodes(h) && !IsPacked(w)
    requires !(Designates(h, w) && At(w) - 1 !in m)
    ensures Mark(h, m, w) == m && Targets(h, w) <= m
  {
    hide At, Kids, MarkAll;
  }

  /** Marking from a word marks what it designates, and leaves no newly marked
      object with an unmarked successor. */
  lemma {:induction false} MarkCloses(h: Heap, m: set<nat>, w: Word)
    requires Sound(h) && Traceable(h, w) && m <= Nodes(h)
    ensures Targets(h, w) <= Mark(h, m, w)
    ensures ClosedSince(h, m, Mark(h, m, w))
    decreases |Nodes(h) - m|, if IsPacked(w) then 3 else 1, 0
  {
    hide UnpackCar, UnpackCdr, Kids, KidsOf, Traced, Traceable, WellLaidOut, At, Succ, Mark, MarkAll, Target,
         Targets, TargetsOf, Designates, AllTraceable, Nodes;
    if IsPacked(w) {
      MarkPacked(h, m, w);
      MarkAllCloses(h, m, [UnpackCar(w), UnpackCdr(w)]);
    } else if Designates(h, w) && At(w) - 1 !in m {
      DesignatedObject(h, w);
      MarkingProgress(h, m, w);
      MarkAllCloses(h, m + Target(h, w), KidsOf(h, w));
    } else {
      MarkNothing(h, m, w);
    }
  }

  lemma {:induction false} MarkAllCloses(h: Heap, m: set<nat>, ws: seq<Word>)
    requires Sound(h) && AllTraceable(h, ws) && m <= Nodes(h)
    ensures TargetsOf(h, ws) <= MarkAll(h, m, ws)
    ensures ClosedSince(h, m, MarkAll(h, m, ws))
    decreases |Nodes(h) - m|, Rank(ws), |ws|
  {
    hide Succ, Targets, Traceable;
    if ws != [] {
      var m1 := Mark(h, m, ws[0]);
      MarkCloses(h, m, ws[0]);
      FewerLeft(Nodes(h), m, m1);
      MarkAllCloses(h, m1, ws[1..]);
    }
  }

  lemma TargetsOfPair(h: Heap, a: Word, b: Word)
    requires Parses(h)
    ensures TargetsOf(h, [a, b]) == Targets(h, a) + Targets(h, b)
  {
    hide Targets;
    assert [a, b][1..] == [b];
    assert TargetsOf(h, [b]) == Targets(h, b) + TargetsOf(h, []);
  }

  /** Only objects reachable from the word are marked. */
  lemma {:induction false} MarkIsSound(h: Heap, m: set<nat>, w: Word, i: nat)
    requires Sound(h) && Traceable(h, w) && m <= Nodes(h)
    requires i in Mark(h, m, w) && i !in m
    ensures Reachable(h, [w], i)
    decreases |Nodes(h) - m|, if IsPacked(w) then 3 else 1, 0
  {
    hide UnpackCar, UnpackCdr, Kids, KidsOf, Traced, Traceable, At, Succ, WellLaidOut, Reachable, Mark,
         MarkAll, Target, Targets, TargetsOf, Designates, AllTraceable, Nodes;
    if IsPacked(w) {
      MarkPacked(h, m, w);
      MarkAllIsSound(h, m, [UnpackCar(w), UnpackCdr(w)], i);
      PackedRoots(h, w);
      MoreRoots(h, [UnpackCar(w), UnpackCdr(w)], [w], i);
    } else if Designates(h, w) && At(w) - 1 !in m {
      DesignatedObject(h, w);
      MarkingProgress(h, m, w);
      if i == At(w) - 1 {
        OnePath(h, w, i);
      } else {
        MarkAllIsSound(h, m + Target(h, w), KidsOf(h, w), i);
        ThroughObject(h, w, At(w) - 1, i);
      }
    } else {
      MarkNothing(h, m, w);
    }
  }

  lemma {:induction false} MarkAllIsSound(h: Heap, m: set<nat>, ws: seq<Word>, i: nat)
    requires Sound(h) && AllTraceable(h, ws) && m <= Nodes(h)
    requires i in MarkAll(h, m, ws) && i !in m
    ensures Reachable(h, ws, i)
    decreases |Nodes(h) - m|, Rank(ws), |ws|
  {
    hide Targets, Traceable, Path;
    var m1 := Mark(h, m, ws[0]);
    FewerLeft(Nodes(h), m, m1);
    if i in m1 {
      MarkIsSound(h, m, ws[0], i);
      MoreRoots(h, [ws[0]], ws, i);
    } else {
      MarkAllIsSound(h, m1, ws[1..], i);
      MoreRoots(h, ws[1..], ws, i);
    }
  }

  lemma PackedRoots(h: Heap, w: Word)
    requires Parses(h) && IsPacked(w)
    ensures TargetsOf(h, [UnpackCar(w), UnpackCdr(w)]) == TargetsOf(h, [w])
  {
    hide UnpackCar, UnpackCdr, Target;
    assert !IsPacked(UnpackCar(w)) && !IsPacked(UnpackCdr(w)) by { NoPackedInPacked(w); }
    TargetsOfPair(h, UnpackCar(w), UnpackCdr(w));
    assert TargetsOf(h, [w]) == Targets(h, w) + TargetsOf(h, []);
  }

  lemma OnePath(h: Heap, w: Word, a: nat)
    requires Parses(h) && a in Targets(h, w)
    ensures Reachable(h, [w], a)
  {
    hide Targets;
    assert TargetsOf(h, [w]) == Targets(h, w) + TargetsOf(h, []);
    assert PathFrom(h, [w], [a], a);
  }

  lemma MoreRoots(h: Heap, roots: seq<Word>, roots': seq<Word>, i: nat)
    requires Parses(h) && Reachable(h, roots, i)
    requires TargetsOf(h, roots) <= TargetsOf(h, roots')
    ensures Reachable(h, roots', i)
  {
    hide TargetsOf, Path;
    var p :| PathFrom(h, roots, p, i);
    assert PathFrom(h, roots', p, i);
  }

  lemma ThroughObject(h: Heap, w: Word, a: nat, i: nat)
    requires Parses(h) && a in Targets(h, w)
    requires Succ(h, a) == TargetsOf(h, KidsOf(h, w))
    requires Reachable(h, KidsOf(h, w), i)
    ensures Reachable(h, [w], i)
  {
    hide KidsOf, Targets, Succ;
    var p :| PathFrom(h, KidsOf(h, w), p, i);
    var q := [a] + p;
    assert forall k | 0 <= k < |q| - 1 :: q[k + 1] in Succ(h, q[k]) by {
      forall k | 0 <= k < |q| - 1 ensures q[k + 1] in Succ(h, q[k]) {
        if k > 0 { assert q[k] == p[k - 1] && q[k + 1] == p[k]; }
      }
    }
    assert TargetsOf(h, [w]) == Targets(h, w) + TargetsOf(h, []);
    assert PathFrom(h, [w], q, i);
  }

  /** A closed set holding what the roots designate holds every path from them. */
  lemma {:induction false} ClosedHoldsPaths(h: Heap, r: set<nat>, p: seq<nat>, k: nat)
    requires Parses(h) && Path(h, p) && p[0] in r && ClosedSince(h, {}, r)
    requires k < |p|
    ensures p[k] in r
  {
    if k > 0 {
      ClosedHoldsPaths(h, r, p, k - 1);
    }
  }

  /** Starting from no marks, marking from the roots marks exactly the objects
      reachable from them. */
  lemma MarkingIsReachability(h: Heap, roots: seq<Word>, i: nat)
    requires Sound(h) && AllTraceable(h, roots)
    ensures i in MarkAll(h, {}, roots) <==> Reachable(h, roots, i)
  {
    hide Succ, Targets, TargetsOf;
    var r := MarkAll(h, {}, roots);
    if i in r {
      MarkAllIsSound(h, {}, roots, i);
    }
    if Reachable(h, roots, i) {
      var p :| PathFrom(h, roots, p, i);
      MarkAllCloses(h, {}, roots);
      ClosedHoldsPaths(h, r, p, |p| - 1);
    }
  }

  /** The free lists after a collection. */
  ghost predicate Collected(g: Heap, roots: seq<Word>, h: Heap)
    requires Parses(g) && Parses(h)
  {
    forall c: Class, k: nat {:trigger k in FreeList(h, c)} :: k in FreeList(h, c) <==>
      IsHeader(g, k) && SysClass(g.mem[k]) == c && !Reachable(g, roots, k)
  }
}
