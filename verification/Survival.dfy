// What a program can read survives collections: everything the accessors of
// type/*.h reach from a root reads the same after a collection, and after any
// later run of allocations and collections. Stated by the accessors alone.

module Survival {
  import opened Options
  import opened Words
  import opened HeapInfo
  import opened Walk
  import opened Mapped
  import opened Graph
  import opened Reach
  import opened Conses
  import opened Soundness

  /** The accessors whose words the collector is to keep alive: of conses, symbols,
      functions, exceptions and namespaces, and an element of a :t vector. */
  datatype Field =
    | FirstOf | RestOf
    | NameOf | ValueOf
    | FormOf | ExtensionOf
    | SourceOf | ReasonOf
    | TitleOf | ImportOf | ExternsOf | InternsOf
    | ElementOf(index: nat)

  function ClassWith(f: Field): Class {
    match f
    case FirstOf => CONS case RestOf => CONS
    case NameOf => SYMBOL case ValueOf => SYMBOL
    case FormOf => FUNCTION case ExtensionOf => FUNCTION
    case SourceOf => EXCEPTION case ReasonOf => EXCEPTION
    case TitleOf => NAMESPACE case ImportOf => NAMESPACE
    case ExternsOf => NAMESPACE case InternsOf => NAMESPACE
    case ElementOf(_) => VECTOR
  }

  /** Position of the field in its struct, in words. */
  function Offset(f: Field): nat {
    match f
    case FirstOf => 0 case RestOf => 1
    case NameOf => 1 case ValueOf => 2
    case FormOf => 1 case ExtensionOf => 3
    case SourceOf => 2 case ReasonOf => 4
    case TitleOf => 0 case ImportOf => 1 case ExternsOf => 2 case InternsOf => 3
    case ElementOf(_) => 0
  }

  /** w is the tag of an object of class c. */
  ghost predicate IsObject(h: Heap, w: Word, c: Class)
    requires Parses(h)
  {
    IsIndirect(w) && !IsPacked(w) && At(w) >= 1 && WellLaidOut(h, At(w) - 1) && SysClass(h.mem[At(w) - 1]) == c
  }

  /** The word an accessor reads, if it applies. */
  ghost function Read(h: Heap, w: Word, f: Field): Option<Word>
    requires Parses(h)
  {
    if IsPacked(w) then
      if f.FirstOf? then Some(UnpackCar(w)) else if f.RestOf? then Some(UnpackCdr(w)) else None
    else if !IsObject(h, w, ClassWith(f)) then None
    else
      match f
      case ElementOf(i) =>
        if h.mem[At(w)] == KEY_T && i < VectorLength(h, At(w) - 1)
        then Some(h.mem[DataAt(h, At(w) - 1) + i]) else None
      case _ => Some(h.mem[At(w) + Offset(f)])
  }

  /** What a chain of accessors reads from w. */
  ghost function Follow(h: Heap, w: Word, fs: seq<Field>): Option<Word>
    requires Parses(h)
  {
    if fs == [] then Some(w)
    else
      match Follow(h, w, fs[..|fs| - 1])
      case None => None
      case Some(x) => Read(h, x, fs[|fs| - 1])
  }

  // ----------------------------------------------------------------- held words

  /** Every object the word leads to is reachable from the roots. */
  ghost predicate Held(h: Heap, roots: seq<Word>, w: Word)
    requires Parses(h)
  {
    forall i | i in Targets(h, w) :: Reachable(h, roots, i)
  }

  lemma {:induction false} TargetsOfMember(h: Heap, ws: seq<Word>, w: Word)
    requires Parses(h) && w in ws
    ensures Targets(h, w) <= TargetsOf(h, ws)
  {
    hide Targets;
    if w != ws[0] { TargetsOfMember(h, ws[1..], w); }
  }

  lemma RootsAreHeld(h: Heap, roots: seq<Word>, w: Word)
    requires Parses(h) && w in roots
    ensures Held(h, roots, w)
  {
    hide Targets, TargetsOf;
    TargetsOfMember(h, roots, w);
    forall i | i in Targets(h, w) ensures Reachable(h, roots, i) {
      assert PathFrom(h, roots, [i], i);
    }
  }

  /** A word that designates a reachable object is held. */
  lemma ReachableIsHeld(h: Heap, roots: seq<Word>, w: Word)
    requires Parses(h) && !IsPacked(w) && At(w) >= 1 && Reachable(h, roots, At(w) - 1)
    ensures Held(h, roots, w)
  {
    hide Reachable, At;
  }

  /** What is followed from a reachable object is held. */
  lemma KidsAreHeld(h: Heap, roots: seq<Word>, i: nat, x: Word)
    requires Parses(h) && WellLaidOut(h, i) && Reachable(h, roots, i) && x in Kids(h, i)
    ensures Held(h, roots, x)
  {
    hide Targets, TargetsOf, WellLaidOut, Kids;
    TargetsOfMember(h, Kids(h, i), x);
    var p :| PathFrom(h, roots, p, i);
    forall j | j in Targets(h, x) ensures Reachable(h, roots, j) {
      var q := p + [j];
      assert j in Succ(h, i);
      assert forall k | 0 <= k < |q| - 1 :: q[k + 1] in Succ(h, q[k]) by {
        forall k | 0 <= k < |q| - 1 ensures q[k + 1] in Succ(h, q[k]) {
          if k < |p| - 1 { assert p[k + 1] in Succ(h, p[k]) && q[k] == p[k] && q[k + 1] == p[k + 1]; }
        }
      }
      assert PathFrom(h, roots, q, j);
    }
  }

  /** What an accessor reads from an object is among the words followed from it. */
  lemma ReadIsFollowed(h: Heap, w: Word, f: Field)
    requires Parses(h) && !IsPacked(w) && Read(h, w, f).Some?
    ensures Designates(h, w) && At(w) >= 1 && WellLaidOut(h, At(w) - 1)
    ensures Read(h, w, f).value in Kids(h, At(w) - 1)
  {
    hide At, SizeOf, SysClass, NatOf, Neg, FixValue, Clear, IsPacked, IsIndirect;
    var i := At(w) - 1;
    var ks := Kids(h, i);
    match f
    case ElementOf(j) =>
      assert ks[j] == h.mem[DataAt(h, i) + j];
    case FirstOf => assert ks[0] == Read(h, w, f).value;
    case RestOf => assert ks[1] == Read(h, w, f).value;
    case NameOf => assert ks[0] == Read(h, w, f).value;
    case ValueOf => assert ks[1] == Read(h, w, f).value;
    case FormOf => assert ks[0] == Read(h, w, f).value;
    case ExtensionOf => assert ks[1] == Read(h, w, f).value;
    case SourceOf => assert ks[0] == Read(h, w, f).value;
    case ReasonOf => assert ks[1] == Read(h, w, f).value;
    case TitleOf => assert ks[0] == Read(h, w, f).value;
    case ImportOf => assert ks[1] == Read(h, w, f).value;
    case ExternsOf => assert ks[2] == Read(h, w, f).value;
    case InternsOf => assert ks[3] == Read(h, w, f).value;
  }

  /** What an accessor reads from a held word is held. */
  lemma ReadIsHeld(h: Heap, roots: seq<Word>, w: Word, f: Field)
    requires Parses(h) && Held(h, roots, w) && Read(h, w, f).Some?
    ensures Held(h, roots, Read(h, w, f).value)
  {
    hide Reachable, At, UnpackCar, UnpackCdr, IsIndirect, WellLaidOut, Traced, Kids;
    if IsPacked(w) {
      NoPackedInPacked(w);
      assert !IsPacked(UnpackCar(w)) && !IsPacked(UnpackCdr(w));
    } else {
      ReadIsFollowed(h, w, f);
      assert At(w) - 1 in Targets(h, w);
      KidsAreHeld(h, roots, At(w) - 1, Read(h, w, f).value);
    }
  }

  /** w is not the tag of a cell that waits for reuse. */
  ghost predicate NotFree(h: Heap, w: Word) {
    IsIndirect(w) && At(w) >= 1 ==> At(w) - 1 !in FreeList(h, CONS)
  }

  lemma CellIsDesignated(h: Heap, w: Word)
    requires Valid(h) && !IsPacked(w) && IsIndirect(w) && At(w) >= 1
    requires IsHeader(h, At(w) - 1) && SysClass(h.mem[At(w) - 1]) == CONS
    ensures At(w) - 1 in Targets(h, w)
  {
    hide At, SizeOf, Count, FreeOk, Headers;
    CellRoom(h, At(w));
  }

  /** Right after a collection nothing held is waiting for reuse. */
  lemma HeldIsNotFree(g: Heap, roots: seq<Word>, h: Heap, w: Word)
    requires Valid(g) && Parses(h) && Collected(g, roots, h) && Held(g, roots, w) && !IsPacked(w)
    ensures NotFree(h, w)
  {
    hide At, SizeOf, Valid, Reachable, FreeList, Headers, IsIndirect, Targets;
    ValidParses(g);
    if IsIndirect(w) && At(w) >= 1 && IsHeader(g, At(w) - 1) && SysClass(g.mem[At(w) - 1]) == CONS {
      CellIsDesignated(g, w);
    }
  }

  // --------------------------------------------------- what allocation leaves alone

  /** A payload word of a cell that waits for reuse. */
  ghost predicate InFreeCell(h: Heap, p: nat) {
    (p >= 1 && p - 1 in FreeList(h, CONS)) || (p >= 2 && p - 2 in FreeList(h, CONS))
  }

  /** From h to h' objects were added and free cells reused, and that is all. */
  ghost predicate Stays(h: Heap, h': Heap) {
    && Valid(h) && Valid(h') && |h'.mem| == |h.mem| && h.barrier <= h'.barrier
    && (forall k: nat | k < h.barrier :: k in Hs(h') <==> k in Hs(h))
    && (forall k | k in FreeList(h', CONS) :: k in FreeList(h, CONS))
    && (forall p: nat | p < h.barrier && p < |h.mem| :: InFreeCell(h, p) || h'.mem[p] == h.mem[p])
  }

  lemma StaysSame(h: Heap)
    requires Valid(h)
    ensures Stays(h, h)
  {
  }

  lemma StaysThen(h: Heap, h': Heap, h'': Heap)
    requires Stays(h, h') && Stays(h', h'')
    ensures Stays(h, h'')
  {
    hide Valid, Hs;
  }

  /** A header is never inside a free cell, and the payload of an object is only if
      the object is that cell. */
  lemma OutsideFreeCells(h: Heap, i: nat, p: nat)
    requires Valid(h) && IsHeader(h, i) && i <= p < i + SizeOf(h.mem[i])
    requires i !in FreeList(h, CONS)
    ensures !InFreeCell(h, p)
  {
    hide SizeOf, SysClass, RefBits, Count;
    forall k | k in FreeList(h, CONS) ensures p != k + 1 && p != k + 2 {
      assert IsHeader(h, k) && SysClass(h.mem[k]) == CONS;
      assert SizeOf(h.mem[k]) == 3;
      if p == k + 1 || p == k + 2 {
        if p == i { NoHeaderInside(h.mem, 0, h.barrier, k, p); } else { ObjectsApart(h, i, k, p); }
      }
    }
  }

  lemma ClearOutsideFreeCells(h: Heap, p: nat)
    requires Valid(h) && Clear(h, p)
    ensures !InFreeCell(h, p)
  {
    hide SizeOf, SysClass, RefBits, Count, Headers;
    forall k | k in FreeList(h, CONS) ensures IsCell(h, k) { assert IsHeader(h, k); }
  }

  lemma FreeCellsAreConses(h: Heap, k: nat)
    requires Valid(h) && k in FreeList(h, CONS)
    ensures IsHeader(h, k) && SysClass(h.mem[k]) == CONS
  {
  }

  lemma StaysParses(h: Heap, h': Heap)
    requires Stays(h, h')
    ensures Valid(h) && Valid(h') && Parses(h) && Parses(h') && |h'.mem| == |h.mem| && h.barrier <= |h.mem|
  {
  }

  /** The header and the payload of an object that is not free stay. */
  lemma ObjectStays(h: Heap, h': Heap, i: nat, p: nat)
    requires Stays(h, h') && Parses(h) && Parses(h') && IsHeader(h, i) && i !in FreeList(h, CONS)
    requires i <= p < i + SizeOf(h.mem[i])
    ensures p < |h.mem| == |h'.mem| && h'.mem[p] == h.mem[p] && IsHeader(h', i)
  {
    hide SizeOf, SysClass, Valid, Headers, Chain, InFreeCell;
    StaysParses(h, h');
    HeadersInRange(h.mem, 0, h.barrier, i);
    OutsideFreeCells(h, i, p);
  }

  /** Cells of h' below h's barrier are cells of h, since free cells stay cells. */
  lemma ClearStaysClear(h: Heap, h': Heap, p: nat)
    requires Stays(h, h') && Parses(h) && Parses(h') && p < h.barrier && Clear(h, p)
    ensures Clear(h', p)
  {
    hide SizeOf, SysClass, Valid, Headers, Chain;
    StaysParses(h, h');
    forall k: nat | k < h.barrier && IsCell(h', k) ensures IsCell(h, k) { HeaderWordStays(h, h', k); }
  }

  lemma HeaderWordStays(h: Heap, h': Heap, k: nat)
    requires Stays(h, h') && Parses(h) && Parses(h') && k < h.barrier && IsHeader(h', k)
    ensures IsHeader(h, k) && h'.mem[k] == h.mem[k]
  {
    hide SizeOf, SysClass, Headers, Chain, Count;
    if InFreeCell(h, k) {
      var j: nat :| j in FreeList(h, CONS) && (k == j + 1 || k == j + 2);
      FreeCellsAreConses(h, j);
      assert SizeOf(h.mem[j]) == 3;
      NoHeaderInside(h.mem, 0, h.barrier, j, k);
    }
  }

  lemma LaidOutStill(h: Heap, h': Heap, i: nat)
    requires Stays(h, h') && Parses(h) && Parses(h') && WellLaidOut(h, i) && i !in FreeList(h, CONS)
    ensures WellLaidOut(h', i) && h'.mem[i] == h.mem[i]
    ensures forall p: nat | i <= p <= i + LayoutWords(SysClass(h.mem[i])) :: p < |h.mem| == |h'.mem| && h'.mem[p] == h.mem[p]
  {
    hide SizeOf, SysClass, Stays, Headers, Chain, NatOf, Neg, FixValue, Clear;
    forall p: nat | i <= p <= i + LayoutWords(SysClass(h.mem[i]))
      ensures p < |h.mem| == |h'.mem| && h'.mem[p] == h.mem[p]
    {
      ObjectStays(h, h', i, p);
    }
    ObjectStays(h, h', i, i);
    assert |h'.mem| == |h.mem| && h.barrier <= h'.barrier by { BarrierStays(h, h'); }
    if SysClass(h.mem[i]) == VECTOR {
      assert h'.mem[i + 1] == h.mem[i + 1] && h'.mem[i + 2] == h.mem[i + 2] && h'.mem[i + 3] == h.mem[i + 3];
      if h.mem[i + 1] == KEY_T {
        assert DataAt(h', i) == DataAt(h, i) && VectorLength(h', i) == VectorLength(h, i);
        forall p: nat | DataAt(h, i) <= p < DataAt(h, i) + VectorLength(h, i) ensures Clear(h', p) {
          assert Clear(h, p);
          ClearStaysClear(h, h', p);
        }
      }
    }
  }

  lemma BarrierStays(h: Heap, h': Heap)
    requires Stays(h, h')
    ensures |h'.mem| == |h.mem| && h.barrier <= h'.barrier
  {
  }

  /** Accessors go on reading the same from what is not free. */
  lemma ReadStays(h: Heap, h': Heap, w: Word, f: Field)
    requires Stays(h, h') && Parses(h) && Parses(h') && Read(h, w, f).Some?
    requires !IsPacked(w) ==> NotFree(h, w)
    ensures Read(h', w, f) == Read(h, w, f)
  {
    hide At, SizeOf, SysClass, Stays, Headers, Chain, NatOf, Neg, FixValue, Clear, WellLaidOut, IsPacked, IsIndirect,
         UnpackCar, UnpackCdr, FreeList;
    if !IsPacked(w) {
      var i := At(w) - 1;
      LaidOutStill(h, h', i);
      FieldInLayout(f);
      match f
      case ElementOf(j) => ElementStays(h, h', i, j);
      case _ => assert h'.mem[i + 1 + Offset(f)] == h.mem[i + 1 + Offset(f)];
    }
  }

  lemma FieldInLayout(f: Field)
    ensures 1 + Offset(f) <= LayoutWords(ClassWith(f))
  {
  }

  lemma ElementStays(h: Heap, h': Heap, i: nat, j: nat)
    requires Stays(h, h') && Parses(h) && Parses(h') && WellLaidOut(h, i) && SysClass(h.mem[i]) == VECTOR
    requires h.mem[i + 1] == KEY_T && i !in FreeList(h, CONS) && j < VectorLength(h, i)
    ensures i + 3 < |h'.mem| && h'.mem[i + 1] == KEY_T
    ensures DataAt(h', i) == DataAt(h, i) && VectorLength(h', i) == VectorLength(h, i)
    ensures DataAt(h, i) + j < |h.mem| == |h'.mem| && h'.mem[DataAt(h, i) + j] == h.mem[DataAt(h, i) + j]
  {
    hide SizeOf, SysClass, Valid, Headers, Chain, NatOf, Neg, FixValue, Clear, InFreeCell;
    LaidOutStill(h, h', i);
    StaysParses(h, h');
    assert h'.mem[i + 1] == h.mem[i + 1] && h'.mem[i + 2] == h.mem[i + 2] && h'.mem[i + 3] == h.mem[i + 3];
    var p := DataAt(h, i) + j;
    assert Clear(h, p);
    ClearOutsideFreeCells(h, p);
  }

  // ------------------------------------------------------------- one collection

  /** Marks and free lists do not show. */
  lemma ReadThroughMarks(g: Heap, h: Heap, w: Word, f: Field)
    requires Parses(g) && SameButMarks(g, h) && Parses(h) && Read(g, w, f).Some?
    ensures Read(h, w, f) == Read(g, w, f)
  {
    hide At, SizeOf, SysClass, Headers, Chain, NatOf, Neg, FixValue, Clear, WellLaidOut, IsPacked, IsIndirect,
         UnpackCar, UnpackCdr, SameButMarks, Hs;
    if !IsPacked(w) {
      var i := At(w) - 1;
      LaidOutThroughMarks(g, h, i);
      FieldInLayout(f);
      match f
      case ElementOf(j) => ElementThroughMarks(g, h, i, j);
      case _ => assert h.mem[i + 1 + Offset(f)] == g.mem[i + 1 + Offset(f)];
    }
  }

  lemma LaidOutThroughMarks(g: Heap, h: Heap, i: nat)
    requires Parses(g) && SameButMarks(g, h) && Parses(h) && WellLaidOut(g, i)
    ensures WellLaidOut(h, i) && SysClass(h.mem[i]) == SysClass(g.mem[i])
    ensures forall p: nat | i < p <= i + LayoutWords(SysClass(g.mem[i])) ::
              p < |g.mem| == |h.mem| && h.mem[p] == g.mem[p]
  {
    hide SizeOf, SysClass, Headers, Chain, NatOf, Neg, FixValue, Clear, KeepsObjects;
    SameButMarksWalk(g, h);
    MarksKeepObjects(g, h);
    LaidOutIsHeader(g, i);
    HeaderStays(g, h, i);
    LaidOutStays(g, h, i);
    LayoutBelow(g, i);
    forall p: nat | i < p <= i + LayoutWords(SysClass(g.mem[i]))
      ensures p < |g.mem| == |h.mem| && h.mem[p] == g.mem[p]
    {
      assert Below(g, p);
    }
  }

  lemma ElementThroughMarks(g: Heap, h: Heap, i: nat, j: nat)
    requires Parses(g) && SameButMarks(g, h) && Parses(h) && WellLaidOut(g, i) && SysClass(g.mem[i]) == VECTOR
    requires g.mem[i + 1] == KEY_T && j < VectorLength(g, i)
    ensures i + 3 < |h.mem| && h.mem[i + 1] == KEY_T
    ensures DataAt(h, i) == DataAt(g, i) && VectorLength(h, i) == VectorLength(g, i)
    ensures DataAt(g, i) + j < |g.mem| == |h.mem| && h.mem[DataAt(g, i) + j] == g.mem[DataAt(g, i) + j]
  {
    hide SizeOf, SysClass, Headers, Chain, NatOf, Neg, FixValue, IsCell;
    LaidOutThroughMarks(g, h, i);
    BarrierFits(g);
    assert h.mem[i + 1] == g.mem[i + 1] && h.mem[i + 2] == g.mem[i + 2] && h.mem[i + 3] == g.mem[i + 3];
    assert Clear(g, DataAt(g, i) + j);
  }

  /** Reading from a held word, before a collection and at any time until the
      next: the same word, held. */
  lemma ReadSurvives(g: Heap, roots: seq<Word>, h: Heap, h': Heap, w: Word, f: Field)
    requires Valid(g) && SameButMarks(g, h) && Valid(h) && Collected(g, roots, h) && Stays(h, h')
    requires Held(g, roots, w) && Read(g, w, f).Some?
    ensures Parses(h') && Read(h', w, f) == Read(g, w, f) && Held(g, roots, Read(g, w, f).value)
  {
    hide Valid, SameButMarks, Collected, Stays, Held, Read, NotFree, IsPacked;
    StaysParses(h, h');
    ValidParses(g);
    ReadThroughMarks(g, h, w, f);
    if !IsPacked(w) { HeldIsNotFree(g, roots, h, w); }
    ReadStays(h, h', w, f);
    ReadIsHeld(g, roots, w, f);
  }

  /** Everything the accessors read from a held word reads the same after a
      collection and any later allocation, and none of it waits for reuse. */
  lemma {:induction false} FollowSurvives(g: Heap, roots: seq<Word>, h: Heap, h': Heap, w: Word, fs: seq<Field>)
    requires Valid(g) && SameButMarks(g, h) && Valid(h) && Collected(g, roots, h) && Stays(h, h')
    requires Held(g, roots, w) && Follow(g, w, fs).Some?
    ensures Parses(h') && Follow(h', w, fs) == Follow(g, w, fs)
    ensures Held(g, roots, Follow(g, w, fs).value)
    ensures !IsPacked(Follow(g, w, fs).value) ==> NotFree(h', Follow(g, w, fs).value)
    decreases |fs|
  {
    hide Valid, SameButMarks, Collected, Stays, Held, Read, NotFree, IsPacked;
    StaysParses(h, h');
    ValidParses(g);
    if fs != [] {
      var x := Follow(g, w, fs[..|fs| - 1]).value;
      FollowSurvives(g, roots, h, h', w, fs[..|fs| - 1]);
      ReadSurvives(g, roots, h, h', x, fs[|fs| - 1]);
    }
    var x := Follow(g, w, fs).value;
    if !IsPacked(x) {
      HeldIsNotFree(g, roots, h, x);
      StillNotFree(h, h', x);
    }
  }

  lemma StillNotFree(h: Heap, h': Heap, w: Word)
    requires Stays(h, h') && NotFree(h, w)
    ensures NotFree(h', w)
  {
    hide Valid, FreeList, At;
  }

  /** What a collection promises of the roots, by the accessors alone. */
  ghost predicate KeepsHeld(g: Heap, roots: seq<Word>, h: Heap)
    requires Parses(g) && Parses(h)
  {
    forall w, fs | w in roots && Follow(g, w, fs).Some? ::
      Follow(h, w, fs) == Follow(g, w, fs) &&
      (!IsPacked(Follow(g, w, fs).value) ==> NotFree(h, Follow(g, w, fs).value))
  }

  lemma CollectionKeepsHeld(g: Heap, roots: seq<Word>, h: Heap)
    requires Valid(g) && SameButMarks(g, h) && Valid(h) && Collected(g, roots, h)
    ensures KeepsHeld(g, roots, h)
  {
    hide Valid, SameButMarks, Collected, Stays, Held, Follow, NotFree, IsPacked;
    StaysSame(h);
    ValidParses(g);
    ValidParses(h);
    forall w, fs | w in roots && Follow(g, w, fs).Some?
      ensures Follow(h, w, fs) == Follow(g, w, fs)
      ensures !IsPacked(Follow(g, w, fs).value) ==> NotFree(h, Follow(g, w, fs).value)
    {
      RootsAreHeld(g, roots, w);
      FollowSurvives(g, roots, h, h, w, fs);
    }
  }

  // ----------------------------------------------------------------------- lists

  lemma LiveReads(h: Heap, w: Word)
    requires Valid(h) && Live(h, w)
    ensures Read(h, w, FirstOf) == Some(Car(h, w)) && Read(h, w, RestOf) == Some(Cdr(h, w))
  {
    hide At, SizeOf, Count, FreeOk, Headers, UnpackCar, UnpackCdr;
  }

  /** A held cons in use is still one, with the same halves. */
  lemma LiveSurvives(g: Heap, roots: seq<Word>, h: Heap, h': Heap, w: Word)
    requires Valid(g) && SameButMarks(g, h) && Valid(h) && Collected(g, roots, h) && Stays(h, h')
    requires Held(g, roots, w) && Live(g, w)
    ensures Parses(h') && Live(h', w) && Car(h', w) == Car(g, w) && Cdr(h', w) == Cdr(g, w)
    ensures Held(g, roots, Cdr(g, w))
  {
    hide Valid, SameButMarks, Collected, Stays, Held, Read, Live, Car, Cdr;
    StaysParses(h, h');
    ValidParses(g);
    LiveReads(g, w);
    ReadSurvives(g, roots, h, h', w, FirstOf);
    ReadSurvives(g, roots, h, h', w, RestOf);
    assert Live(h', w) by { InUseSurvives(g, roots, h, h', w); }
    LiveReads(h', w);
  }

  lemma InUseSurvives(g: Heap, roots: seq<Word>, h: Heap, h': Heap, w: Word)
    requires Valid(g) && SameButMarks(g, h) && Valid(h) && Collected(g, roots, h) && Stays(h, h')
    requires Held(g, roots, w) && Live(g, w) && Parses(h')
    ensures Live(h', w)
  {
    hide At, SizeOf, SysClass, Valid, Collected, Held, Headers, Chain, InFreeCell, IsPacked, FreeList;
    if !IsPacked(w) {
      var k := At(w) - 1;
      ValidParses(g);
      ValidParses(h);
      SameButMarksWalk(g, h);
      HeldIsNotFree(g, roots, h, w);
      assert IsCell(h, k);
      ObjectStays(h, h', k, k);
    }
  }

  /** A list that starts at a held word is the same list after a collection and
      any later allocation. */
  lemma {:induction false} ListSurvives(g: Heap, roots: seq<Word>, h: Heap, h': Heap, w: Word, v: seq<Word>, tail: Word)
    requires Valid(g) && SameButMarks(g, h) && Valid(h) && Collected(g, roots, h) && Stays(h, h')
    requires Held(g, roots, w) && Spine(g, w, v, tail)
    ensures Parses(h') && Spine(h', w, v, tail)
    decreases |v|
  {
    hide Valid, SameButMarks, Collected, Stays, Held, Live, Car, Cdr;
    StaysParses(h, h');
    ValidParses(g);
    if v != [] {
      LiveSurvives(g, roots, h, h', w);
      ListSurvives(g, roots, h, h', Cdr(g, w), v[1..], tail);
    }
  }

  // ------------------------------------------------------------------ whole runs

  lemma ReuseStays(h: Heap)
    requires Valid(h)
    ensures Stays(h, Reuse(h, CONS_BYTES, CONS).1)
  {
    hide SizeOf, SysClass, RefBits, Count, MakeHeapInfo, Headers, Chain;
    ReuseValid(h, CONS_BYTES, CONS);
    if FreeList(h, CONS) == [] { BumpStays(h, CONS_BYTES, CONS); }
  }

  lemma BumpStays(h: Heap, nbytes: nat, c: Class)
    requires Valid(h) && Request(nbytes, c)
    ensures Stays(h, Bump(h, nbytes, c).1)
  {
    hide SizeOf, SysClass, RefBits, Count, MakeHeapInfo, Headers, Chain, FreeOk;
    BumpValid(h, nbytes, c);
    var h' := Bump(h, nbytes, c).1;
    if Bump(h, nbytes, c).0.Some? { BumpWalk(h, nbytes, c); }
    assert FreeList(h', CONS) == FreeList(h, CONS);
  }

  lemma ReusedPlace(h: Heap)
    requires Valid(h) && Reuse(h, CONS_BYTES, CONS).0.Some?
    ensures var (r, h1) := Reuse(h, CONS_BYTES, CONS);
            r.value >= 1 && (r.value - 1 in FreeList(h, CONS) || r.value - 1 == h.barrier)
  {
    hide MakeHeapInfo;
  }

  lemma FillStays(h: Heap, h1: Heap, at: nat, car: Word, cdr: Word)
    requires Stays(h, h1) && at >= 1 && (at - 1 in FreeList(h, CONS) || at - 1 == h.barrier)
    requires at + 1 < |h1.mem|
    requires var h2 := Store(Store(h1, at, car), at + 1, cdr); Valid(h2) && Parses(h1) && Hs(h2) == Hs(h1)
    ensures Stays(h, Store(Store(h1, at, car), at + 1, cdr))
  {
    hide Valid, Headers, Chain;
  }

  lemma ConsStays(h: Heap, car: Word, cdr: Word)
    requires Valid(h)
    ensures Stays(h, Cons(h, car, cdr).1)
  {
    hide Packable, TagAt, PackCons, Reuse, Stays, HandsOut, SizeOf, SysClass, RefBits, Count, FreeOk, Headers,
         Chain, InUse, IsCell;
    if Packable(car) && Packable(cdr) {
      StaysSame(h);
    } else {
      ReuseStays(h);
      var (r, h1) := Reuse(h, CONS_BYTES, CONS);
      if r.Some? {
        CellIsFresh(h);
        HandedOutCell(h, r.value, h1);
        CellRoom(h1, r.value);
        ReusedPlace(h);
        StoreKeepsWalk(h1, r.value, car);
        StoreKeepsWalk(Store(h1, r.value, car), r.value + 1, cdr);
        FillStays(h, h1, r.value, car, cdr);
      }
    }
  }

  lemma PlaceStays(h: Heap, c: Class, ws: seq<Word>)
    requires Valid(h) && Request(8 * |ws|, c)
    ensures Stays(h, Place(h, c, ws))
  {
    hide SizeOf, SysClass, RefBits, Count, MakeHeapInfo, Headers, Chain, FreeOk, Stays, Bump;
    if Bump(h, 8 * |ws|, c).0.Some? {
      PlaceWalk(h, c, ws);
      PlaceFree(h, c, ws);
      AddedStays(h, Place(h, c, ws));
    } else {
      NoPlace(h, c, ws);
      StaysSame(h);
    }
  }

  lemma PlaceFree(h: Heap, c: Class, ws: seq<Word>)
    requires c in h.counts
    ensures FreeList(Place(h, c, ws), CONS) == FreeList(h, CONS)
  {
  }

  lemma AddedStays(h: Heap, h': Heap)
    requires Valid(h) && Valid(h') && |h'.mem| == |h.mem| && h.barrier <= h'.barrier
    requires Hs(h') == Hs(h) + [h.barrier] && FreeList(h', CONS) == FreeList(h, CONS)
    requires forall p: nat | p < h.barrier && p < |h.mem| :: h'.mem[p] == h.mem[p]
    ensures Stays(h, h')
  {
    hide Valid, Headers, Chain;
  }

  /** What happens to a heap between two reads: allocations of any kind, and
      collections from the roots. */
  datatype Event =
    | NewCons(car: Word, cdr: Word)
    | NewObject(c: Class, ws: seq<Word>)
    | Collect(after: Heap)

  /** The heap an event leaves; a collection leaves what Collector.Gc promises. */
  ghost predicate Happens(h: Heap, roots: seq<Word>, e: Event, h': Heap)
    requires Valid(h)
  {
    match e
    case NewCons(car, cdr) => h' == Cons(h, car, cdr).1
    case NewObject(c, ws) => Request(8 * |ws|, c) && c != CONS && h' == Place(h, c, ws)
    case Collect(after) => h' == after && Valid(h') && SameButMarks(h, h') && Collected(h, roots, h')
  }

  /** hs are the heaps of a run of events. */
  ghost predicate Runs(hs: seq<Heap>, roots: seq<Word>, es: seq<Event>) {
    && |hs| == |es| + 1
    && forall n | 0 <= n < |es| :: Valid(hs[n]) ==> Happens(hs[n], roots, es[n], hs[n + 1])
  }

  lemma EventStaysValid(h: Heap, roots: seq<Word>, e: Event, h': Heap)
    requires Valid(h) && Happens(h, roots, e, h')
    ensures Valid(h') && (!e.Collect? ==> Stays(h, h'))
  {
    hide Valid, Cons, Place, Request, Collected, SameButMarks, Stays;
    match e
    case NewCons(car, cdr) => ConsStays(h, car, cdr); StaysParses(h, h');
    case NewObject(c, ws) => PlaceStays(h, c, ws); StaysParses(h, h');
    case Collect(_) =>
  }

  /** What a chain of accessors reads at the start and what it reads now, with
      nothing on the way waiting for reuse. */
  ghost predicate Same(h0: Heap, h: Heap, w: Word, fs: seq<Field>)
    requires Parses(h0) && Parses(h)
    decreases |fs|
  {
    && (fs != [] ==> Same(h0, h, w, fs[..|fs| - 1]))
    && (Follow(h0, w, fs).Some? ==>
          && Follow(h, w, fs) == Follow(h0, w, fs)
          && (!IsPacked(Follow(h, w, fs).value) ==> NotFree(h, Follow(h, w, fs).value)))
  }

  lemma {:induction false} SameStays(h0: Heap, h: Heap, h': Heap, w: Word, fs: seq<Field>)
    requires Parses(h0) && Parses(h) && Parses(h') && Stays(h, h') && Same(h0, h, w, fs)
    ensures Same(h0, h', w, fs)
    decreases |fs|
  {
    hide Stays, Read, NotFree, IsPacked;
    if fs != [] {
      SameStays(h0, h, h', w, fs[..|fs| - 1]);
      if Follow(h0, w, fs).Some? {
        ReadStays(h, h', Follow(h, w, fs[..|fs| - 1]).value, fs[|fs| - 1]);
      }
    }
    if Follow(h0, w, fs).Some? && !IsPacked(Follow(h, w, fs).value) { StillNotFree(h, h', Follow(h, w, fs).value); }
  }

  lemma {:induction false} SameCollects(h0: Heap, h: Heap, roots: seq<Word>, h': Heap, w: Word, fs: seq<Field>)
    requires Parses(h0) && Valid(h) && Valid(h') && SameButMarks(h, h') && Collected(h, roots, h')
    requires w in roots && Parses(h) && Same(h0, h, w, fs)
    ensures Parses(h') && Same(h0, h', w, fs)
    decreases |fs|
  {
    hide Valid, Stays, Read, NotFree, IsPacked, SameButMarks, Collected, Held;
    ValidParses(h');
    StaysSame(h');
    RootsAreHeld(h, roots, w);
    if fs != [] { SameCollects(h0, h, roots, h', w, fs[..|fs| - 1]); }
    if Follow(h, w, fs).Some? { FollowSurvives(h, roots, h', h', w, fs); }
  }

  /** Whatever the accessors read from a root at the start they read at every point
      of any run of allocations and collections from the roots, provided that
      nothing they reach was free at the start. */
  lemma {:induction false} RootsReadTheSame(hs: seq<Heap>, roots: seq<Word>, es: seq<Event>, n: nat, w: Word, fs: seq<Field>)
    requires Runs(hs, roots, es) && Valid(hs[0]) && n <= |es| && w in roots
    requires Same(hs[0], hs[0], w, fs)
    ensures Valid(hs[n]) && Same(hs[0], hs[n], w, fs)
  {
    hide Valid, Stays, Happens, Same, SameButMarks, Collected;
    ValidParses(hs[0]);
    if n > 0 {
      RootsReadTheSame(hs, roots, es, n - 1, w, fs);
      assert Happens(hs[n - 1], roots, es[n - 1], hs[n]);
      EventStaysValid(hs[n - 1], roots, es[n - 1], hs[n]);
      ValidParses(hs[n - 1]);
      ValidParses(hs[n]);
      if es[n - 1].Collect? {
        CollectionHappens(hs[n - 1], roots, es[n - 1], hs[n]);
        SameCollects(hs[0], hs[n - 1], roots, hs[n], w, fs);
      } else {
        SameStays(hs[0], hs[n - 1], hs[n], w, fs);
      }
    }
  }

  lemma CollectionHappens(h: Heap, roots: seq<Word>, e: Event, h': Heap)
    requires Valid(h) && Happens(h, roots, e, h') && e.Collect?
    ensures Valid(h') && SameButMarks(h, h') && Collected(h, roots, h')
  {
  }

  lemma LiveStays(h: Heap, h': Heap, w: Word)
    requires Stays(h, h') && Parses(h) && Parses(h') && Live(h, w)
    ensures Live(h', w) && Car(h', w) == Car(h, w) && Cdr(h', w) == Cdr(h, w)
  {
    hide At, SizeOf, SysClass, Valid, Headers, Chain, InFreeCell, FreeList, UnpackCar, UnpackCdr;
    if !IsPacked(w) {
      var k := At(w) - 1;
      StaysParses(h, h');
      ObjectStays(h, h', k, k);
      ObjectStays(h, h', k, k + 1);
      ObjectStays(h, h', k, k + 2);
    }
  }

  lemma {:induction false} SpineStays(h: Heap, h': Heap, w: Word, v: seq<Word>, tail: Word)
    requires Stays(h, h') && Parses(h) && Parses(h') && Spine(h, w, v, tail)
    ensures Spine(h', w, v, tail)
    decreases |v|
  {
    hide Stays, Live, Car, Cdr;
    if v != [] {
      LiveStays(h, h', w);
      SpineStays(h, h', Cdr(h, w), v[1..], tail);
    }
  }

  /** A list that the accessors reach from a root is the same list at every point
      of any run of allocations and collections from the roots. */
  lemma {:induction false} ListsReadTheSame(hs: seq<Heap>, roots: seq<Word>, es: seq<Event>, n: nat, w: Word,
                                            fs: seq<Field>, v: seq<Word>, tail: Word)
    requires Runs(hs, roots, es) && Valid(hs[0]) && n <= |es| && w in roots
    requires Same(hs[0], hs[0], w, fs) && Follow(hs[0], w, fs).Some?
    requires Spine(hs[0], Follow(hs[0], w, fs).value, v, tail)
    ensures Valid(hs[n]) && Follow(hs[n], w, fs) == Follow(hs[0], w, fs)
    ensures Spine(hs[n], Follow(hs[0], w, fs).value, v, tail)
  {
    hide Valid, Stays, Happens, SameButMarks, Collected, Spine, Held;
    ValidParses(hs[0]);
    RootsReadTheSame(hs, roots, es, n, w, fs);
    ValidParses(hs[n]);
    if n > 0 {
      var h, h' := hs[n - 1], hs[n];
      ListsReadTheSame(hs, roots, es, n - 1, w, fs, v, tail);
      assert Happens(h, roots, es[n - 1], h');
      EventStaysValid(h, roots, es[n - 1], h');
      ValidParses(h);
      if es[n - 1].Collect? {
        CollectionHappens(h, roots, es[n - 1], h');
        StaysSame(h');
        RootsAreHeld(h, roots, w);
        FollowSurvives(h, roots, h', h', w, fs);
        ListSurvives(h, roots, h', h', Follow(h, w, fs).value, v, tail);
      } else {
        SpineStays(h, h', Follow(h, w, fs).value, v, tail);
      }
    }
  }
}
