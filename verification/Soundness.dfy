// The heap the collector asks for is the heap it leaves and the heap the library
// builds: every followed word can be followed, over whole runs of allocations,
// writes and collections.

module Soundness {
  import opened Options
  import opened Words
  import opened HeapInfo
  import opened Walk
  import opened Mapped
  import opened Graph
  import opened Reach
  import opened Conses

  /** i is a vector object large enough for its layout. */
  ghost predicate IsVector(h: Heap, i: nat)
    requires Parses(h)
  {
    IsHeader(h, i) && SysClass(h.mem[i]) == VECTOR && SizeOf(h.mem[i]) > 3
  }

  /** The data of every :t vector lies below the barrier, clear of headers and
      conses. */
  ghost predicate VectorsInside(h: Heap)
    requires Parses(h)
  {
    forall i: nat | IsVector(h, i) && i + 3 < |h.mem| && h.mem[i + 1] == KEY_T ::
      && DataAt(h, i) + VectorLength(h, i) <= h.barrier
      && forall p | DataAt(h, i) <= p < DataAt(h, i) + VectorLength(h, i) :: Clear(h, p)
  }

  /** A heap the collector can be run on, now and after anything below. */
  ghost predicate Ready(h: Heap) {
    Valid(h) && Sound(h) && VectorsInside(h)
  }

  /** The positions of the words followed from object i. */
  ghost function Places(h: Heap, i: nat): seq<nat>
    requires Parses(h) && WellLaidOut(h, i)
  {
    if SysClass(h.mem[i]) == VECTOR then
      if h.mem[i + 1] == KEY_T then seq(VectorLength(h, i), j requires 0 <= j => DataAt(h, i) + j) else []
    else Followed(SysClass(h.mem[i]), i + 1)
  }

  lemma KidsArePlaces(h: Heap, i: nat)
    requires Parses(h) && WellLaidOut(h, i)
    ensures |Kids(h, i)| == |Places(h, i)|
    ensures forall j | 0 <= j < |Places(h, i)| ::
              Below(h, Places(h, i)[j]) && Kids(h, i)[j] == h.mem[Places(h, i)[j]]
  {
    hide SizeOf, SysClass, Headers, Chain, NatOf, Hs, IsCell;
    LayoutBelow(h, i);
    BarrierFits(h);
    if SysClass(h.mem[i]) == VECTOR && h.mem[i + 1] == KEY_T {
      forall p: nat | DataAt(h, i) <= p < DataAt(h, i) + VectorLength(h, i) ensures Below(h, p) {
        assert Clear(h, p);
      }
    }
  }

  /** An allocated word that is no header. */
  ghost predicate Below(h: Heap, p: nat)
    requires Parses(h)
  {
    p < h.barrier && p < |h.mem| && p !in Hs(h)
  }

  lemma BarrierFits(h: Heap)
    requires Parses(h)
    ensures h.barrier <= |h.mem|
  {
  }

  /** The layout of an object lies inside it. */
  lemma LayoutBelow(h: Heap, i: nat)
    requires Parses(h) && WellLaidOut(h, i)
    ensures forall p: nat | i < p <= i + LayoutWords(SysClass(h.mem[i])) :: Below(h, p)
  {
    hide SizeOf, SysClass, LayoutWords;
    HeadersInRange(h.mem, 0, h.barrier, i);
    forall p: nat | i < p <= i + LayoutWords(SysClass(h.mem[i])) ensures p !in Hs(h) {
      NoHeaderInside(h.mem, 0, h.barrier, i, p);
    }
  }

  // -------------------------------------------------------------- what keeps it

  /** The objects of h are all there in h', of the same class and size, and the
      layouts of its vectors are untouched. */
  ghost predicate KeepsObjects(h: Heap, h': Heap)
    requires Parses(h) && Parses(h')
  {
    && |h'.mem| == |h.mem| && h.barrier <= h'.barrier
    && (forall k: nat | k < h.barrier :: k in Hs(h') <==> k in Hs(h))
    && (forall k: nat | IsHeader(h, k) ::
          SizeOf(h'.mem[k]) == SizeOf(h.mem[k]) && SysClass(h'.mem[k]) == SysClass(h.mem[k]))
    && forall k: nat, p: nat | IsVector(h, k) && k < p <= k + 3 && p < |h.mem| :: h'.mem[p] == h.mem[p]
  }

  /** Payload words changed only to words that can be followed. */
  ghost predicate WritesTraceable(h: Heap, h': Heap)
    requires Parses(h) && |h'.mem| == |h.mem|
  {
    forall p: nat | Below(h, p) :: h'.mem[p] == h.mem[p] || Traceable(h, h'.mem[p])
  }

  /** Objects that h does not have are laid out with words h could follow. */
  ghost predicate NewReady(h: Heap, h': Heap)
    requires Parses(h) && Parses(h')
  {
    forall i: nat | WellLaidOut(h', i) && !IsHeader(h, i) :: forall w | w in Kids(h', i) :: Traceable(h', w)
  }

  lemma HeaderStays(h: Heap, h': Heap, i: nat)
    requires Parses(h) && Parses(h') && KeepsObjects(h, h') && IsHeader(h, i)
    ensures i < h.barrier && IsHeader(h', i)
    ensures SizeOf(h'.mem[i]) == SizeOf(h.mem[i]) && SysClass(h'.mem[i]) == SysClass(h.mem[i])
  {
    hide SizeOf, SysClass;
    HeadersInRange(h.mem, 0, h.barrier, i);
  }

  lemma ClearStays(h: Heap, h': Heap, p: nat)
    requires Parses(h) && Parses(h') && KeepsObjects(h, h') && p < h.barrier
    ensures Clear(h', p) <==> Clear(h, p)
  {
    hide SizeOf, SysClass, Headers, Chain;
    forall k: nat | k < h.barrier ensures IsCell(h', k) <==> IsCell(h, k) {
      if IsHeader(h, k) { HeaderStays(h, h', k); }
    }
  }

  /** A vector's data is clear in one heap exactly when it is in the other. */
  lemma DataStays(h: Heap, h': Heap, first: nat, length: nat)
    requires Parses(h) && Parses(h') && KeepsObjects(h, h') && first + length <= h.barrier
    ensures (forall p: nat | first <= p < first + length :: Clear(h', p)) <==>
            (forall p: nat | first <= p < first + length :: Clear(h, p))
  {
    hide KeepsObjects, Clear;
    forall p: nat | first <= p < first + length ensures Clear(h', p) <==> Clear(h, p) { ClearStays(h, h', p); }
  }

  lemma LaidOutStays(h: Heap, h': Heap, i: nat)
    requires Parses(h) && Parses(h') && KeepsObjects(h, h') && IsHeader(h, i)
    ensures WellLaidOut(h, i) ==> WellLaidOut(h', i) && Places(h', i) == Places(h, i)
    ensures (VectorsInside(h) || h'.barrier == h.barrier) && WellLaidOut(h', i) ==> WellLaidOut(h, i)
  {
    hide SizeOf, SysClass, Headers, Chain, NatOf, Neg, FixValue, Hs, Followed, Clear;
    HeaderStays(h, h', i);
    if IsVector(h, i) && i + 3 < |h.mem| {
      assert h'.mem[i + 1] == h.mem[i + 1] && h'.mem[i + 2] == h.mem[i + 2] && h'.mem[i + 3] == h.mem[i + 3];
      if DataAt(h, i) + VectorLength(h, i) <= h.barrier {
        DataStays(h, h', DataAt(h, i), VectorLength(h, i));
      }
    }
  }

  lemma AtomStays(h: Heap, h': Heap, w: Word)
    requires Parses(h) && Parses(h') && KeepsObjects(h, h') && Atom(h, w)
    ensures Atom(h', w)
  {
    hide SizeOf, SysClass, WellLaidOut, At, KeepsObjects, DirectClass, IndirectClass;
    if IsIndirect(w) && At(w) >= 1 && WellLaidOut(h, At(w) - 1) {
      LaidOutIsHeader(h, At(w) - 1);
      HeaderStays(h, h', At(w) - 1);
      LaidOutStays(h, h', At(w) - 1);
    }
  }

  lemma LaidOutIsHeader(h: Heap, i: nat)
    requires Parses(h) && WellLaidOut(h, i)
    ensures IsHeader(h, i)
  {
  }

  lemma TraceableStays(h: Heap, h': Heap, w: Word)
    requires Parses(h) && Parses(h') && KeepsObjects(h, h') && Traceable(h, w)
    ensures Traceable(h', w)
  {
    hide Atom, KeepsObjects, UnpackCar, UnpackCdr;
    if IsPacked(w) {
      AtomStays(h, h', UnpackCar(w));
      AtomStays(h, h', UnpackCdr(w));
    } else {
      AtomStays(h, h', w);
    }
  }

  /** The words followed from an object that was there can still be followed. */
  lemma OldKids(h: Heap, h': Heap, i: nat, w: Word)
    requires Sound(h) && Parses(h') && KeepsObjects(h, h') && WritesTraceable(h, h')
    requires WellLaidOut(h, i) && WellLaidOut(h', i) && w in Kids(h', i)
    ensures Traceable(h', w)
  {
    hide SizeOf, SysClass, WellLaidOut, KeepsObjects, Kids, Places, Traceable, Below;
    LaidOutIsHeader(h, i);
    LaidOutStays(h, h', i);
    KidsArePlaces(h, i);
    KidsArePlaces(h', i);
    var j :| 0 <= j < |Kids(h', i)| && Kids(h', i)[j] == w;
    var p := Places(h, i)[j];
    BelowInRange(h, h', p);
    assert w == h'.mem[p];
    assert Kids(h, i)[j] in Kids(h, i);
    TraceableStays(h, h', w);
  }

  lemma BelowInRange(h: Heap, h': Heap, p: nat)
    requires Parses(h) && Parses(h') && Below(h, p) && KeepsObjects(h, h')
    ensures p < |h.mem| == |h'.mem|
  {
  }

  lemma KeptSound(h: Heap, h': Heap)
    requires Sound(h) && Parses(h') && KeepsObjects(h, h') && WritesTraceable(h, h') && NewReady(h, h')
    requires VectorsInside(h) || h'.barrier == h.barrier
    ensures Sound(h')
  {
    hide SizeOf, SysClass, WellLaidOut, KeepsObjects, WritesTraceable, Kids, Traceable, IsHeader, VectorsInside;
    forall i: nat, w | WellLaidOut(h', i) && w in Kids(h', i) ensures Traceable(h', w) {
      if IsHeader(h, i) {
        LaidOutStays(h, h', i);
        OldKids(h, h', i, w);
      }
    }
  }

  lemma KeptVectors(h: Heap, h': Heap)
    requires Parses(h) && VectorsInside(h) && Parses(h') && KeepsObjects(h, h')
    requires forall i: nat | IsVector(h', i) && !IsHeader(h, i) :: WellLaidOut(h', i)
    ensures VectorsInside(h')
  {
    hide SizeOf, SysClass, NatOf, Neg, FixValue;
    forall i: nat | IsVector(h', i) && i + 3 < |h'.mem| && h'.mem[i + 1] == KEY_T ensures WellLaidOut(h', i) {
      if IsHeader(h, i) {
        HeaderStays(h, h', i);
        assert IsVector(h, i);
        assert h'.mem[i + 1] == h.mem[i + 1];
        VectorLaidOut(h, i);
        LaidOutStays(h, h', i);
      }
    }
  }

  lemma VectorLaidOut(h: Heap, i: nat)
    requires Parses(h) && VectorsInside(h) && IsVector(h, i) && i + 3 < |h.mem| && h.mem[i + 1] == KEY_T
    ensures WellLaidOut(h, i)
  {
    hide SizeOf, SysClass, NatOf, Neg, FixValue;
  }

  // ------------------------------------------------------------------ collections

  /** Clearing, marking and sweeping change no word that is followed. */
  lemma MarksKeepSound(g: Heap, h: Heap)
    requires Sound(g) && SameButMarks(g, h)
    ensures Sound(h)
    ensures VectorsInside(g) ==> VectorsInside(h)
  {
    hide SizeOf, SysClass, Kids, Traceable, WellLaidOut, Headers, Chain, IsVector;
    SameButMarksWalk(g, h);
    MarksKeepObjects(g, h);
    assert forall i: nat | IsHeader(h, i) :: IsHeader(g, i);
    assert NewReady(g, h) by {
      forall i: nat | WellLaidOut(h, i) ensures IsHeader(g, i) { LaidOutIsHeader(h, i); }
    }
    KeptSound(g, h);
    if VectorsInside(g) {
      forall i: nat | IsVector(h, i) ensures IsHeader(g, i) { VectorIsHeader(h, i); }
      KeptVectors(g, h);
    }
  }

  lemma VectorIsHeader(h: Heap, i: nat)
    requires Parses(h) && IsVector(h, i)
    ensures IsHeader(h, i)
  {
  }

  lemma MarksKeepObjects(g: Heap, h: Heap)
    requires Parses(g) && SameButMarks(g, h) && Parses(h) && Hs(h) == Hs(g)
    ensures KeepsObjects(g, h) && WritesTraceable(g, h)
  {
    hide SizeOf, SysClass, Headers, Traceable;
    forall k: nat, p: nat | IsVector(g, k) && k < p <= k + 3 && p < |g.mem| ensures p !in Hs(g) {
      NoHeaderInside(g.mem, 0, g.barrier, k, p);
    }
  }

  // ----------------------------------------------------------- writes and conses

  /** A payload word that a mutator may overwrite: not the layout of a vector. */
  ghost predicate Writable(h: Heap, at: nat, k: nat)
    requires Parses(h)
  {
    InPayload(h, at, k) && at + k < |h.mem| && (SysClass(h.mem[at - 1]) == VECTOR ==> k >= 3)
  }

  lemma WriteKeepsReady(h: Heap, at: nat, k: nat, w: Word)
    requires Ready(h) && Writable(h, at, k) && Traceable(h, w)
    ensures Ready(Store(h, at + k, w)) && KeepsObjects(h, Store(h, at + k, w))
  {
    hide SizeOf, SysClass, Kids, Traceable, WellLaidOut, Headers, Chain, IsVector, Valid, Sound, VectorsInside,
         KeepsObjects;
    assert Parses(h) by { ValidParses(h); }
    PayloadIsNotHeader(h, at, k);
    var h' := Store(h, at + k, w);
    StoreKeepsWalk(h, at + k, w);
    WriteKeepsObjects(h, at, k, w);
    assert WritesTraceable(h, h');
    assert NewReady(h, h') by {
      forall i: nat | WellLaidOut(h', i) ensures IsHeader(h, i) { LaidOutIsHeader(h', i); }
    }
    KeptSound(h, h');
    forall i: nat | IsVector(h', i) ensures IsHeader(h, i) { VectorIsHeader(h', i); }
    KeptVectors(h, h');
  }

  lemma WriteKeepsObjects(h: Heap, at: nat, k: nat, w: Word)
    requires Parses(h) && Writable(h, at, k) && at + k !in Hs(h)
    requires Parses(Store(h, at + k, w)) && Hs(Store(h, at + k, w)) == Hs(h)
    ensures KeepsObjects(h, Store(h, at + k, w))
  {
    hide SizeOf, SysClass, Headers;
    forall i: nat | IsVector(h, i) ensures !(i < at + k <= i + 3) {
      if i < at + k <= i + 3 { ObjectsApart(h, i, at - 1, at + k); }
    }
  }

  /** A word lies in one object only. */
  lemma ObjectsApart(h: Heap, i: nat, j: nat, p: nat)
    requires Parses(h) && IsHeader(h, i) && IsHeader(h, j)
    requires i < p < i + SizeOf(h.mem[i]) && j < p < j + SizeOf(h.mem[j])
    ensures i == j
  {
    hide SizeOf;
    if i < j { NoHeaderInside(h.mem, 0, h.barrier, i, j); }
    if j < i { NoHeaderInside(h.mem, 0, h.barrier, j, i); }
  }

  // ------------------------------------------------------------------ new objects

  /** The payload of a fresh object. */
  ghost function Fill(h: Heap, at: nat, ws: seq<Word>): Heap
    requires at + |ws| <= |h.mem|
  {
    h.(mem := h.mem[..at] + ws + h.mem[at + |ws|..])
  }

  /** Alloc and the writing of the layout: an object of class c with payload ws. */
  ghost function Place(h: Heap, c: Class, ws: seq<Word>): Heap
    requires c in h.counts
  {
    var (r, h1) := Bump(h, 8 * |ws|, c);
    if r.Some? then Fill(h1, r.value, ws) else h1
  }

  /** A payload that suits its class: large enough for the layout, and the words
      that will be followed can be. A :t vector's length and data address, 24 bytes
      into the object, are those of its elements. */
  ghost predicate Suits(h: Heap, c: Class, ws: seq<Word>)
    requires Parses(h)
  {
    && |ws| >= LayoutWords(c)
    && (c in {CONS, SYMBOL, FUNCTION, EXCEPTION, NAMESPACE} ==> AllTraceable(h, ws))
    && (c == VECTOR ==>
          && ws[0] in {KEY_T, KEY_CHAR, KEY_FIXNUM, KEY_FLOAT}
          && (ws[0] == KEY_T ==>
                && AllTraceable(h, ws[3..])
                && NatOf(FixValue(ws[1])) == |ws| - 3
                && NatOf(Neg(FixValue(ws[2])) >> 3) == h.barrier + 4))
  }

  /** The three layout words Vector::Heap writes say just that. */
  lemma VectorWordsSuit(h: Heap, elements: seq<Word>, at: Word, n: Word)
    requires Parses(h) && AllTraceable(h, elements)
    requires at <= 0xffff_ffff && NatOf(at) == h.barrier + 4
    requires n <= 0xffff_ffff && NatOf(n) == |elements|
    ensures Suits(h, VECTOR, [KEY_T, FixTag(n), FixTag(Neg(at << 3))] + elements)
  {
    hide NatOf, Traceable, FixTag, FixValue, Neg;
    var ws := [KEY_T, FixTag(n), FixTag(Neg(at << 3))] + elements;
    assert ws[3..] == elements;
    SmallDistance(n);
    SmallDistance(at);
    FixnumRoundTrip(n);
    FixnumRoundTrip(Neg(at << 3));
    NegBack(at << 3);
  }

  lemma SmallDistance(x: Word)
    requires x <= 0xffff_ffff
    ensures x >> 58 == 0 && (x << 3) >> 3 == x
    ensures Neg(x << 3) >> 58 == 0 || Neg(x << 3) >> 58 == 0x3f
  {
  }

  lemma NegBack(x: Word)
    ensures Neg(Neg(x)) == x
  {
  }

  lemma PlaceWalk(h: Heap, c: Class, ws: seq<Word>)
    requires Valid(h) && Request(8 * |ws|, c) && Bump(h, 8 * |ws|, c).0.Some?
    ensures var h', b := Place(h, c, ws), h.barrier;
            && Valid(h') && |h'.mem| == |h.mem| && Hs(h') == Hs(h) + [b] && h'.barrier == b + 1 + |ws| <= |h.mem|
            && SysClass(h'.mem[b]) == c && SizeOf(h'.mem[b]) == 1 + |ws|
            && (forall i: nat | i < |ws| :: h'.mem[b + 1 + i] == ws[i])
            && forall p: nat | p < b :: h'.mem[p] == h.mem[p]
  {
    hide MakeHeapInfo, SysClass, RefBits, SizeOf, Count, Headers, Chain, FreeOk, Valid;
    ValidParses(h);
    Counted(h, c);
    BumpValid(h, 8 * |ws|, c);
    BumpWalk(h, 8 * |ws|, c);
    var h1 := Bump(h, 8 * |ws|, c).1;
    BarrierFits(h1);
    assert forall k | k in Hs(h1) :: k <= h.barrier;
    SameHeaders(h1, Place(h, c, ws));
  }

  lemma PlaceKeepsObjects(h: Heap, c: Class, ws: seq<Word>)
    requires Valid(h) && Request(8 * |ws|, c) && Bump(h, 8 * |ws|, c).0.Some?
    ensures Valid(Place(h, c, ws)) && KeepsObjects(h, Place(h, c, ws)) && WritesTraceable(h, Place(h, c, ws))
  {
    hide MakeHeapInfo, SysClass, RefBits, SizeOf, Headers, Chain, Valid, Place, Traceable, Bump, ObjectWords;
    ValidParses(h);
    Counted(h, c);
    ValidParses(Place(h, c, ws));
    PlaceWalk(h, c, ws);
    AllHeaders(h);
    var h' := Place(h, c, ws);
    forall i: nat | IsVector(h, i) ensures i + 3 < h.barrier {
      HeadersInRange(h.mem, 0, h.barrier, i);
    }
  }

  /** The one new object is laid out, and only words of ws are followed from it. */
  lemma NewObject(h: Heap, c: Class, ws: seq<Word>)
    requires Valid(h) && Suits(h, c, ws) && Request(8 * |ws|, c) && Bump(h, 8 * |ws|, c).0.Some?
    ensures Valid(Place(h, c, ws)) && WellLaidOut(Place(h, c, ws), h.barrier)
    ensures forall w | w in Kids(Place(h, c, ws), h.barrier) :: Traceable(h, w)
  {
    hide MakeHeapInfo, SysClass, RefBits, SizeOf, Headers, Chain, Valid, Place, Bump, ObjectWords, Traceable, Suits;
    ValidParses(h);
    Counted(h, c);
    PlaceWalk(h, c, ws);
    var h', b := Place(h, c, ws), h.barrier;
    ValidParses(h');
    assert IsHeader(h', b) by { assert Hs(h')[|Hs(h)|] == b; }
    AllHeaders(h);
    if c == VECTOR { NewVector(h, h', ws); } else { NewRecord(h, h', c, ws); }
  }

  lemma NewRecord(h: Heap, h': Heap, c: Class, ws: seq<Word>)
    requires Parses(h) && Parses(h') && Suits(h, c, ws) && c != VECTOR
    requires IsHeader(h', h.barrier) && h'.barrier == h.barrier + 1 + |ws| <= |h'.mem|
    requires SysClass(h'.mem[h.barrier]) == c && SizeOf(h'.mem[h.barrier]) == 1 + |ws|
    requires forall i: nat | i < |ws| :: h'.mem[h.barrier + 1 + i] == ws[i]
    ensures WellLaidOut(h', h.barrier)
    ensures forall w | w in Kids(h', h.barrier) :: Traceable(h, w)
  {
    hide SysClass, SizeOf, Headers, Chain, Traceable, IsHeader;
    var b := h.barrier;
    forall w | w in Kids(h', b) ensures w in ws {
      assert forall i: nat | i < |ws| :: h'.mem[b + 1 + i] == ws[i] && ws[i] in ws;
      assert |ws| > 0 ==> h'.mem[b + 1] == ws[0];
      assert |ws| > 1 ==> h'.mem[b + 2] == ws[1];
      assert |ws| > 2 ==> h'.mem[b + 3] == ws[2];
      assert |ws| > 3 ==> h'.mem[b + 4] == ws[3];
      assert |ws| > 4 ==> h'.mem[b + 5] == ws[4];
    }
  }

  lemma NewVector(h: Heap, h': Heap, ws: seq<Word>)
    requires Parses(h) && Parses(h') && Suits(h, VECTOR, ws)
    requires IsHeader(h', h.barrier) && h'.barrier == h.barrier + 1 + |ws| <= |h'.mem|
    requires forall k | k in Hs(h') :: k <= h.barrier
    requires SysClass(h'.mem[h.barrier]) == VECTOR && SizeOf(h'.mem[h.barrier]) == 1 + |ws|
    requires forall i: nat | i < |ws| :: h'.mem[h.barrier + 1 + i] == ws[i]
    ensures WellLaidOut(h', h.barrier)
    ensures forall w | w in Kids(h', h.barrier) :: Traceable(h, w)
  {
    hide SysClass, SizeOf, Headers, Chain, Traceable, IsHeader, NatOf, FixValue, Neg, Hs, Followed;
    var b := h.barrier;
    assert h'.mem[b + 1] == ws[0] && h'.mem[b + 2] == ws[1] && h'.mem[b + 3] == ws[2];
    if ws[0] == KEY_T {
      assert DataAt(h', b) == b + 4 && VectorLength(h', b) == |ws| - 3;
      assert h'.mem[b + 4..b + 4 + (|ws| - 3)] == ws[3..];
      forall p: nat | b + 4 <= p ensures Clear(h', p) { ClearPastHeaders(h', b, p); }
    }
  }

  lemma ClearPastHeaders(h: Heap, b: nat, p: nat)
    requires Parses(h) && (forall k | k in Hs(h) :: k <= b) && p > b + 2
    ensures Clear(h, p)
  {
    hide SysClass, SizeOf, Headers, Chain;
  }

  lemma PlaceKeepsReady(h: Heap, c: Class, ws: seq<Word>)
    requires Ready(h) && Suits(h, c, ws) && Request(8 * |ws|, c) && Bump(h, 8 * |ws|, c).0.Some?
    ensures Ready(Place(h, c, ws)) && KeepsObjects(h, Place(h, c, ws))
    ensures WellLaidOut(Place(h, c, ws), h.barrier) && SysClass(Place(h, c, ws).mem[h.barrier]) == c
  {
    hide SizeOf, SysClass, Kids, Traceable, WellLaidOut, Headers, Chain, IsVector, Valid, Sound, VectorsInside,
         KeepsObjects, WritesTraceable, Place, Suits, Bump, ObjectWords, IsHeader;
    ValidParses(h);
    Counted(h, c);
    PlaceKeepsObjects(h, c, ws);
    NewObject(h, c, ws);
    PlaceWalk(h, c, ws);
    var h' := Place(h, c, ws);
    ValidParses(h');
    OnlyNew(h, h');
    assert NewReady(h, h') by {
      forall i: nat, w | WellLaidOut(h', i) && !IsHeader(h, i) && w in Kids(h', i) ensures Traceable(h', w) {
        LaidOutIsHeader(h', i);
        TraceableStays(h, h', w);
      }
    }
    KeptSound(h, h');
    forall i: nat | IsVector(h', i) && !IsHeader(h, i) ensures WellLaidOut(h', i) { VectorIsHeader(h', i); }
    KeptVectors(h, h');
  }

  lemma OnlyNew(h: Heap, h': Heap)
    requires Parses(h) && Parses(h') && Hs(h') == Hs(h) + [h.barrier] && |h'.mem| == |h.mem|
    ensures forall i: nat | IsHeader(h', i) && !IsHeader(h, i) :: i == h.barrier
  {
    hide Headers, Chain;
  }

  lemma KeepsObjectsTransitive(h: Heap, h': Heap, h'': Heap)
    requires Parses(h) && Parses(h') && Parses(h'') && KeepsObjects(h, h') && KeepsObjects(h', h'')
    ensures KeepsObjects(h, h'')
  {
    hide Headers, Chain, SizeOf, SysClass;
    forall i: nat | IsHeader(h, i) ensures IsHeader(h', i) && (IsVector(h, i) ==> IsVector(h', i)) { HeaderStays(h, h', i); }
  }

  // ----------------------------------------------------------------------- conses

  /** The tag of an object the collector can dispatch on. */
  lemma TagTraces(h: Heap, at: nat, c: Class)
    requires Parses(h) && 1 <= at < 0x2000_0000 && WellLaidOut(h, at - 1) && SysClass(h.mem[at - 1]) == c
    requires c in {CONS, SYMBOL, FUNCTION, EXCEPTION, NAMESPACE, VECTOR, STREAM, DOUBLE}
    ensures at as Word <= 0xffff_ffff && Traceable(h, TagAt(at as Word, c))
  {
    hide At, TagAt, IndirectClass, SysClass, WellLaidOut, IsPacked, IsDirect, IsIndirect;
    TagOfObject(at, c);
    IndirectTraces(h, TagAt(at as Word, c), c);
  }

  lemma IndirectTraces(h: Heap, w: Word, c: Class)
    requires Parses(h) && IsIndirect(w) && !IsPacked(w) && IndirectClass(w) == c
    requires At(w) >= 1 && WellLaidOut(h, At(w) - 1) && SysClass(h.mem[At(w) - 1]) == c
    requires c in {CONS, SYMBOL, FUNCTION, EXCEPTION, NAMESPACE, VECTOR, STREAM, DOUBLE}
    ensures Traceable(h, w)
  {
    hide At, IndirectClass, SysClass, WellLaidOut, IsPacked, IsDirect, IsIndirect;
  }

  lemma PackedTraces(h: Heap, car: Word, cdr: Word)
    requires Parses(h) && Packable(car) && Packable(cdr) && Traceable(h, car) && Traceable(h, cdr)
    ensures Traceable(h, PackCons(car, cdr))
  {
    hide Packable, PackCons, UnpackCar, UnpackCdr, Atom;
    PackRoundTrip(car, cdr);
    NotPackable(car);
    NotPackable(cdr);
  }

  /** A cons of words that can be followed can be followed, and keeps the heap
      ready, packed, in a fresh cell or in a reused one. */
  lemma ConsKeepsReady(h: Heap, car: Word, cdr: Word)
    requires Ready(h) && Traceable(h, car) && Traceable(h, cdr)
    ensures var (r, h') := Cons(h, car, cdr);
            Ready(h') && KeepsObjects(h, h') && (r.Some? ==> Traceable(h', r.value))
  {
    hide SizeOf, SysClass, Traceable, Valid, Sound, VectorsInside, KeepsObjects, Packable, PackCons, FreeList,
         Bump;
    ValidParses(h);
    if Packable(car) && Packable(cdr) {
      PackedTraces(h, car, cdr);
      KeepsItself(h);
    } else if FreeList(h, CONS) != [] {
      ReusedConsReady(h, car, cdr);
    } else {
      NewConsReady(h, car, cdr);
    }
  }

  lemma KeepsItself(h: Heap)
    requires Parses(h)
    ensures KeepsObjects(h, h)
  {
  }

  /** Taking a cell off the free list. */
  lemma PopKeepsReady(h: Heap)
    requires Ready(h) && FreeList(h, CONS) != []
    ensures var (r, h1) := Reuse(h, CONS_BYTES, CONS);
            Ready(h1) && KeepsObjects(h, h1) && r.Some? && h1.mem == h.mem && h1.barrier == h.barrier
  {
    hide SizeOf, SysClass, Headers, Chain, Kids, Traceable, WellLaidOut, VectorsInside, Sound, Valid;
    ReuseValid(h, CONS_BYTES, CONS);
    var h1 := Reuse(h, CONS_BYTES, CONS).1;
    ValidParses(h);
    ValidParses(h1);
    SameMemory(h, h1);
    MarksKeepSound(h, h1);
  }

  lemma SameMemory(h: Heap, h1: Heap)
    requires Parses(h) && h1.mem == h.mem && h1.barrier == h.barrier && h1.counts == h.counts
    ensures SameButMarks(h, h1) && Parses(h1) && KeepsObjects(h, h1)
  {
  }

  lemma ReusedConsReady(h: Heap, car: Word, cdr: Word)
    requires Ready(h) && Traceable(h, car) && Traceable(h, cdr) && !(Packable(car) && Packable(cdr))
    requires FreeList(h, CONS) != []
    ensures var (r, h') := Cons(h, car, cdr);
            Ready(h') && Parses(h) && KeepsObjects(h, h') && (r.Some? ==> Traceable(h', r.value))
  {
    hide SizeOf, SysClass, Traceable, Sound, VectorsInside, KeepsObjects, Packable, FreeList, Reuse, Valid,
         WellLaidOut, HandsOut, TagAt;
    ValidParses(h);
    Counted(h, CONS);
    PopKeepsReady(h);
    CellIsFresh(h);
    var (r, h1) := Reuse(h, CONS_BYTES, CONS);
    FilledCellReady(h, h1, r.value, car, cdr);
  }

  lemma CellStays(h: Heap, h': Heap, k: nat)
    requires Valid(h) && Valid(h') && KeepsObjects(h, h') && IsCell(h, k)
    ensures IsCell(h', k) && WellLaidOut(h', k)
    ensures Writable(h', k + 1, 0) && Writable(h', k + 1, 1)
  {
    hide SysClass, SizeOf, KeepsObjects, Count, FreeOk;
    HeaderStays(h, h', k);
    CellRoom(h', k + 1);
  }

  lemma FilledCellReady(h: Heap, h1: Heap, at: nat, car: Word, cdr: Word)
    requires Parses(h) && Ready(h1) && KeepsObjects(h, h1) && HandsOut(h, at, h1)
    requires Traceable(h, car) && Traceable(h, cdr)
    ensures at + 1 < |h1.mem| < 0x2000_0000
    ensures var h' := Store(Store(h1, at, car), at + 1, cdr);
            Ready(h') && KeepsObjects(h, h') && Traceable(h', TagAt(at as Word, CONS))
  {
    hide SizeOf, SysClass, Traceable, Sound, VectorsInside, KeepsObjects, WellLaidOut, TagAt, Writable, InUse,
         Valid;
    ValidParses(h1);
    CellRoom(h1, at);
    KeepsItself(h1);
    CellStays(h1, h1, at - 1);
    TraceableStays(h, h1, car);
    TraceableStays(h, h1, cdr);
    WriteKeepsReady(h1, at, 0, car);
    var h2 := Store(h1, at + 0, car);
    ValidParses(h2);
    TraceableStays(h1, h2, cdr);
    CellStays(h1, h2, at - 1);
    WriteKeepsReady(h2, at, 1, cdr);
    var h3 := Store(h2, at + 1, cdr);
    ValidParses(h3);
    KeepsObjectsTransitive(h, h1, h2);
    KeepsObjectsTransitive(h, h2, h3);
    CellStays(h2, h3, at - 1);
    CellClass(h3, at - 1);
    TagTraces(h3, at, CONS);
  }

  lemma CellClass(h: Heap, k: nat)
    requires Parses(h) && IsCell(h, k)
    ensures k < |h.mem| && SysClass(h.mem[k]) == CONS
  {
  }

  lemma NewConsReady(h: Heap, car: Word, cdr: Word)
    requires Ready(h) && Traceable(h, car) && Traceable(h, cdr) && !(Packable(car) && Packable(cdr))
    requires FreeList(h, CONS) == []
    ensures var (r, h') := Cons(h, car, cdr);
            Ready(h') && Parses(h) && KeepsObjects(h, h') && (r.Some? ==> Traceable(h', r.value))
  {
    hide Ready, Traceable, KeepsObjects, Packable, Valid, Cons, Bump, Place, FreeList, TagAt, WellLaidOut, SysClass;
    ReadyParses(h);
    Counted(h, CONS);
    if Bump(h, CONS_BYTES, CONS).0.Some? {
      ConsIsPlace(h, car, cdr);
      PlaceKeepsReady(h, CONS, [car, cdr]);
      BumpRoom(h, CONS_BYTES, CONS);
      var h' := Place(h, CONS, [car, cdr]);
      ReadyParses(h');
      TagTraces(h', h.barrier + 1, CONS);
    } else {
      FullCons(h, car, cdr);
      KeepsItself(h);
    }
  }

  lemma FullCons(h: Heap, car: Word, cdr: Word)
    requires Valid(h) && CONS in h.counts && !(Packable(car) && Packable(cdr))
    requires FreeList(h, CONS) == [] && Bump(h, CONS_BYTES, CONS).0.None?
    ensures Cons(h, car, cdr) == (None, h)
  {
    hide Packable, TagAt, HandsOut, MakeHeapInfo;
  }

  lemma BumpRoom(h: Heap, nbytes: nat, c: Class)
    requires Valid(h) && c in h.counts && Bump(h, nbytes, c).0.Some?
    ensures h.barrier + 1 <= |h.mem| < 0x2000_0000
  {
  }

  lemma ConsIsPlace(h: Heap, car: Word, cdr: Word)
    requires Valid(h) && !(Packable(car) && Packable(cdr))
    requires FreeList(h, CONS) == [] && Bump(h, CONS_BYTES, CONS).0.Some?
    ensures h.barrier + 1 < 0x2000_0000
    ensures Cons(h, car, cdr) == (Some(TagAt((h.barrier + 1) as Word, CONS)), Place(h, CONS, [car, cdr]))
  {
    hide SizeOf, SysClass, Packable, TagAt, Valid, Store, Fill, HandsOut, Bump, Reuse, FreeList;
    ValidParses(h);
    Counted(h, CONS);
    ReuseIsBump(h);
    CellIsFresh(h);
    BumpRoom(h, CONS_BYTES, CONS);
    var h1 := Bump(h, CONS_BYTES, CONS).1;
    HandedOutCell(h, h.barrier + 1, h1);
    CellRoom(h1, h.barrier + 1);
    FillTwo(h1, h.barrier + 1, car, cdr);
    assert Place(h, CONS, [car, cdr]) == Fill(h1, h.barrier + 1, [car, cdr]);
  }

  lemma ReuseIsBump(h: Heap)
    requires CONS in h.counts && FreeList(h, CONS) == [] && Bump(h, CONS_BYTES, CONS).0.Some?
    ensures Reuse(h, CONS_BYTES, CONS) == Bump(h, CONS_BYTES, CONS)
    ensures Bump(h, CONS_BYTES, CONS).0 == Some(h.barrier + 1)
  {
    hide MakeHeapInfo;
  }

  lemma FillTwo(h: Heap, at: nat, car: Word, cdr: Word)
    requires at + 1 < |h.mem|
    ensures Store(Store(h, at, car), at + 1, cdr) == Fill(h, at, [car, cdr])
  {
    assert h.mem[at := car][at + 1 := cdr] == h.mem[..at] + [car, cdr] + h.mem[at + 2..];
  }

  // ------------------------------------------------------------------- whole runs

  /** What happens to a heap: conses, other objects, writes to payloads, and
      collections, which change marks and free lists. */
  datatype Act =
    | MakePair(car: Word, cdr: Word)
    | MakeObject(c: Class, ws: seq<Word>)
    | Overwrite(at: nat, k: nat, w: Word)
    | Collection(after: Heap)

  /** The library only hands on words that can be followed. */
  ghost predicate Proper(h: Heap, a: Act)
    requires Ready(h)
  {
    match a
    case MakePair(car, cdr) => Traceable(h, car) && Traceable(h, cdr)
    case MakeObject(c, ws) => Request(8 * |ws|, c) && c != CONS && Suits(h, c, ws)
    case Overwrite(at, k, w) => Writable(h, at, k) && Traceable(h, w)
    case Collection(after) => Valid(after) && SameButMarks(h, after)
  }

  ghost function Do(h: Heap, a: Act): Heap
    requires Ready(h) && Proper(h, a)
  {
    match a
    case MakePair(car, cdr) => Cons(h, car, cdr).1
    case MakeObject(c, ws) => Place(h, c, ws)
    case Overwrite(at, k, w) => Store(h, at + k, w)
    case Collection(after) => after
  }

  lemma DoKeepsReady(h: Heap, a: Act)
    requires Ready(h) && Proper(h, a)
    ensures Ready(Do(h, a)) && KeepsObjects(h, Do(h, a))
  {
    hide SizeOf, SysClass, Traceable, Sound, VectorsInside, KeepsObjects, Valid, Suits, Cons, Bump, Writable,
         SameButMarks;
    ValidParses(h);
    match a
    case MakePair(car, cdr) => ConsKeepsReady(h, car, cdr);
    case MakeObject(c, ws) =>
      Counted(h, c);
      if Bump(h, 8 * |ws|, c).0.Some? { PlaceKeepsReady(h, c, ws); } else { NoPlace(h, c, ws); KeepsItself(h); }
    case Overwrite(at, k, w) => WriteKeepsReady(h, at, k, w);
    case Collection(after) =>
      MarksKeepSound(h, after);
      SameButMarksWalk(h, after);
      MarksKeepObjects(h, after);
  }

  lemma NoPlace(h: Heap, c: Class, ws: seq<Word>)
    requires c in h.counts && Bump(h, 8 * |ws|, c).0.None?
    ensures Place(h, c, ws) == h
  {
  }

  /** The heaps a run goes through, if every act is proper. */
  ghost predicate IsRun(hs: seq<Heap>, acts: seq<Act>) {
    && |hs| == |acts| + 1
    && forall n | 0 <= n < |acts| :: Ready(hs[n]) ==> Proper(hs[n], acts[n]) && hs[n + 1] == Do(hs[n], acts[n])
  }

  /** Over any run of allocations, writes and collections from a ready heap every
      heap is ready, so it can be collected; words that could be followed still
      can; and marking from any of them finds exactly what is reachable. */
  lemma {:induction false} RunsStayReady(hs: seq<Heap>, acts: seq<Act>, n: nat)
    requires IsRun(hs, acts) && Ready(hs[0]) && n <= |acts|
    ensures Ready(hs[n])
    ensures forall w | Traceable(hs[0], w) :: Traceable(hs[n], w)
    ensures forall roots, i | AllTraceable(hs[n], roots) ::
              i in MarkAll(hs[n], {}, roots) <==> Reachable(hs[n], roots, i)
  {
    hide Ready, Traceable, Proper, Do, KeepsObjects, Reachable, MarkAll;
    if n > 0 {
      RunsStayReady(hs, acts, n - 1);
      DoKeepsReady(hs[n - 1], acts[n - 1]);
      ReadyParses(hs[n - 1]);
      ReadyParses(hs[n]);
      forall w | Traceable(hs[n - 1], w) ensures Traceable(hs[n], w) { TraceableStays(hs[n - 1], hs[n], w); }
    }
    ReadyParses(hs[n]);
    forall roots, i | AllTraceable(hs[n], roots)
      ensures i in MarkAll(hs[n], {}, roots) <==> Reachable(hs[n], roots, i)
    {
      MarkingIsReachability(hs[n], roots, i);
    }
  }

  lemma ReadyParses(h: Heap)
    requires Ready(h)
    ensures Parses(h) && Sound(h) && Valid(h)
  {
  }

  /** Fresh pages are ready. */
  lemma EmptyIsReady(h: Heap)
    requires Valid(h) && h.barrier == 0
    ensures Ready(h)
  {
  }
}
