// Conses and lists (type/cons.cc, type/cons.h): packed or heap cells, lists built
// from the end, and iteration over either kind of cell.

module Conses {
  import opened Options
  import opened Words
  import opened HeapInfo
  import opened Walk
  import opened Mapped
  import opened Graph

  /** A cons whose halves can be read: packed, or a whole cell in use. */
  ghost predicate Live(h: Heap, w: Word)
    requires Parses(h)
  {
    IsPacked(w) ||
    (IsIndirect(w) && IndirectClass(w) == CONS && At(w) >= 1 &&
     IsCell(h, At(w) - 1) && At(w) - 1 in InUse(h) && At(w) + 1 < |h.mem|)
  }

  /** Cons::car of a cons */
  ghost function Car(h: Heap, w: Word): Word
    requires Parses(h) && Live(h, w)
  {
    if IsIndirect(w) then h.mem[At(w)] else UnpackCar(w)
  }

  /** Cons::cdr of a cons */
  ghost function Cdr(h: Heap, w: Word): Word
    requires Parses(h) && Live(h, w)
  {
    if IsIndirect(w) then h.mem[At(w) + 1] else UnpackCdr(w)
  }

  /** Following cdrs from w gives the elements v and ends in `tail`. */
  ghost predicate Spine(h: Heap, w: Word, v: seq<Word>, tail: Word)
    requires Parses(h)
    decreases |v|
  {
    if v == [] then w == tail
    else Live(h, w) && Car(h, w) == v[0] && Spine(h, Cdr(h, w), v[1..], tail)
  }

  // ------------------------------------------------------------------ allocation

  /** Cons::Heap: pack the pair if both halves fit, else fill a heap cell. The
      result is nothing when the heap is exhausted. */
  ghost function Cons(h: Heap, car: Word, cdr: Word): (Option<Word>, Heap)
    requires Valid(h)
  {
    if Packable(car) && Packable(cdr) then (Some(PackCons(car, cdr)), h)
    else
      var (r, h1) := Reuse(h, CONS_BYTES, CONS);
      if r.None? then (None, h1)
      else
        CellIsFresh(h);
        CellRoom(h1, r.value);
        (Some(TagAt(r.value as Word, CONS)), Store(Store(h1, r.value, car), r.value + 1, cdr))
  }

  /** A cell's two payload words are in the heap and are no headers. */
  lemma CellRoom(h: Heap, at: nat)
    requires Valid(h) && at >= 1 && IsCell(h, at - 1)
    ensures at + 1 < h.barrier <= |h.mem| < 0x2000_0000
    ensures at !in Hs(h) && at + 1 !in Hs(h)
  {
    hide SizeOf, SysClass, RefBits, Count, FreeOk;
    AllHeaders(h);
    HeadersInRange(h.mem, 0, h.barrier, at - 1);
    NoHeaderInside(h.mem, 0, h.barrier, at - 1, at);
    NoHeaderInside(h.mem, 0, h.barrier, at - 1, at + 1);
  }

  /** Different cells share no word. */
  lemma CellsApart(h: Heap, j: nat, k: nat)
    requires Valid(h) && IsCell(h, j) && IsCell(h, k) && j != k
    ensures j + 3 <= k || k + 3 <= j
  {
    hide SizeOf, SysClass, RefBits, Count, FreeOk;
    if j < k < j + 3 { NoHeaderInside(h.mem, 0, h.barrier, j, k); }
    if k < j < k + 3 { NoHeaderInside(h.mem, 0, h.barrier, k, j); }
  }

  lemma TagOfObject(at: nat, c: Class)
    requires at < 0x2000_0000
    ensures at as Word <= 0xffff_ffff
    ensures IsIndirect(TagAt(at as Word, c)) && IndirectClass(TagAt(at as Word, c)) == c
    ensures At(TagAt(at as Word, c)) == at
    ensures !IsPacked(TagAt(at as Word, c))
  {
    hide AtWord, TagAt, IndirectClass, NatOf;
    NatRoundTrip(at);
    TagAtRoundTrip(at as Word, c);
  }

  /** Nothing in use is disturbed: cells in use stay in use with their contents. */
  ghost predicate Keeps(h: Heap, h': Heap)
    requires Parses(h)
  {
    && Valid(h') && |h'.mem| == |h.mem|
    && InUse(h) <= InUse(h')
    && forall k | k in InUse(h) && IsCell(h, k) ::
         IsCell(h', k) && k + 2 < |h.mem| && h'.mem[k + 1] == h.mem[k + 1] && h'.mem[k + 2] == h.mem[k + 2]
  }

  lemma KeepsTransitive(h: Heap, h': Heap, h'': Heap)
    requires Parses(h) && Keeps(h, h') && Keeps(h', h'')
    ensures Keeps(h, h'')
  {
    hide InUse, IsCell, Valid;
    assert Valid(h') ==> Parses(h') by { ValidParses(h'); }
  }

  /** Lists survive whatever keeps the cells in use. */
  lemma {:induction false} SpineKept(h: Heap, h': Heap, w: Word, v: seq<Word>, tail: Word)
    requires Parses(h) && Keeps(h, h') && Spine(h, w, v, tail)
    ensures Parses(h') && Spine(h', w, v, tail)
    decreases |v|
  {
    hide InUse, IsCell, Valid, At;
    ValidParses(h');
    if v != [] {
      assert Live(h', w) && Car(h', w) == Car(h, w) && Cdr(h', w) == Cdr(h, w);
      SpineKept(h, h', Cdr(h, w), v[1..], tail);
    }
  }

  lemma ReuseKeeps(h: Heap)
    requires Valid(h)
    ensures Keeps(h, Reuse(h, CONS_BYTES, CONS).1)
  {
    hide SizeOf, SysClass, RefBits, Count, MakeHeapInfo;
    AllHeaders(h);
    var (r, h') := Reuse(h, CONS_BYTES, CONS);
    forall k | k in InUse(h) && IsCell(h, k) ensures k + 2 < h.barrier { CellRoom(h, k + 1); }
    if r.Some? {
      CellIsFresh(h);
    } else {
      FullHeap(h);
    }
  }

  /** Filling a cell that is in use leaves the other cells alone. */
  lemma FillKeeps(h: Heap, at: nat, car: Word, cdr: Word)
    requires Valid(h) && at >= 1 && IsCell(h, at - 1) && at - 1 in InUse(h) && at + 1 < |h.mem|
    ensures var h' := Store(Store(h, at, car), at + 1, cdr);
            && Valid(h') && InUse(h') == InUse(h) && |h'.mem| == |h.mem|
            && IsCell(h', at - 1) && h'.mem[at] == car && h'.mem[at + 1] == cdr
    ensures var h' := Store(Store(h, at, car), at + 1, cdr);
            forall k | k in InUse(h) && IsCell(h, k) && k != at - 1 ::
              IsCell(h', k) && k + 2 < |h.mem| && h'.mem[k + 1] == h.mem[k + 1] && h'.mem[k + 2] == h.mem[k + 2]
  {
    hide SizeOf, SysClass, RefBits, Count, FreeOk;
    CellRoom(h, at);
    StoreKeepsWalk(h, at, car);
    StoreKeepsWalk(Store(h, at, car), at + 1, cdr);
    AllHeaders(h);
    forall k | k in InUse(h) && IsCell(h, k) && k != at - 1 ensures k + 2 < |h.mem| {
      CellRoom(h, k + 1);
      CellsApart(h, k, at - 1);
    }
    forall k | k in InUse(h) && IsCell(h, k) && k != at - 1
      ensures Store(Store(h, at, car), at + 1, cdr).mem[k + 1] == h.mem[k + 1]
      ensures Store(Store(h, at, car), at + 1, cdr).mem[k + 2] == h.mem[k + 2]
    {
      CellsApart(h, k, at - 1);
    }
  }

  /** The heap cell a cons takes, if it takes one. */
  ghost function CellOf(w: Word): set<nat> {
    if IsPacked(w) || At(w) == 0 then {} else {At(w) - 1}
  }

  /** A cons gives back what it was made of, is packed exactly when both halves
      fit, takes a fresh cell otherwise, and disturbs nothing in use. */
  lemma ConsRefinesPair(h: Heap, car: Word, cdr: Word)
    requires Valid(h) && Cons(h, car, cdr).0.Some?
    ensures var w := Cons(h, car, cdr).0.value; var h' := Cons(h, car, cdr).1;
            && Keeps(h, h') && Live(h', w) && Car(h', w) == car && Cdr(h', w) == cdr
            && (IsPacked(w) <==> Packable(car) && Packable(cdr))
            && (|h.mem| <= 0x8_0000 ==> (Packable(w) <==> !IsPacked(w)))
            && InUse(h') == InUse(h) + CellOf(w) && CellOf(w) !! InUse(h)
            && (!IsPacked(w) ==> At(w) >= 1)
  {
    hide SizeOf, SysClass, RefBits, Count, FreeOk, Packable, PackCons, UnpackCar, UnpackCdr, TagAt, AtWord,
         IndirectClass, Reuse;
    if Packable(car) && Packable(cdr) {
      PackRoundTrip(car, cdr);
      NotPackable(PackCons(car, cdr));
      assert TagOf(PackCons(car, cdr)) == PACKED;
      assert Keeps(h, h) by { NothingChanges(h); }
    } else {
      HeapCons(h, car, cdr);
    }
  }

  lemma NothingChanges(h: Heap)
    requires Valid(h)
    ensures Keeps(h, h)
  {
    hide SizeOf, SysClass, RefBits, Count, FreeOk;
    forall k | k in InUse(h) && IsCell(h, k) ensures k + 2 < h.barrier { CellRoom(h, k + 1); }
  }

  /** What filling a freshly handed out cell gives. */
  ghost predicate Filled(h: Heap, w: Word, h': Heap, car: Word, cdr: Word)
    requires Parses(h)
  {
    && Keeps(h, h') && Live(h', w) && Car(h', w) == car && Cdr(h', w) == cdr
    && !IsPacked(w) && At(w) >= 1
    && (|h.mem| <= 0x8_0000 ==> Packable(w))
    && InUse(h') == InUse(h) + {At(w) - 1} && At(w) - 1 !in InUse(h)
  }

  lemma HeapCons(h: Heap, car: Word, cdr: Word)
    requires Valid(h) && !(Packable(car) && Packable(cdr)) && Cons(h, car, cdr).0.Some?
    ensures Filled(h, Cons(h, car, cdr).0.value, Cons(h, car, cdr).1, car, cdr)
  {
    hide Keeps, Filled, HandsOut, Packable, TagAt, Reuse, Store, Cons, Valid;
    ConsFills(h, car, cdr);
    var (r, h1) := Reuse(h, CONS_BYTES, CONS);
    CellIsFresh(h);
    ReuseKeeps(h);
    HandedOutIsFilled(h, h1, r.value, car, cdr);
  }

  /** A cons that is not packed, by its two steps. */
  lemma ConsFills(h: Heap, car: Word, cdr: Word)
    requires Valid(h) && !(Packable(car) && Packable(cdr)) && Cons(h, car, cdr).0.Some?
    ensures CONS in h.counts && Reuse(h, CONS_BYTES, CONS).0.Some?
    ensures var (r, h1) := Reuse(h, CONS_BYTES, CONS);
            && r.value + 1 < |h1.mem| < 0x2000_0000
            && Cons(h, car, cdr) == (Some(TagAt(r.value as Word, CONS)), Store(Store(h1, r.value, car), r.value + 1, cdr))
  {
    hide Packable, TagAt, Reuse, HandsOut, SizeOf, SysClass;
    var (r, h1) := Reuse(h, CONS_BYTES, CONS);
    CellIsFresh(h);
    HandedOutCell(h, r.value, h1);
    CellRoom(h1, r.value);
  }

  lemma HandedOutCell(h: Heap, at: nat, h1: Heap)
    requires Parses(h) && HandsOut(h, at, h1)
    ensures Valid(h1) && at >= 1 && IsCell(h1, at - 1)
  {
  }

  lemma HandedOutIsFilled(h: Heap, h1: Heap, at: nat, car: Word, cdr: Word)
    requires Valid(h) && HandsOut(h, at, h1) && Keeps(h, h1)
    ensures at + 1 < |h1.mem| < 0x2000_0000
    ensures Filled(h, TagAt(at as Word, CONS), Store(Store(h1, at, car), at + 1, cdr), car, cdr)
  {
    hide SizeOf, SysClass, RefBits, Count, FreeOk, InUse, Keeps;
    hide Packable, TagAt, AtWord, IndirectClass;
    CellRoom(h1, at);
    TagOfObject(at, CONS);
    FillKeeps(h1, at, car, cdr);
    FillFreshKeeps(h, h1, at, car, cdr);
    if |h.mem| <= 0x8_0000 {
      KeepsSize(h, h1);
      SmallCellTag(at);
    }
  }

  lemma KeepsSize(h: Heap, h': Heap)
    requires Parses(h) && Keeps(h, h')
    ensures |h'.mem| == |h.mem|
  {
  }

  lemma SmallCellTag(at: nat)
    requires at <= 0x8_0000
    ensures at as Word <= 0x8_0000 && Packable(TagAt(at as Word, CONS))
  {
    SmallIndex(at);
    SmallHeapTagsPack(at as Word, CONS);
  }

  lemma FillFreshKeeps(h: Heap, h1: Heap, at: nat, car: Word, cdr: Word)
    requires Valid(h) && Keeps(h, h1)
    requires at >= 1 && IsCell(h1, at - 1) && at - 1 in InUse(h1) && at + 1 < |h1.mem|
    requires at - 1 !in InUse(h)
    ensures Keeps(h, Store(Store(h1, at, car), at + 1, cdr))
  {
    hide SizeOf, SysClass, RefBits, Count, FreeOk;
    FillKeeps(h1, at, car, cdr);
  }

  lemma SmallIndex(n: nat)
    requires n <= 0x8_0000
    ensures n as Word <= 0x8_0000
  {
    NatRoundTrip(n);
    if n as Word > 0x8_0000 {
      BigIndex(n as Word);
      assert false;
    }
  }

  lemma BigIndex(x: Word)
    requires x > 0x8_0000
    ensures x as nat > 0x8_0000
  {
  }

  // ----------------------------------------------------------------------- lists

  /** Cons::List: from the last element to the first. */
  ghost function List(h: Heap, v: seq<Word>): (Option<Word>, Heap)
    requires Valid(h)
    ensures Valid(List(h, v).1)
    decreases |v|
  {
    if v == [] then (Some(NIL), h)
    else
      var (rest, h1) := List(h, v[1..]);
      if rest.None? then (None, h1)
      else
        ConsIsValid(h1, v[0], rest.value);
        Cons(h1, v[0], rest.value)
  }

  lemma ConsIsValid(h: Heap, car: Word, cdr: Word)
    requires Valid(h)
    ensures Valid(Cons(h, car, cdr).1)
  {
    if Cons(h, car, cdr).0.Some? {
      ConsRefinesPair(h, car, cdr);
    } else {
      ReuseValid(h, CONS_BYTES, CONS);
    }
  }

  /** The list of v iterates as v and ends in :nil, whichever of its cells are
      packed, and building it disturbs no list already in use. */
  lemma {:induction false} ListRefinesSequence(h: Heap, v: seq<Word>)
    requires Valid(h) && List(h, v).0.Some?
    ensures Keeps(h, List(h, v).1)
    ensures Spine(List(h, v).1, List(h, v).0.value, v, NIL)
    decreases |v|
  {
    hide Cons, InUse, IsCell, Valid, At;
    ValidParses(h);
    ValidParses(List(h, v).1);
    if v == [] {
      NothingChanges(h);
    } else {
      var (rest, h1) := List(h, v[1..]);
      ValidParses(h1);
      ListRefinesSequence(h, v[1..]);
      ConsRefinesPair(h1, v[0], rest.value);
      KeepsTransitive(h, h1, List(h, v).1);
      SpineKept(h1, List(h, v).1, rest.value, v[1..], NIL);
    }
  }

  /** Of the list of v, how many conses take a heap cell. */
  ghost function HeapCells(v: seq<Word>): nat
    decreases |v|
  {
    if v == [] then 0 else HeapCells(v[1..]) + if HeapFirst(v) then 1 else 0
  }

  /** Does the first cons of the list of v take a heap cell? It is packed only if
      the element fits and the rest starts with a heap cell. */
  ghost predicate HeapFirst(v: seq<Word>)
    decreases |v|
  {
    v != [] && !(Packable(v[0]) && HeapFirst(v[1..]))
  }

  /** In a heap of at most 4 MB, packable elements are laid out two to a heap
      cell: n of them take exactly ceil(n / 2) cells. */
  lemma {:induction false} HalfTheCells(v: seq<Word>)
    requires forall i | 0 <= i < |v| :: Packable(v[i])
    ensures HeapCells(v) == (|v| + 1) / 2
    ensures HeapFirst(v) <==> |v| % 2 == 1
    decreases |v|
  {
    hide Packable;
    if v != [] {
      HalfTheCells(v[1..]);
    }
  }

  /** The count above is the number of cells the heap gives up. */
  lemma {:induction false} ListCells(h: Heap, v: seq<Word>)
    requires Valid(h) && |h.mem| <= 0x8_0000 && List(h, v).0.Some?
    ensures |InUse(List(h, v).1)| == |InUse(h)| + HeapCells(v)
    ensures Packable(List(h, v).0.value) <==> HeapFirst(v)
    ensures |List(h, v).1.mem| == |h.mem|
    decreases |v|
  {
    hide Cons, InUse, IsCell, Valid, At, Packable, Keeps;
    ValidParses(h);
    ValidParses(List(h, v).1);
    if v == [] {
      NotPackable(NIL);
    } else {
      var (rest, h1) := List(h, v[1..]);
      ValidParses(h1);
      ListCells(h, v[1..]);
      ConsCells(h1, v[0], rest.value);
    }
  }

  lemma ConsCells(h: Heap, car: Word, cdr: Word)
    requires Valid(h) && |h.mem| <= 0x8_0000 && Cons(h, car, cdr).0.Some?
    ensures var w := Cons(h, car, cdr).0.value; var h' := Cons(h, car, cdr).1;
            && Valid(h') && |h'.mem| == |h.mem|
            && |InUse(h')| == |InUse(h)| + (if Packable(car) && Packable(cdr) then 0 else 1)
            && (Packable(w) <==> !(Packable(car) && Packable(cdr)))
  {
    hide Cons, InUse, IsCell, Valid, At, Packable;
    ValidParses(h);
    ConsRefinesPair(h, car, cdr);
    ValidParses(h);
    var w := Cons(h, car, cdr).0.value;
    assert Valid(Cons(h, car, cdr).1) && |Cons(h, car, cdr).1.mem| == |h.mem|;
    ValidParses(Cons(h, car, cdr).1);
    assert InUse(Cons(h, car, cdr).1) == InUse(h) + CellOf(w);
    assert |CellOf(w)| == if IsPacked(w) then 0 else 1;
  }

  /** n packable elements in a heap of at most 4 MB: exactly ceil(n / 2) more
      cells in use. */
  lemma PackedListLayout(h: Heap, v: seq<Word>)
    requires Valid(h) && |h.mem| <= 0x8_0000 && List(h, v).0.Some?
    requires forall i | 0 <= i < |v| :: Packable(v[i])
    ensures |InUse(List(h, v).1)| == |InUse(h)| + (|v| + 1) / 2
  {
    hide InUse, Packable, Valid, Cons;
    ValidParses(h);
    ValidParses(List(h, v).1);
    ListCells(h, v);
    HalfTheCells(v);
  }

  // ------------------------------------------------------- when there is room left

  /** How many cells the heap can still give: those waiting for reuse, and those
      there are words for. */
  ghost function Cells(h: Heap): nat
    requires Parses(h)
  {
    |FreeList(h, CONS)| + if h.barrier <= |h.mem| then (|h.mem| - h.barrier) / 3 else 0
  }

  /** A cell can be had exactly when there is one, and takes one. */
  lemma ReuseTakesOne(h: Heap)
    requires Valid(h)
    ensures var (r, h') := Reuse(h, CONS_BYTES, CONS);
            && (r.Some? <==> Cells(h) > 0)
            && Parses(h') && Cells(h') == if r.Some? then Cells(h) - 1 else Cells(h)
  {
    hide SizeOf, SysClass, RefBits, Count, FreeOk, MakeHeapInfo, Headers;
    ReuseValid(h, CONS_BYTES, CONS);
    assert h.barrier <= |h.mem|;
  }

  lemma ConsTakesOne(h: Heap, car: Word, cdr: Word)
    requires Valid(h)
    ensures var (r, h') := Cons(h, car, cdr); var packs := Packable(car) && Packable(cdr);
            && (r.Some? <==> packs || Cells(h) > 0)
            && Parses(h') && (r.Some? ==> Cells(h') == if packs then Cells(h) else Cells(h) - 1)
  {
    hide Packable, Cells, Reuse, TagAt, PackCons, HandsOut, IsCell, SizeOf, SysClass, Count, FreeOk;
    ReuseTakesOne(h);
    if !(Packable(car) && Packable(cdr)) && Reuse(h, CONS_BYTES, CONS).0.Some? {
      var (r, h1) := Reuse(h, CONS_BYTES, CONS);
      CellIsFresh(h);
      HandedOutCell(h, r.value, h1);
      CellRoom(h1, r.value);
      FillKeepsCells(h1, r.value, car, cdr);
    }
  }

  lemma FillKeepsCells(h: Heap, at: nat, car: Word, cdr: Word)
    requires Valid(h) && at >= 1 && at + 1 < |h.mem| && at !in Hs(h) && at + 1 !in Hs(h)
    ensures var h' := Store(Store(h, at, car), at + 1, cdr);
            Parses(h') && Cells(h') == Cells(h)
  {
    hide Headers, Chain, SizeOf;
    StoreKeepsWalk(h, at, car);
    StoreKeepsWalk(Store(h, at, car), at + 1, cdr);
  }

  /** A list of n elements can be built whenever n cells can be had. */
  lemma {:induction false} ListFits(h: Heap, v: seq<Word>)
    requires Valid(h) && Cells(h) >= |v|
    ensures List(h, v).0.Some? && Parses(List(h, v).1) && Cells(List(h, v).1) >= Cells(h) - |v|
    decreases |v|
  {
    hide Cons, Cells, Valid;
    if v == [] {
      ValidParses(h);
    } else {
      ListFits(h, v[1..]);
      ConsTakesOne(List(h, v[1..]).1, v[0], List(h, v[1..]).0.value);
    }
  }

  /** In a heap of at most 4 MB it can be built exactly when the cells that its
      layout needs can be had. */
  lemma {:induction false} ListFitsExactly(h: Heap, v: seq<Word>)
    requires Valid(h) && |h.mem| <= 0x8_0000
    ensures List(h, v).0.Some? <==> Cells(h) >= HeapCells(v)
    ensures List(h, v).0.Some? ==> Parses(List(h, v).1) && Cells(List(h, v).1) == Cells(h) - HeapCells(v)
    decreases |v|
  {
    hide Cons, Cells, Valid, Packable;
    ValidParses(h);
    if v != [] {
      ListFitsExactly(h, v[1..]);
      if List(h, v[1..]).0.Some? {
        ListCells(h, v[1..]);
        ConsTakesOne(List(h, v[1..]).1, v[0], List(h, v[1..]).0.value);
      }
    }
  }

  // ------------------------------------------------------------- lists over runs

  /** Allocations of any kind, between two collections. */
  datatype Make = MakeCons(car: Word, cdr: Word) | MakeOther(nbytes: nat, c: Class)

  ghost function After(h: Heap, op: Make): Heap
    requires Valid(h)
  {
    match op
    case MakeCons(car, cdr) => Cons(h, car, cdr).1
    case MakeOther(nbytes, c) => if Request(nbytes, c) && c != CONS then Bump(h, nbytes, c).1 else h
  }

  lemma MakeKeeps(h: Heap, op: Make)
    requires Valid(h)
    ensures Keeps(h, After(h, op))
  {
    match op
    case MakeCons(car, cdr) =>
      if Cons(h, car, cdr).0.Some? {
        ConsRefinesPair(h, car, cdr);
      } else {
        ReuseKeeps(h);
      }
    case MakeOther(nbytes, c) =>
      if Request(nbytes, c) && c != CONS {
        OtherKeeps(h, nbytes, c);
      } else {
        NothingChanges(h);
      }
  }

  lemma OtherKeeps(h: Heap, nbytes: nat, c: Class)
    requires Valid(h) && Request(nbytes, c) && c != CONS
    ensures Keeps(h, Bump(h, nbytes, c).1)
  {
    hide SizeOf, SysClass, RefBits, Count, FreeOk, MakeHeapInfo;
    AllHeaders(h);
    OtherInvariant(h, nbytes, c);
    forall k | k in InUse(h) && IsCell(h, k) ensures k + 2 < h.barrier { CellRoom(h, k + 1); }
  }

  ghost function AfterAll(h: Heap, ops: seq<Make>): Heap
    requires Valid(h)
    ensures Valid(AfterAll(h, ops))
    decreases |ops|
  {
    if ops == [] then h
    else
      MakeKeeps(h, ops[0]);
      AfterAll(After(h, ops[0]), ops[1..])
  }

  /** A list keeps its elements over every later run of allocations. */
  lemma {:induction false} ListsSurvive(h: Heap, ops: seq<Make>, w: Word, v: seq<Word>, tail: Word)
    requires Valid(h) && Spine(h, w, v, tail)
    ensures Spine(AfterAll(h, ops), w, v, tail)
    decreases |ops|
  {
    hide After, Keeps, InUse, IsCell;
    if ops != [] {
      var h' := After(h, ops[0]);
      MakeKeeps(h, ops[0]);
      SpineKept(h, h', w, v, tail);
      assert Valid(h') by { KeptIsValid(h, h'); }
      ListsSurvive(h', ops[1..], w, v, tail);
    }
  }

  lemma KeptIsValid(h: Heap, h': Heap)
    requires Parses(h) && Keeps(h, h')
    ensures Valid(h')
  {
  }
}
