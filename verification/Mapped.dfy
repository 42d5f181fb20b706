// The mapped heap (heap/heap-mapped.cc, heap/mapped.h, core/heap.cc): a bump
// allocator over an array of words, per-class free lists filled by the sweep,
// and the header walks.

module Mapped {
  import opened Options
  import opened Words
  import opened HeapInfo
  import opened Walk

  /** Every SYS_CLASS. */
  const CLASSES: seq<Class> := [FIXNUM, CHAR, VECTOR, SYMBOL, FLOAT, CONS, DOUBLE,
                                EXCEPTION, FUNCTION, NAMESPACE, STREAM, BYTE, T]

  /** A heap's contents: words, allocation barrier, free header lists by class,
      allocation counts by class. Positions are word indices from the base. */
  datatype Heap = Heap(mem: seq<Word>, barrier: nat,
                       free: map<Class, seq<nat>>, counts: map<Class, nat>)

  function FreeList(h: Heap, c: Class): seq<nat> {
    if c in h.free then h.free[c] else []
  }

  ghost predicate Parses(h: Heap) { Chain(h.mem, 0, h.barrier) }

  ghost function Hs(h: Heap): seq<nat>
    requires Parses(h)
  {
    Headers(h.mem, 0, h.barrier)
  }

  /** k is the header of an allocated object. */
  ghost predicate IsHeader(h: Heap, k: nat)
    requires Parses(h)
  {
    k < |h.mem| && k in Hs(h)
  }

  /** Number of listed headers of a class. */
  ghost function Count(mem: seq<Word>, hs: seq<nat>, c: Class): nat {
    if hs == [] then 0
    else Count(mem, hs[..|hs| - 1], c) +
         var k := hs[|hs| - 1];
         if k < |mem| && SysClass(mem[k]) == c then 1 else 0
  }

  ghost predicate Distinct(s: seq<nat>) {
    forall i, j | 0 <= i < j < |s| :: s[i] != s[j]
  }

  /** Free lists hold unmarked headers of their class, each once. */
  ghost predicate FreeOk(h: Heap)
    requires Parses(h)
  {
    forall c {:trigger FreeList(h, c)} ::
      && Distinct(FreeList(h, c))
      && forall k | k in FreeList(h, c) ::
           IsHeader(h, k) && SysClass(h.mem[k]) == c && RefBits(h.mem[k]) == 0
  }

  /** Payload bytes of a cons: its car and its cdr. */
  const CONS_BYTES := 16

  /** What every allocator operation keeps. */
  ghost predicate Valid(h: Heap) {
    && |h.mem| < 0x2000_0000
    && Parses(h)
    && (forall k: nat | IsHeader(h, k) ::
          && SysClass(h.mem[k]) != UNNAMED
          && (SysClass(h.mem[k]) == CONS ==> SizeOf(h.mem[k]) == ObjectWords(CONS_BYTES)))
    && (forall c | c != UNNAMED :: c in h.counts && h.counts[c] == Count(h.mem, Hs(h), c))
    && FreeOk(h)
  }

  // --------------------------------------------------------------- operations

  /** Words an object of nbytes payload bytes takes, header included. */
  function ObjectWords(nbytes: nat): nat { 1 + HeapWords(nbytes) }

  /** Bump allocation: the payload position, or nothing when the heap is full. */
  function Bump(h: Heap, nbytes: nat, c: Class): (Option<nat>, Heap)
    requires c in h.counts
  {
    var words := ObjectWords(nbytes);
    if h.barrier + words > |h.mem| then (None, h)
    else (Some(h.barrier + 1),
          Heap(h.mem[h.barrier := MakeHeapInfo(8 * words, c)], h.barrier + words,
               h.free, h.counts[c := h.counts[c] + 1]))
  }

  /** Allocation that reuses the last free object of the class, if any. */
  function Reuse(h: Heap, nbytes: nat, c: Class): (Option<nat>, Heap)
    requires c in h.counts
  {
    var free := FreeList(h, c);
    if free != [] then (Some(free[|free| - 1] + 1), h.(free := h.free[c := free[..|free| - 1]]))
    else Bump(h, nbytes, c)
  }

  /** Unmarked headers of a class, in walk order. */
  ghost function Unmarked(mem: seq<Word>, hs: seq<nat>, c: Class): seq<nat> {
    if hs == [] then []
    else var k := hs[|hs| - 1];
         Unmarked(mem, hs[..|hs| - 1], c) +
         (if k < |mem| && SysClass(mem[k]) == c && RefBits(mem[k]) == 0 then [k] else [])
  }

  // --------------------------------------------------- what the operations keep

  lemma {:induction false} CountFrame(mem: seq<Word>, mem': seq<Word>, hs: seq<nat>, c: Class)
    requires |mem| == |mem'|
    requires forall k | k in hs && k < |mem| :: SysClass(mem'[k]) == SysClass(mem[k])
    ensures Count(mem', hs, c) == Count(mem, hs, c)
  {
    if hs != [] {
      CountFrame(mem, mem', hs[..|hs| - 1], c);
    }
  }

  lemma CountAppend(mem: seq<Word>, hs: seq<nat>, k: nat, c: Class)
    requires k < |mem|
    ensures Count(mem, hs + [k], c) == Count(mem, hs, c) + if SysClass(mem[k]) == c then 1 else 0
  {
    assert (hs + [k])[..|hs + [k]| - 1] == hs;
  }

  /** What a successful bump allocation does to the walk. */
  lemma BumpWalk(h: Heap, nbytes: nat, c: Class)
    requires Parses(h) && c in h.counts
    requires 8 * ObjectWords(nbytes) < 0x1_0000
    requires Bump(h, nbytes, c).0.Some?
    ensures var h' := Bump(h, nbytes, c).1;
            && Parses(h') && Hs(h') == Hs(h) + [h.barrier]
            && SysClass(h'.mem[h.barrier]) == c && RefBits(h'.mem[h.barrier]) == 0
            && SizeOf(h'.mem[h.barrier]) == ObjectWords(nbytes)
    ensures forall k | k in Hs(h) :: k < h.barrier
  {
    hide MakeHeapInfo, SysClass, RefBits, SizeOf;
    var h' := Bump(h, nbytes, c).1;
    MakeHeapInfoFields(8 * ObjectWords(nbytes), c);
    forall k | k in Hs(h) ensures k < h.barrier { HeadersInRange(h.mem, 0, h.barrier, k); }
    SameSizesSameWalk(h.mem, h'.mem, 0, h.barrier);
    WalkGrows(h'.mem, 0, h.barrier, h'.barrier);
  }

  lemma {:induction false} LastEnds(mem: seq<Word>, i: nat, barrier: nat)
    requires Chain(mem, i, barrier) && i < barrier
    ensures var hs := Headers(mem, i, barrier);
            hs != [] && hs[|hs| - 1] < |mem| && hs[|hs| - 1] + SizeOf(mem[hs[|hs| - 1]]) == barrier
    decreases barrier - i
  {
    hide SizeOf;
    var next := i + SizeOf(mem[i]);
    if next < barrier { LastEnds(mem, next, barrier); }
  }

  /** The walk finds a new object, and it alone, exactly when the whole object fits
      the header's 16-bit size: from 64 KB on the allocator goes through, and the
      walk does not end where the object does. */
  lemma BumpWalkIsExact(h: Heap, nbytes: nat, c: Class)
    requires Parses(h) && c in h.counts && Bump(h, nbytes, c).0.Some?
    ensures var h' := Bump(h, nbytes, c).1;
            Parses(h') && Hs(h') == Hs(h) + [h.barrier] <==> 8 * ObjectWords(nbytes) < 0x1_0000
  {
    hide MakeHeapInfo, SysClass, RefBits, SizeOf, Headers, Chain;
    var h' := Bump(h, nbytes, c).1;
    if 8 * ObjectWords(nbytes) < 0x1_0000 { BumpWalk(h, nbytes, c); }
    if Parses(h') && Hs(h') == Hs(h) + [h.barrier] {
      LastEnds(h'.mem, 0, h'.barrier);
      SizeIsExact(ObjectWords(nbytes), c);
    }
  }

  /** The requests the library makes: objects whose size in bytes fits the
      header's 16-bit parameter, and conses of exactly two words. */
  predicate Request(nbytes: nat, c: Class) {
    && c != UNNAMED
    && 8 * ObjectWords(nbytes) < 0x1_0000
    && (c == CONS ==> nbytes == CONS_BYTES)
  }

  lemma Counted(h: Heap, c: Class)
    requires Valid(h) && c != UNNAMED
    ensures c in h.counts
  {
  }

  lemma BumpCounts(h: Heap, nbytes: nat, c: Class, d: Class)
    requires Valid(h) && Request(nbytes, c) && d != UNNAMED && Bump(h, nbytes, c).0.Some?
    ensures var h' := Bump(h, nbytes, c).1;
            Parses(h') && d in h'.counts && h'.counts[d] == Count(h'.mem, Hs(h'), d)
  {
    hide MakeHeapInfo, SysClass, RefBits, SizeOf, HeapWords, FreeOk, Count;
    BumpWalk(h, nbytes, c);
    var h' := Bump(h, nbytes, c).1;
    CountFrame(h.mem, h'.mem, Hs(h), d);
    CountAppend(h'.mem, Hs(h), h.barrier, d);
  }

  lemma BumpValid(h: Heap, nbytes: nat, c: Class)
    requires Valid(h) && Request(nbytes, c)
    ensures Valid(Bump(h, nbytes, c).1)
  {
    hide MakeHeapInfo, SysClass, RefBits, SizeOf;
    var (r, h') := Bump(h, nbytes, c);
    if r.Some? {
      BumpWalk(h, nbytes, c);
      forall d | d != UNNAMED ensures d in h'.counts && h'.counts[d] == Count(h'.mem, Hs(h'), d) {
        BumpCounts(h, nbytes, c, d);
      }
      forall k | k in Hs(h) ensures k < |h.mem| && h'.mem[k] == h.mem[k] {}
      assert FreeOk(h') by {
        assert forall d {:trigger FreeList(h', d)} :: FreeList(h', d) == FreeList(h, d);
      }
    }
  }

  lemma ReuseValid(h: Heap, nbytes: nat, c: Class)
    requires Valid(h) && Request(nbytes, c)
    ensures Valid(Reuse(h, nbytes, c).1)
  {
    if FreeList(h, c) == [] {
      BumpValid(h, nbytes, c);
    } else {
      var h' := Reuse(h, nbytes, c).1;
      forall d ensures Distinct(FreeList(h', d)) && forall k | k in FreeList(h', d) :: k in FreeList(h, d) {
        if d == c {
          assert FreeList(h', d) == FreeList(h, c)[..|FreeList(h, c)| - 1];
        } else {
          assert FreeList(h', d) == FreeList(h, d);
        }
      }
    }
  }

  // ------------------------------------------------------- space conservation

  /** Total bytes of the listed objects. */
  ghost function RoomOfAll(mem: seq<Word>, hs: seq<nat>): nat {
    if hs == [] then 0
    else RoomOfAll(mem, hs[..|hs| - 1]) +
         var k := hs[|hs| - 1]; if k < |mem| then 8 * SizeOf(mem[k]) else 0
  }

  /** Total bytes of the listed objects of one class. */
  ghost function RoomOfClass(mem: seq<Word>, hs: seq<nat>, c: Class): nat {
    if hs == [] then 0
    else RoomOfClass(mem, hs[..|hs| - 1], c) +
         var k := hs[|hs| - 1];
         if k < |mem| && SysClass(mem[k]) == c then 8 * SizeOf(mem[k]) else 0
  }

  ghost function RoomOfClasses(mem: seq<Word>, hs: seq<nat>, cs: seq<Class>): nat {
    if cs == [] then 0
    else RoomOfClasses(mem, hs, cs[..|cs| - 1]) + RoomOfClass(mem, hs, cs[|cs| - 1])
  }

  ghost function Times(c: Class, cs: seq<Class>): nat {
    if cs == [] then 0 else Times(c, cs[..|cs| - 1]) + if cs[|cs| - 1] == c then 1 else 0
  }

  lemma RoomOfOneMore(mem: seq<Word>, done: seq<nat>, k: nat, c: Class)
    requires k < |mem|
    ensures RoomOfClass(mem, done + [k], c) ==
            RoomOfClass(mem, done, c) + if SysClass(mem[k]) == c then 8 * SizeOf(mem[k]) else 0
  {
    assert (done + [k])[..|done|] == done;
  }

  lemma {:induction false} OneMoreObject(mem: seq<Word>, hs: seq<nat>, k: nat, cs: seq<Class>)
    requires k < |mem|
    ensures RoomOfClasses(mem, hs + [k], cs) ==
            RoomOfClasses(mem, hs, cs) + 8 * SizeOf(mem[k]) * Times(SysClass(mem[k]), cs)
  {
    hide SizeOf, SysClass, RoomOfClass;
    if cs != [] {
      OneMoreObject(mem, hs, k, cs[..|cs| - 1]);
      RoomOfOneMore(mem, hs, k, cs[|cs| - 1]);
      Distribute(8 * SizeOf(mem[k]), Times(SysClass(mem[k]), cs[..|cs| - 1]));
    }
  }

  lemma Distribute(n: nat, t: nat)
    ensures n * (t + 1) == n * t + n && n * (t + 0) == n * t
  {
  }

  lemma {:induction false} NoObjects(mem: seq<Word>, cs: seq<Class>)
    ensures RoomOfClasses(mem, [], cs) == 0
  {
    if cs != [] { NoObjects(mem, cs[..|cs| - 1]); }
  }

  lemma EachClassOnce(c: Class)
    requires c != UNNAMED
    ensures Times(c, CLASSES) == 1
  {
    var n := |CLASSES|;
    TimesInTake(c, CLASSES, n);
    assert CLASSES[..n] == CLASSES;
  }

  /** Taking class by class loses and repeats nothing. */
  lemma {:induction false} ClassesPartition(mem: seq<Word>, hs: seq<nat>, cs: seq<Class>)
    requires forall k | k in hs :: k < |mem| && Times(SysClass(mem[k]), cs) == 1
    ensures RoomOfClasses(mem, hs, cs) == RoomOfAll(mem, hs)
  {
    hide SizeOf, SysClass, Times;
    if hs == [] {
      NoObjects(mem, cs);
    } else {
      var n := |hs| - 1;
      assert forall k | k in hs[..n] :: k in hs;
      ClassesPartition(mem, hs[..n], cs);
      assert hs[..n] + [hs[n]] == hs && hs[n] in hs;
      OneMoreObject(mem, hs[..n], hs[n], cs);
    }
  }

  lemma {:induction false} RoomFromFront(mem: seq<Word>, k: nat, hs: seq<nat>)
    requires k < |mem|
    ensures RoomOfAll(mem, [k] + hs) == 8 * SizeOf(mem[k]) + RoomOfAll(mem, hs)
  {
    hide SizeOf;
    if hs != [] {
      var n := |hs| - 1;
      RoomFromFront(mem, k, hs[..n]);
      assert ([k] + hs)[..n + 1] == [k] + hs[..n];
    } else {
      assert ([k] + hs)[..0] == [];
    }
  }

  lemma {:induction false} WalkCoversMemory(mem: seq<Word>, i: nat, barrier: nat)
    requires Chain(mem, i, barrier)
    ensures RoomOfAll(mem, Headers(mem, i, barrier)) == 8 * (barrier - i)
    decreases barrier - i
  {
    hide SizeOf;
    if i < barrier {
      var next := i + SizeOf(mem[i]);
      WalkCoversMemory(mem, next, barrier);
      RoomFromFront(mem, i, Headers(mem, next, barrier));
    }
  }

  /** In every valid heap the bytes counted class by class, the bytes counted
      object by object, and the bytes below the barrier are the same number,
      and they fit the heap. */
  lemma SpaceIsConserved(h: Heap)
    requires Valid(h)
    ensures RoomOfClasses(h.mem, Hs(h), CLASSES) == RoomOfAll(h.mem, Hs(h)) == 8 * h.barrier
    ensures 8 * h.barrier <= 8 * |h.mem|
  {
    hide SizeOf, SysClass, Times;
    forall k | k in Hs(h) ensures k < |h.mem| && Times(SysClass(h.mem[k]), CLASSES) == 1 {
      HeadersInRange(h.mem, 0, h.barrier, k);
      assert IsHeader(h, k);
      EachClassOnce(SysClass(h.mem[k]));
    }
    ClassesPartition(h.mem, Hs(h), CLASSES);
    WalkCoversMemory(h.mem, 0, h.barrier);
  }

  lemma {:induction false} TimesInTake(c: Class, cs: seq<Class>, n: nat)
    requires n <= |cs|
    requires forall i, j | 0 <= i < j < |cs| :: cs[i] != cs[j]
    ensures Times(c, cs[..n]) == if c in cs[..n] then 1 else 0
  {
    if n > 0 {
      TimesInTake(c, cs, n - 1);
      assert cs[..n][..n - 1] == cs[..n - 1];
    }
  }

  /** Whether an object, header and payload rounded up to words, fits beside all
      the bytes allocated so far. */
  ghost predicate FitsBeside(h: Heap, nbytes: nat)
    requires Parses(h)
  {
    RoomOfAll(h.mem, Hs(h)) + 8 + (nbytes + 7) / 8 * 8 <= 8 * |h.mem|
  }

  /** Bump allocation succeeds exactly when the object fits; with reuse a free
      object of the class will do. */
  lemma AllocationSucceeds(h: Heap, nbytes: nat, c: Class)
    requires Valid(h) && c in h.counts
    ensures Bump(h, nbytes, c).0.Some? <==> FitsBeside(h, nbytes)
    ensures Reuse(h, nbytes, c).0.Some? <==> FreeList(h, c) != [] || FitsBeside(h, nbytes)
  {
    hide SizeOf, SysClass, MakeHeapInfo, Headers, Chain, Count, FreeOk;
    SpaceIsConserved(h);
  }

  // -------------------------------------------------------- cells in use, once

  /** Cons cells that are not waiting for reuse. */
  ghost function InUse(h: Heap): set<nat>
    requires Parses(h)
  {
    set k | k in Hs(h) && IsHeader(h, k) && SysClass(h.mem[k]) == CONS && k !in FreeList(h, CONS)
  }

  ghost predicate IsCell(h: Heap, k: nat)
    requires Parses(h)
  {
    IsHeader(h, k) && SysClass(h.mem[k]) == CONS && SizeOf(h.mem[k]) == ObjectWords(CONS_BYTES)
  }

  /** A cons allocation hands out a whole cell that was not in use, and puts
      exactly that cell in use. Every header there was keeps its value. */
  lemma CellIsFresh(h: Heap)
    requires Valid(h) && Reuse(h, CONS_BYTES, CONS).0.Some?
    ensures HandsOut(h, Reuse(h, CONS_BYTES, CONS).0.value, Reuse(h, CONS_BYTES, CONS).1)
  {
    if FreeList(h, CONS) != [] {
      FreeCellIsFresh(h);
    } else {
      NewCellIsFresh(h);
    }
  }

  ghost predicate HandsOut(h: Heap, at: nat, h': Heap)
    requires Parses(h)
  {
    && Valid(h') && at >= 1
    && IsCell(h', at - 1)
    && at - 1 !in InUse(h)
    && InUse(h') == InUse(h) + {at - 1}
    && (forall k | k in Hs(h) :: k in Hs(h') && k < |h.mem| == |h'.mem| && h'.mem[k] == h.mem[k])
  }

  lemma FreeCellIsFresh(h: Heap)
    requires Valid(h) && FreeList(h, CONS) != []
    ensures HandsOut(h, Reuse(h, CONS_BYTES, CONS).0.value, Reuse(h, CONS_BYTES, CONS).1)
  {
    hide MakeHeapInfo, SysClass, RefBits, SizeOf, Count;
    ReuseValid(h, CONS_BYTES, CONS);
    AllHeaders(h);
    var h' := Reuse(h, CONS_BYTES, CONS).1;
    var free := FreeList(h, CONS);
    var k := free[|free| - 1];
    assert Distinct(free) && k in free && IsHeader(h, k);
    assert FreeList(h', CONS) == free[..|free| - 1];
    assert forall j | j in free :: j == k || j in free[..|free| - 1];
    assert k !in free[..|free| - 1];
  }

  lemma NewCellIsFresh(h: Heap)
    requires Valid(h) && FreeList(h, CONS) == [] && Bump(h, CONS_BYTES, CONS).0.Some?
    ensures HandsOut(h, Reuse(h, CONS_BYTES, CONS).0.value, Reuse(h, CONS_BYTES, CONS).1)
  {
    hide MakeHeapInfo, SysClass, RefBits, SizeOf, Count, Headers, Chain, FreeOk;
    BumpValid(h, CONS_BYTES, CONS);
    BumpWalk(h, CONS_BYTES, CONS);
    AllHeaders(h);
    var h' := Bump(h, CONS_BYTES, CONS).1;
    assert FreeList(h', CONS) == [];
    assert IsHeader(h', h.barrier);
  }

  lemma AllHeaders(h: Heap)
    requires Parses(h)
    ensures forall k | k in Hs(h) :: IsHeader(h, k) && k < h.barrier
  {
    forall k | k in Hs(h) ensures IsHeader(h, k) && k < h.barrier {
      HeadersInRange(h.mem, 0, h.barrier, k);
    }
  }

  /** What the library does to the heap between two collections. */
  datatype Op =
    | Other(nbytes: nat, c: Class)
    | Cell
    | Put(at: nat, k: nat, w: Word)

  /** A payload word of an allocated object. */
  ghost predicate InPayload(h: Heap, at: nat, k: nat)
    requires Parses(h)
  {
    at >= 1 && IsHeader(h, at - 1) && k + 1 < SizeOf(h.mem[at - 1])
  }

  function Store(h: Heap, p: nat, w: Word): Heap
    requires p < |h.mem|
  {
    h.(mem := h.mem[p := w])
  }

  lemma PayloadIsNotHeader(h: Heap, at: nat, k: nat)
    requires Parses(h) && InPayload(h, at, k)
    ensures at + k < h.barrier && at + k !in Hs(h)
  {
    hide SizeOf;
    HeadersInRange(h.mem, 0, h.barrier, at - 1);
    NoHeaderInside(h.mem, 0, h.barrier, at - 1, at + k);
  }

  /** Words that are no headers may change: the walk stays the same. */
  lemma SameHeaders(h: Heap, h': Heap)
    requires Parses(h) && |h'.mem| == |h.mem| && h' == h.(mem := h'.mem)
    requires forall k | k in Hs(h) && k < |h.mem| :: h'.mem[k] == h.mem[k]
    ensures Parses(h') && Hs(h') == Hs(h)
    ensures Valid(h) ==> Valid(h') && InUse(h') == InUse(h)
  {
    hide SysClass, RefBits, SizeOf, Count, Valid;
    SameSizesSameWalk(h.mem, h'.mem, 0, h.barrier);
    if Valid(h) { SameHeadersValid(h, h'); }
  }

  lemma SameHeadersValid(h: Heap, h': Heap)
    requires Valid(h) && |h'.mem| == |h.mem| && h' == h.(mem := h'.mem)
    requires forall k | k in Hs(h) && k < |h.mem| :: h'.mem[k] == h.mem[k]
    requires Parses(h') && Hs(h') == Hs(h)
    ensures Valid(h') && InUse(h') == InUse(h)
  {
    hide SysClass, RefBits, SizeOf, Headers, Count;
    assert forall k: nat | IsHeader(h', k) :: IsHeader(h, k) && h'.mem[k] == h.mem[k];
    assert forall k: nat | IsHeader(h, k) :: IsHeader(h', k);
    forall c: Class | c != UNNAMED ensures c in h'.counts && h'.counts[c] == Count(h'.mem, Hs(h'), c) {
      CountFrame(h.mem, h'.mem, Hs(h), c);
    }
    assert forall c {:trigger FreeList(h', c)} :: FreeList(h', c) == FreeList(h, c);
  }

  /** Writing a payload word disturbs no header. */
  lemma StoreKeepsWalk(h: Heap, p: nat, w: Word)
    requires Parses(h) && p < |h.mem| && p !in Hs(h)
    ensures Parses(Store(h, p, w)) && Hs(Store(h, p, w)) == Hs(h)
    ensures Valid(h) ==> Valid(Store(h, p, w)) && InUse(Store(h, p, w)) == InUse(h)
  {
    hide SysClass, RefBits, SizeOf, Count, Valid, Headers, Chain;
    SameHeaders(h, Store(h, p, w));
  }

  /** One operation: the cell handed out, if any, and the heap after it. */
  ghost function Step(h: Heap, op: Op): (Option<nat>, Heap)
    requires Valid(h)
  {
    match op
    case Other(nbytes, c) =>
      (None, if Request(nbytes, c) && c != CONS then Bump(h, nbytes, c).1 else h)
    case Cell =>
      var (r, h') := Reuse(h, CONS_BYTES, CONS);
      (if r.Some? && r.value >= 1 then Some(r.value - 1) else None, h')
    case Put(at, k, w) =>
      (None, if InPayload(h, at, k) && at + k < |h.mem| then Store(h, at + k, w) else h)
  }

  ghost predicate StepKeeps(h: Heap, r: Option<nat>, h': Heap)
    requires Parses(h)
  {
    && Valid(h')
    && InUse(h') == InUse(h) + (if r.Some? then {r.value} else {})
    && (r.Some? ==> r.value !in InUse(h) && IsCell(h', r.value))
    && (forall k | IsCell(h, k) :: IsCell(h', k))
  }

  lemma StepInvariant(h: Heap, op: Op)
    requires Valid(h)
    ensures StepKeeps(h, Step(h, op).0, Step(h, op).1)
  {
    hide MakeHeapInfo, SysClass, RefBits, SizeOf, Count, Bump, Reuse, FreeOk;
    match op
    case Other(nbytes, c) =>
      if Request(nbytes, c) && c != CONS {
        OtherInvariant(h, nbytes, c);
      }
    case Cell =>
      if Reuse(h, CONS_BYTES, CONS).0.Some? {
        CellIsFresh(h);
      } else {
        FullHeap(h);
      }
    case Put(at, k, w) =>
      if InPayload(h, at, k) {
        PayloadIsNotHeader(h, at, k);
        StoreKeepsWalk(h, at + k, w);
        AllHeaders(h);
      }
  }

  lemma FullHeap(h: Heap)
    requires Valid(h) && Reuse(h, CONS_BYTES, CONS).0.None?
    ensures Reuse(h, CONS_BYTES, CONS).1 == h
  {
  }

  lemma OtherInvariant(h: Heap, nbytes: nat, c: Class)
    requires Valid(h) && Request(nbytes, c) && c != CONS
    ensures StepKeeps(h, None, Bump(h, nbytes, c).1)
  {
    hide MakeHeapInfo, SysClass, RefBits, SizeOf, Count;
    BumpValid(h, nbytes, c);
    AllHeaders(h);
    var h' := Bump(h, nbytes, c).1;
    if Bump(h, nbytes, c).0.Some? {
      BumpWalk(h, nbytes, c);
      assert FreeList(h', CONS) == FreeList(h, CONS);
    }
  }

  /** The cells handed out by a run, in order, and the heap at its end. */
  ghost function Run(h: Heap, ops: seq<Op>): (r: (seq<nat>, Heap))
    requires Valid(h)
    ensures Valid(r.1)
    decreases |ops|
  {
    if ops == [] then ([], h)
    else
      assert Valid(Step(h, ops[0]).1) by { StepInvariant(h, ops[0]); }
      var (r, h') := Step(h, ops[0]);
      var (cells, end) := Run(h', ops[1..]);
      (if r.Some? then [r.value] + cells else cells, end)
  }

  /** Over any run of allocations and payload writes between two collections no
      cons cell is handed out twice, none was in use at the start, and exactly
      the cells handed out have come into use. */
  lemma {:induction false} NoCellTwice(h: Heap, ops: seq<Op>)
    requires Valid(h)
    ensures var (cells, end) := Run(h, ops);
            && Distinct(cells)
            && (forall k | k in cells :: k !in InUse(h) && IsCell(end, k))
            && (forall k | IsCell(h, k) :: IsCell(end, k))
            && InUse(end) == InUse(h) + (set k | k in cells)
    decreases |ops|
  {
    hide Step, IsCell, InUse, Valid;
    if ops != [] {
      StepInvariant(h, ops[0]);
      var (r, h') := Step(h, ops[0]);
      NoCellTwice(h', ops[1..]);
      var (cells, end) := Run(h', ops[1..]);
      assert Parses(h) && Parses(end) by { ValidParses(h); ValidParses(end); }
      OneMoreCell(h, r, h', cells, end);
    }
  }

  lemma ValidParses(h: Heap)
    ensures Valid(h) ==> Parses(h)
  {
  }

  /** A step before a run whose cells are distinct and fresh. */
  lemma OneMoreCell(h: Heap, r: Option<nat>, h': Heap, cells: seq<nat>, end: Heap)
    requires Parses(h) && Parses(end) && StepKeeps(h, r, h') && Distinct(cells)
    requires forall k | k in cells :: k !in InUse(h') && IsCell(end, k)
    requires forall k | IsCell(h', k) :: IsCell(end, k)
    requires InUse(end) == InUse(h') + (set k | k in cells)
    ensures var all := if r.Some? then [r.value] + cells else cells;
            && Distinct(all)
            && (forall k | k in all :: k !in InUse(h) && IsCell(end, k))
            && (forall k | IsCell(h, k) :: IsCell(end, k))
            && InUse(end) == InUse(h) + (set k | k in all)
  {
    hide IsCell, InUse, Valid;
    if r.Some? { assert r.value !in cells; }
  }

  // ----------------------------------------------------------- marks and sweep

  /** Marked headers. */
  ghost function Marked(h: Heap): set<nat>
    requires Parses(h)
  {
    set k | k in Hs(h) && IsHeader(h, k) && RefBits(h.mem[k]) != 0
  }

  /** h' differs from h in reference bits and free lists only. */
  ghost predicate SameButMarks(h: Heap, h': Heap)
    requires Parses(h)
  {
    && |h'.mem| == |h.mem| && h'.barrier == h.barrier && h'.counts == h.counts
    && forall p: nat | p < |h.mem| ::
         if p in Hs(h)
         then SizeOf(h'.mem[p]) == SizeOf(h.mem[p]) && SysClass(h'.mem[p]) == SysClass(h.mem[p])
         else h'.mem[p] == h.mem[p]
  }

  lemma SameButMarksWalk(h: Heap, h': Heap)
    requires Parses(h) && SameButMarks(h, h')
    ensures Parses(h') && Hs(h') == Hs(h)
    ensures Valid(h) && FreeOk(h') ==> Valid(h')
  {
    hide SizeOf, SysClass, RefBits;
    AllHeaders(h);
    SameSizesSameWalk(h.mem, h'.mem, 0, h.barrier);
    if Valid(h) && FreeOk(h') {
      forall c: Class | c != UNNAMED ensures c in h'.counts && h'.counts[c] == Count(h'.mem, Hs(h'), c) {
        CountFrame(h.mem, h'.mem, Hs(h), c);
      }
      assert forall k: nat | IsHeader(h', k) :: IsHeader(h, k);
    }
  }

  lemma SameButMarksTransitive(h: Heap, h': Heap, h'': Heap)
    requires Parses(h) && SameButMarks(h, h') && Parses(h') && SameButMarks(h', h'')
    ensures SameButMarks(h, h'')
  {
    hide SizeOf, SysClass, RefBits;
    SameButMarksWalk(h, h');
  }

  /** Rewriting one header's reference bits. */
  lemma SetMark(h: Heap, k: nat, bits: Word)
    requires Parses(h) && IsHeader(h, k) && bits <= 0xff
    ensures var h' := h.(mem := h.mem[k := SetRefBits(h.mem[k], bits)]);
            && SameButMarks(h, h') && Parses(h') && Hs(h') == Hs(h)
            && RefBits(h'.mem[k]) == bits
            && Marked(h') == if bits == 0 then Marked(h) - {k} else Marked(h) + {k}
  {
    hide SizeOf, SysClass, RefBits, SetRefBits;
    SetRefBitsFields(h.mem[k], bits);
    var h' := h.(mem := h.mem[k := SetRefBits(h.mem[k], bits)]);
    assert SameButMarks(h, h');
    SameButMarksWalk(h, h');
  }

  lemma {:induction false} UnmarkedMembers(mem: seq<Word>, hs: seq<nat>, c: Class)
    ensures forall k :: k in Unmarked(mem, hs, c) <==>
              k in hs && k < |mem| && SysClass(mem[k]) == c && RefBits(mem[k]) == 0
    ensures Distinct(hs) ==> Distinct(Unmarked(mem, hs, c))
  {
    hide SysClass, RefBits;
    if hs != [] {
      var n := |hs| - 1;
      UnmarkedMembers(mem, hs[..n], c);
      assert hs == hs[..n] + [hs[n]];
      assert forall k :: k in hs <==> k in hs[..n] || k == hs[n];
    }
  }

  lemma HeadersDistinct(h: Heap)
    requires Parses(h)
    ensures Distinct(Hs(h))
  {
    forall i, j | 0 <= i < j < |Hs(h)| ensures Hs(h)[i] != Hs(h)[j] {
      HeadersIncrease(h.mem, 0, h.barrier, i, j);
    }
  }

  /** A sweep that starts from empty lists puts each unmarked object, once, on
      the list of its class. */
  lemma SweptIsFreeOk(h: Heap)
    requires Parses(h)
    requires forall c: Class {:trigger FreeList(h, c)} :: FreeList(h, c) == Unmarked(h.mem, Hs(h), c)
    ensures FreeOk(h)
  {
    hide SysClass, RefBits, SizeOf;
    HeadersDistinct(h);
    forall c: Class
      ensures Distinct(FreeList(h, c))
      ensures forall k | k in FreeList(h, c) ::
                IsHeader(h, k) && SysClass(h.mem[k]) == c && RefBits(h.mem[k]) == 0
    {
      UnmarkedMembers(h.mem, Hs(h), c);
    }
  }
}
