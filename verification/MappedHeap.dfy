// The mapped heap as the object the library updates in place: an array of words,
// a barrier, free lists and counters.

module MappedHeap {
  import opened Options
  import opened Words
  import opened HeapInfo
  import opened Walk
  import opened Mapped

  class HeapObject {
    const mem: array<Word>
    var barrier: nat
    var free: map<Class, seq<nat>>
    var counts: map<Class, nat>

    /** The heap's contents as a value. */
    function State(): Heap
      reads this, mem
    {
      Heap(mem[..], barrier, free, counts)
    }

    /** Fresh pages are zero; nothing is allocated. */
    constructor (words: nat)
      requires words < 0x2000_0000
      ensures fresh(mem) && mem.Length == words
      ensures Valid(State()) && barrier == 0 && (words > 0 ==> Walkable())
    {
      mem := new Word[words](_ => 0);
      barrier := 0;
      free := map[];
      counts := map[FIXNUM := 0, CHAR := 0, VECTOR := 0, SYMBOL := 0, FLOAT := 0, CONS := 0,
                    DOUBLE := 0, EXCEPTION := 0, FUNCTION := 0, NAMESPACE := 0, STREAM := 0,
                    BYTE := 0, T := 0];
      new;
      assert forall c: Class {:trigger FreeList(State(), c)} :: FreeList(State(), c) == [];
    }

    /** Mapped::Alloc */
    method Alloc(nbytes: nat, c: Class) returns (at: Option<nat>)
      requires Valid(State()) && Request(nbytes, c)
      modifies this, mem
      ensures (at, State()) == old(Bump(State(), nbytes, c))
      ensures Valid(State()) && (at.Some? <==> old(FitsBeside(State(), nbytes)))
    {
      hide Valid, MakeHeapInfo, FitsBeside;
      Counted(State(), c);
      AllocationSucceeds(State(), nbytes, c);
      BumpValid(State(), nbytes, c);
      var words := ObjectWords(nbytes);
      if barrier + words > mem.Length {
        return None;
      }
      var info := barrier;
      mem[info] := MakeHeapInfo(8 * words, c);
      barrier := barrier + words;
      counts := counts[c := counts[c] + 1];
      return Some(info + 1);
    }

    /** Heap::GcAlloc */
    method GcAlloc(nbytes: nat, c: Class) returns (at: Option<nat>)
      requires Valid(State()) && Request(nbytes, c)
      modifies this, mem
      ensures (at, State()) == old(Reuse(State(), nbytes, c))
      ensures Valid(State())
      ensures at.Some? <==> old(FreeList(State(), c) != [] || FitsBeside(State(), nbytes))
    {
      hide Valid, FitsBeside;
      Counted(State(), c);
      AllocationSucceeds(State(), nbytes, c);
      ReuseValid(State(), nbytes, c);
      if c in free && free[c] != [] {
        var n := |free[c]|;
        var info := free[c][n - 1];
        free := free[c := free[c][..n - 1]];
        return Some(info + 1);
      }
      at := Alloc(nbytes, c);
    }

    /** Writing one payload word of an object. */
    method Put(at: nat, k: nat, w: Word)
      requires Valid(State()) && InPayload(State(), at, k)
      modifies mem
      ensures at + k < mem.Length && State() == old(Store(State(), at + k, w))
      ensures Valid(State())
    {
      PayloadIsNotHeader(State(), at, k);
      StoreKeepsWalk(State(), at + k, w);
      mem[at + k] := w;
    }

    /** An iterator position: a header the walk can continue from, or the end. */
    ghost predicate Walking(it: Option<nat>)
      reads this, mem
    {
      it.Some? ==> it.value < barrier && Chain(mem[..], it.value, barrier)
    }

    /** The headers an iterator has yet to visit, its own first. */
    ghost function ToVisit(it: Option<nat>): seq<nat>
      requires Walking(it)
      reads this, mem
    {
      if it.Some? then Headers(mem[..], it.value, barrier) else []
    }

    /** heapinfo_iter::operator++ */
    method Next(i: nat) returns (next: Option<nat>)
      requires Walking(Some(i))
      ensures i < mem.Length && SizeOf(mem[i]) >= 1
      ensures Walking(next) && ToVisit(Some(i)) == [i] + ToVisit(next)
      ensures next == if i + SizeOf(mem[i]) < barrier then Some(i + SizeOf(mem[i])) else None
      ensures next.None? ==> i + SizeOf(mem[i]) == barrier
    {
      hide SizeOf;
      var j := i + SizeOf(mem[i]);
      assert Chain(mem[..], j, barrier);
      assert Headers(mem[..], i, barrier) == [i] + Headers(mem[..], j, barrier);
      next := if j >= barrier then None else Some(j);
    }

    /** Something has been allocated, or the first word is still the zero of a
        fresh page: the iterator visits it all the same. */
    predicate Walkable()
      reads this, mem
    {
      barrier > 0 || (mem.Length > 0 && mem[0] == 0)
    }

    /** Room(): walk every header and add up the sizes. */
    method Room() returns (nbytes: nat)
      requires Valid(State()) && Walkable()
      ensures nbytes == RoomOfAll(mem[..], Hs(State())) == 8 * barrier
    {
      hide SizeOf, SysClass, RefBits;
      nbytes := 0;
      if barrier == 0 {
        ZeroIsEmpty();
        return 8 * SizeOf(mem[0]);
      }
      var it: Option<nat> := Some(0);
      while it.Some?
        invariant Walking(it)
        invariant nbytes == 8 * (if it.Some? then it.value else barrier)
        decreases |ToVisit(it)|
      {
        nbytes := nbytes + 8 * SizeOf(mem[it.value]);
        it := Next(it.value);
      }
      SpaceIsConserved(State());
    }

    /** Room(class): the same walk, counting one class. */
    method RoomOf(c: Class) returns (nbytes: nat)
      requires Valid(State()) && Walkable()
      ensures nbytes == RoomOfClass(mem[..], Hs(State()), c)
    {
      hide SizeOf, SysClass, RoomOfClass, Headers, Valid, Chain;
      ValidParses(State());
      ghost var h := State();
      nbytes := 0;
      RoomOfNone(h.mem, c);
      if barrier == 0 {
        ZeroIsEmpty();
        NoHeaders(h);
        return if c == SysClass(mem[0]) then 8 * SizeOf(mem[0]) else 0;
      }
      var it: Option<nat> := Some(0);
      ghost var done: seq<nat> := [];
      while it.Some?
        invariant Walking(it) && Hs(h) == done + ToVisit(it)
        invariant nbytes == RoomOfClass(h.mem, done, c)
        decreases |ToVisit(it)|
      {
        ChainFits(h.mem, it.value, barrier);
        RoomOfOneMore(h.mem, done, it.value, c);
        if c == SysClass(mem[it.value]) {
          nbytes := nbytes + 8 * SizeOf(mem[it.value]);
        }
        ghost var k := it.value;
        it := Next(it.value);
        VisitNext(done, k, ToVisit(it));
        done := done + [k];
      }
      assert done == Hs(h);
    }

    /** Heap::GcMark on the object whose header is k. */
    method GcMark(k: nat)
      requires Valid(State()) && IsHeader(State(), k) && free == map[]
      modifies mem
      ensures Valid(State()) && SameButMarks(old(State()), State())
      ensures Hs(State()) == old(Hs(State())) && Marked(State()) == old(Marked(State())) + {k}
    {
      hide SizeOf, SysClass, RefBits, SetRefBits;
      SetMark(State(), k, 1);
      NoFreeLists(State().(mem := mem[..][k := SetRefBits(mem[k], 1)]));
      SameButMarksWalk(State(), State().(mem := mem[..][k := SetRefBits(mem[k], 1)]));
      mem[k] := SetRefBits(mem[k], 1);
    }

    /** One object of the clearing: its bits go, and the walk stays the same. */
    method ClearObject(k: nat, ghost h0: Heap, ghost done: seq<nat>)
      requires Parses(h0) && Cleared(h0, State(), done) && Walking(Some(k))
      requires Parses(State()) && Hs(State()) == done + ToVisit(Some(k))
      modifies mem
      ensures Cleared(h0, State(), done + [k]) && Walking(Some(k))
      ensures Parses(State()) && Hs(State()) == done + ToVisit(Some(k))
      ensures ToVisit(Some(k)) == old(ToVisit(Some(k)))
    {
      hide Cleared, Valid, Chain, Headers, SetRefBits, Marked, Suffix;
      ghost var before := State();
      VisitedIsHeader(before, done, k);
      ClearOne(h0, before, done, k);
      mem[k] := SetRefBits(mem[k], 0);
      assert State() == WithMark(before, k, 0);
      ClearedWalk(h0, before, done);
      ClearedWalk(h0, State(), done + [k]);
    }

    /** Heap::Gc: drop the free lists and clear every header's reference bits. */
    method Gc()
      requires Valid(State()) && 0 < barrier
      modifies this, mem
      ensures Valid(State()) && SameButMarks(old(State()), State())
      ensures Hs(State()) == old(Hs(State())) && Marked(State()) == {} && free == map[]
    {
      hide Cleared, Valid, Chain, Headers, Marked, SameButMarks;
      ghost var h0 := State();
      ValidParses(h0);
      free := map[];
      NothingCleared(h0);
      ClearedWalk(h0, State(), []);
      var it: Option<nat> := Some(0);
      ghost var done: seq<nat> := [];
      while it.Some?
        invariant free == map[] && Cleared(h0, State(), done) && Parses(State())
        invariant Walking(it) && Hs(State()) == done + ToVisit(it)
        decreases |ToVisit(it)|
      {
        var k := it.value;
        ClearObject(k, h0, done);
        it := Next(k);
        VisitNext(done, k, ToVisit(it));
        done := done + [k];
      }
      AllCleared(h0, State(), done);
    }

    /** One object of the sweep. */
    method SweepObject(k: nat, ghost done: seq<nat>)
      requires k < mem.Length && Swept(State(), done)
      modifies this`free
      ensures Swept(State(), done + [k])
    {
      hide SysClass, RefBits, Swept;
      SweepOne(State(), done, k);
      var info := mem[k];
      if RefBits(info) == 0 {
        var c := SysClass(info);
        free := free[c := (if c in free then free[c] else []) + [k]];
      }
    }

    /** Heap::GcSweep: push every unmarked object on the list of its class. */
    method GcSweep()
      requires Valid(State()) && 0 < barrier && free == map[]
      modifies this
      ensures Valid(State()) && mem[..] == old(mem[..]) && barrier == old(barrier) && counts == old(counts)
      ensures Swept(State(), Hs(State()))
    {
      hide SizeOf, SysClass, RefBits, Headers, Unmarked, FreeOk, Count, Swept, FreeList;
      var it: Option<nat> := Some(0);
      ghost var done: seq<nat> := [];
      NothingSwept(State());
      while it.Some?
        invariant mem[..] == old(mem[..]) && barrier == old(barrier) && counts == old(counts)
        invariant Parses(State()) && Walking(it) && Hs(State()) == done + ToVisit(it)
        invariant Swept(State(), done)
        decreases |ToVisit(it)|
      {
        SweepObject(it.value, done);
        done := done + [it.value];
        it := Next(it.value);
      }
      assert done == Hs(State());
      SweptIsValid(old(State()), State());
    }
  }

  lemma NoHeaders(h: Heap)
    requires Parses(h) && h.barrier == 0
    ensures Hs(h) == []
  {
  }

  lemma VisitNext(done: seq<nat>, k: nat, rest: seq<nat>)
    ensures done + ([k] + rest) == (done + [k]) + rest
  {
  }

  lemma ChainFits(mem: seq<Word>, i: nat, barrier: nat)
    requires Chain(mem, i, barrier)
    ensures i <= barrier <= |mem|
  {
  }

  lemma ZeroIsEmpty()
    ensures SizeOf(0) == 0
  {
  }

  lemma RoomOfNone(mem: seq<Word>, c: Class)
    ensures RoomOfClass(mem, [], c) == 0
  {
  }

  lemma NoFreeLists(h: Heap)
    requires Parses(h) && h.free == map[]
    ensures FreeOk(h)
  {
    assert forall c: Class {:trigger FreeList(h, c)} :: FreeList(h, c) == [];
  }

  ghost function WithMark(h: Heap, k: nat, bits: Word): Heap
    requires k < |h.mem|
  {
    h.(mem := h.mem[k := SetRefBits(h.mem[k], bits)])
  }

  /** Part of the way through clearing: the walk so far carries no marks. */
  ghost predicate Cleared(h0: Heap, h: Heap, done: seq<nat>)
    requires Parses(h0)
  {
    && SameButMarks(h0, h) && Valid(h) && h.free == map[] && Hs(h) == Hs(h0)
    && forall k | k in done :: k !in Marked(h)
  }

  lemma VisitedIsHeader(h: Heap, done: seq<nat>, k: nat)
    requires Parses(h) && k < h.barrier && Chain(h.mem, k, h.barrier)
    requires Hs(h) == done + Headers(h.mem, k, h.barrier)
    ensures IsHeader(h, k) && Suffix(h, k)
  {
    hide SizeOf;
    assert Headers(h.mem, k, h.barrier)[0] == k;
    assert Hs(h)[|done|] == k;
  }

  lemma NothingCleared(h: Heap)
    requires Valid(h)
    ensures Cleared(h, h.(free := map[]), [])
  {
    hide SizeOf, SysClass, RefBits;
    NoFreeLists(h.(free := map[]));
    SameButMarksWalk(h, h.(free := map[]));
  }

  lemma ClearOne(h0: Heap, h: Heap, done: seq<nat>, k: nat)
    requires Parses(h0) && Cleared(h0, h, done) && IsHeader(h, k)
    ensures Cleared(h0, WithMark(h, k, 0), done + [k])
    ensures forall i: nat | Chain(h.mem, i, h.barrier) && Suffix(h, i) ::
              && Chain(WithMark(h, k, 0).mem, i, h.barrier)
              && Headers(WithMark(h, k, 0).mem, i, h.barrier) == Headers(h.mem, i, h.barrier)
  {
    hide SizeOf, SysClass, RefBits, SetRefBits;
    var h' := WithMark(h, k, 0);
    SetMark(h, k, 0);
    NoFreeLists(h');
    SameButMarksWalk(h, h');
    SameButMarksTransitive(h0, h, h');
    forall i: nat | Chain(h.mem, i, h.barrier) && Suffix(h, i)
      ensures Chain(h'.mem, i, h.barrier)
      ensures Headers(h'.mem, i, h.barrier) == Headers(h.mem, i, h.barrier)
    {
      SameSizesSameWalk(h.mem, h'.mem, i, h.barrier);
    }
  }

  /** What the walk has left from i is part of the whole walk. */
  ghost predicate Suffix(h: Heap, i: nat)
    requires Parses(h) && Chain(h.mem, i, h.barrier)
  {
    forall k | k in Headers(h.mem, i, h.barrier) :: k in Hs(h)
  }

  lemma ClearedWalk(h0: Heap, h: Heap, done: seq<nat>)
    requires Parses(h0) && Cleared(h0, h, done)
    ensures Parses(h) && Hs(h) == Hs(h0)
  {
  }

  lemma AllCleared(h0: Heap, h: Heap, done: seq<nat>)
    requires Parses(h0) && Cleared(h0, h, done) && done == Hs(h)
    ensures Valid(h) && SameButMarks(h0, h) && Hs(h) == Hs(h0) && Marked(h) == {} && h.free == map[]
  {
    hide SizeOf, SysClass, RefBits, Headers, Chain;
  }

  /** Part of the way through the sweep. */
  ghost predicate Swept(h: Heap, done: seq<nat>) {
    forall c: Class {:trigger FreeList(h, c)} :: FreeList(h, c) == Unmarked(h.mem, done, c)
  }

  lemma NothingSwept(h: Heap)
    requires h.free == map[]
    ensures Swept(h, [])
  {
  }

  lemma SweepOne(h: Heap, done: seq<nat>, k: nat)
    requires Swept(h, done) && k < |h.mem|
    ensures var c := SysClass(h.mem[k]);
            var free := h.free[c := FreeList(h, c) + [k]];
            Swept(if RefBits(h.mem[k]) == 0 then h.(free := free) else h, done + [k])
  {
    hide SysClass, RefBits;
    var info := h.mem[k];
    var h' := if RefBits(info) == 0
              then h.(free := h.free[SysClass(info) := FreeList(h, SysClass(info)) + [k]]) else h;
    assert (done + [k])[..|done|] == done;
    forall c: Class ensures FreeList(h', c) == Unmarked(h'.mem, done + [k], c) {
      assert FreeList(h, c) == Unmarked(h.mem, done, c);
      assert FreeList(h', c) == FreeList(h, c) +
                                if RefBits(info) == 0 && SysClass(info) == c then [k] else [];
    }
  }

  lemma SweptIsValid(h0: Heap, h: Heap)
    requires Valid(h0) && h.mem == h0.mem && h.barrier == h0.barrier && h.counts == h0.counts
    requires Swept(h, Hs(h0))
    ensures Valid(h)
  {
    hide SizeOf, SysClass, RefBits;
    assert SameButMarks(h0, h);
    SweptIsFreeOk(h);
    SameButMarksWalk(h0, h);
  }
}
