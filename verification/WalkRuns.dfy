// The header walk over whole runs: whatever is allocated, written, marked and
// cleared, the iterator visits exactly the allocated headers, in the order they
// were allocated.

module WalkRuns {
  import opened Options
  import opened Words
  import opened HeapInfo
  import opened Walk
  import opened Mapped

  /** What a mutator and a collector do to the heap's memory. */
  datatype Event =
    | Allocate(nbytes: nat, c: Class)
    | Write(at: nat, k: nat, w: Word)
    | MarkHeader(at: nat, bits: Word)

  /** One event; one aimed outside what is allocated does nothing. */
  ghost function Happen(h: Heap, e: Event): Heap
    requires Parses(h)
  {
    match e
    case Allocate(nbytes, c) =>
      if Request(nbytes, c) && c in h.counts then Bump(h, nbytes, c).1 else h
    case Write(at, k, w) =>
      if InPayload(h, at, k) && at + k < |h.mem| then Store(h, at + k, w) else h
    case MarkHeader(at, bits) =>
      if IsHeader(h, at) && bits <= 0xff then h.(mem := h.mem[at := SetRefBits(h.mem[at], bits)]) else h
  }

  /** The header an event allocates: none, or the one at the old barrier. */
  ghost function Placed(h: Heap, e: Event): seq<nat>
    requires Parses(h)
  {
    if e.Allocate? && Request(e.nbytes, e.c) && e.c in h.counts && Bump(h, e.nbytes, e.c).0.Some?
    then [h.barrier] else []
  }

  /** Headers already there keep their class and size. */
  ghost predicate SameObjects(h: Heap, h': Heap)
    requires Parses(h)
  {
    |h'.mem| == |h.mem| && h.barrier <= h'.barrier &&
    forall k | k in Hs(h) && k < |h.mem| ::
      SizeOf(h'.mem[k]) == SizeOf(h.mem[k]) && SysClass(h'.mem[k]) == SysClass(h.mem[k])
  }

  lemma AllocateEvent(h: Heap, nbytes: nat, c: Class)
    requires Parses(h) && Request(nbytes, c) && c in h.counts && Bump(h, nbytes, c).0.Some?
    ensures var h' := Bump(h, nbytes, c).1;
            Parses(h') && Hs(h') == Hs(h) + [h.barrier] && SameObjects(h, h')
  {
    hide MakeHeapInfo, SysClass, RefBits, SizeOf, Chain, Headers;
    BumpWalk(h, nbytes, c);
  }

  lemma FullEvent(h: Heap, nbytes: nat, c: Class)
    requires c in h.counts && Bump(h, nbytes, c).0.None?
    ensures Bump(h, nbytes, c).1 == h
  {
  }

  lemma WriteEvent(h: Heap, at: nat, k: nat, w: Word)
    requires Parses(h) && InPayload(h, at, k) && at + k < |h.mem|
    ensures var h' := Store(h, at + k, w);
            Parses(h') && Hs(h') == Hs(h) && SameObjects(h, h')
  {
    hide SysClass, RefBits, SizeOf, Chain, Headers, InPayload;
    PayloadIsNotHeader(h, at, k);
    StoreKeepsWalk(h, at + k, w);
  }

  lemma MarkEvent(h: Heap, at: nat, bits: Word)
    requires Parses(h) && IsHeader(h, at) && bits <= 0xff
    ensures var h' := h.(mem := h.mem[at := SetRefBits(h.mem[at], bits)]);
            Parses(h') && Hs(h') == Hs(h) && SameObjects(h, h')
  {
    hide SysClass, RefBits, SizeOf, SetRefBits, Chain, Headers, Marked;
    SetMark(h, at, bits);
  }

  lemma NothingHappens(h: Heap)
    requires Parses(h)
    ensures SameObjects(h, h) && Hs(h) + [] == Hs(h)
  {
  }

  lemma OneEvent(h: Heap, e: Event)
    requires Parses(h)
    ensures var h' := Happen(h, e);
            Parses(h') && Hs(h') == Hs(h) + Placed(h, e) && SameObjects(h, h')
  {
    hide SysClass, RefBits, SizeOf, SetRefBits, Chain, Headers, InPayload, IsHeader, Store, SameObjects, Hs,
         Bump, Request;
    NothingHappens(h);
    match e
    case Allocate(nbytes, c) =>
      if Request(nbytes, c) && c in h.counts {
        if Bump(h, nbytes, c).0.Some? { AllocateEvent(h, nbytes, c); } else { FullEvent(h, nbytes, c); }
      }
    case Write(at, k, w) =>
      if InPayload(h, at, k) && at + k < |h.mem| { WriteEvent(h, at, k, w); }
    case MarkHeader(at, bits) =>
      if IsHeader(h, at) && bits <= 0xff { MarkEvent(h, at, bits); }
  }

  ghost function RunEvents(h: Heap, es: seq<Event>): (end: Heap)
    requires Parses(h)
    ensures Parses(end)
    decreases |es|
  {
    if es == [] then h
    else
      OneEvent(h, es[0]);
      RunEvents(Happen(h, es[0]), es[1..])
  }

  /** The headers a run allocates, in order. */
  ghost function AllPlaced(h: Heap, es: seq<Event>): seq<nat>
    requires Parses(h)
    decreases |es|
  {
    if es == [] then []
    else
      OneEvent(h, es[0]);
      Placed(h, es[0]) + AllPlaced(Happen(h, es[0]), es[1..])
  }

  /** The walk refines the history of allocation: over any run its headers are
      those it started with and then those the run allocated, in order, and no
      object's class or size has changed. */
  lemma {:induction false} WalkIsAllocationOrder(h: Heap, es: seq<Event>)
    requires Parses(h)
    ensures Hs(RunEvents(h, es)) == Hs(h) + AllPlaced(h, es)
    ensures SameObjects(h, RunEvents(h, es))
    decreases |es|
  {
    hide Happen, Placed, SizeOf, SysClass, Headers, Chain;
    if es == [] {
      assert Hs(h) + [] == Hs(h);
    } else {
      OneEvent(h, es[0]);
      var h' := Happen(h, es[0]);
      WalkIsAllocationOrder(h', es[1..]);
      assert forall k | k in Hs(h) :: k in Hs(h');
      assert Hs(h) + (Placed(h, es[0]) + AllPlaced(h', es[1..])) == Hs(h) + Placed(h, es[0]) + AllPlaced(h', es[1..]);
    }
  }
}
