// The list operations of type/cons.cc run against the mapped heap.

module Lists {
  import opened Options
  import opened Words
  import opened HeapInfo
  import opened Mapped
  import opened MappedHeap
  import opened Graph
  import opened Conses

  /** Cons::car */
  method LoadCar(heap: HeapObject, w: Word) returns (car: Word)
    requires Valid(heap.State()) && Live(heap.State(), w)
    ensures car == Car(heap.State(), w)
  {
    car := if IsIndirect(w) then heap.mem[At(w)] else UnpackCar(w);
  }

  /** Cons::cdr */
  method LoadCdr(heap: HeapObject, w: Word) returns (cdr: Word)
    requires Valid(heap.State()) && Live(heap.State(), w)
    ensures cdr == Cdr(heap.State(), w)
  {
    cdr := if IsIndirect(w) then heap.mem[At(w) + 1] else UnpackCdr(w);
  }

  /** Writing the two halves of a cell. */
  method FillCell(heap: HeapObject, at: nat, car: Word, cdr: Word)
    requires at + 1 < heap.mem.Length
    modifies heap.mem
    ensures heap.State() == old(Store(Store(heap.State(), at, car), at + 1, cdr))
  {
    heap.mem[at] := car;
    heap.mem[at + 1] := cdr;
  }

  /** Cons::Heap; no tag means the heap is exhausted. */
  method MakeCons(heap: HeapObject, car: Word, cdr: Word) returns (w: Option<Word>)
    requires Valid(heap.State())
    modifies heap, heap.mem
    ensures (w, heap.State()) == old(Cons(heap.State(), car, cdr))
    ensures Valid(heap.State())
    ensures w.Some? <==> (Packable(car) && Packable(cdr)) || old(Cells(heap.State())) > 0
  {
    hide Valid, Cells, Packable, PackCons, TagAt, Reuse, Cons, FitsBeside, IsCell;
    ghost var before := heap.State();
    ConsTakesOne(before, car, cdr);
    ConsIsValid(before, car, cdr);
    ConsCases(before, car, cdr);
    if Packable(car) && Packable(cdr) {
      return Some(PackCons(car, cdr));
    }
    ReuseTakesOne(before);
    var at := heap.GcAlloc(CONS_BYTES, CONS);
    if at.None? {
      return None;
    }
    ConsFills(before, car, cdr);
    FillCell(heap, at.value, car, cdr);
    return Some(TagAt(at.value as Word, CONS));
  }

  /** A cons that needs no cell, and one that gets none. */
  lemma ConsCases(h: Heap, car: Word, cdr: Word)
    requires Valid(h)
    ensures CONS in h.counts
    ensures Packable(car) && Packable(cdr) ==> Cons(h, car, cdr) == (Some(PackCons(car, cdr)), h)
    ensures !(Packable(car) && Packable(cdr)) && Reuse(h, CONS_BYTES, CONS).0.None? ==>
              Cons(h, car, cdr) == (None, Reuse(h, CONS_BYTES, CONS).1)
  {
    hide Packable, PackCons, TagAt, Reuse, HandsOut, IsCell;
  }

  /** Cons::List: cons the elements on, last first. */
  method MakeList(heap: HeapObject, v: seq<Word>) returns (w: Option<Word>)
    requires Valid(heap.State())
    modifies heap, heap.mem
    ensures (w, heap.State()) == old(List(heap.State(), v))
    ensures w.Some? ==> Spine(heap.State(), w.value, v, NIL) && Keeps(old(heap.State()), heap.State())
    ensures old(Cells(heap.State())) >= |v| ==> w.Some?
    ensures heap.mem.Length <= 0x8_0000 ==> (w.Some? <==> old(Cells(heap.State())) >= HeapCells(v))
  {
    hide Valid, Cons, Spine, Keeps, Cells, HeapCells, Packable, List;
    ghost var h0 := heap.State();
    ListRoom(h0, v);
    NoList(h0);
    var rlist := NIL;
    var nth := |v|;
    ghost var tail: seq<Word> := [];
    while nth > 0
      invariant 0 <= nth <= |v| && v[nth..] == tail && Valid(heap.State())
      invariant (Some(rlist), heap.State()) == List(h0, tail)
    {
      ListStep(h0, v[nth - 1], tail);
      var cell := MakeCons(heap, v[nth - 1], rlist);
      tail := [v[nth - 1]] + tail;
      nth := nth - 1;
      if cell.None? {
        assert v[..nth] + tail == v;
        FailedSuffix(h0, v[..nth], tail);
        return None;
      }
      rlist := cell.value;
    }
    assert tail == v;
    ListRefinesSequence(h0, v);
    return Some(rlist);
  }

  lemma NoList(h: Heap)
    requires Valid(h)
    ensures List(h, []) == (Some(NIL), h)
  {
  }

  /** One element more. */
  lemma ListStep(h: Heap, x: Word, v: seq<Word>)
    requires Valid(h) && List(h, v).0.Some?
    ensures var (rest, h1) := List(h, v);
            Valid(h1) && List(h, [x] + v) == Cons(h1, x, rest.value)
  {
    hide Cons, Valid;
    assert ([x] + v)[1..] == v;
  }

  lemma ListRoom(h: Heap, v: seq<Word>)
    requires Valid(h)
    ensures Cells(h) >= |v| ==> List(h, v).0.Some?
    ensures |h.mem| <= 0x8_0000 ==> (List(h, v).0.Some? <==> Cells(h) >= HeapCells(v))
  {
    hide Valid, Cells, List, HeapCells;
    if |h.mem| <= 0x8_0000 { ListFitsExactly(h, v); }
    ValidParses(h);
    if Cells(h) >= |v| { ListFits(h, v); }
  }

  /** Once a suffix exhausts the heap, the whole list does. */
  lemma {:induction false} FailedSuffix(h: Heap, v: seq<Word>, rest: seq<Word>)
    requires Valid(h) && List(h, rest).0.None?
    ensures List(h, v + rest) == List(h, rest)
    decreases |v|
  {
    hide Cons, Valid;
    if v == [] {
      assert v + rest == rest;
    } else {
      assert (v + rest)[1..] == v[1..] + rest;
      FailedSuffix(h, v[1..], rest);
    }
  }

  /** Cons::ListDot: the last value becomes the tail. Of a single value the source
      reads the one before it. */
  method MakeListDot(heap: HeapObject, v: seq<Word>) returns (w: Option<Word>)
    requires Valid(heap.State()) && |v| != 1
    modifies heap, heap.mem
    ensures Valid(heap.State())
    ensures v == [] ==> w == Some(NIL) && heap.State() == old(heap.State())
    ensures w.Some? && v != [] ==>
              && Spine(heap.State(), w.value, v[..|v| - 1], v[|v| - 1])
              && Keeps(old(heap.State()), heap.State())
    ensures old(Cells(heap.State())) + 1 >= |v| ==> w.Some?
  {
    if v == [] {
      return Some(NIL);
    }
    w := MakeDotted(heap, v);
  }

  /** The cons of the last two, and the loop over the others, from the back. */
  method MakeDotted(heap: HeapObject, v: seq<Word>) returns (w: Option<Word>)
    requires Valid(heap.State()) && |v| >= 2
    modifies heap, heap.mem
    ensures Valid(heap.State())
    ensures w.Some? ==>
              && Spine(heap.State(), w.value, v[..|v| - 1], v[|v| - 1])
              && Keeps(old(heap.State()), heap.State())
    ensures old(Cells(heap.State())) + 1 >= |v| ==> w.Some?
  {
    hide Valid, Cons, Keeps, Spine, Cells, Packable;
    ghost var h0 := heap.State();
    var n := |v| - 1;
    ConsOnEnd(h0, v[n - 1], v[n]);
    ConsTakesOne(h0, v[n - 1], v[n]);
    var cell := MakeCons(heap, v[n - 1], v[n]);
    if cell.None? {
      return None;
    }
    var rlist := cell.value;
    var nth := n - 1;
    assert v[nth..n] == [v[nth]];
    while nth != 0
      invariant 0 <= nth <= n - 1 && Valid(heap.State()) && Parses(h0) && Keeps(h0, heap.State())
      invariant Parses(heap.State()) && Spine(heap.State(), rlist, v[nth..n], v[n])
      invariant Cells(h0) >= n ==> Cells(heap.State()) >= nth
    {
      ConsTakesOne(heap.State(), v[nth - 1], rlist);
      ConsOnSpine(h0, heap.State(), v[nth - 1], rlist, v[nth..n], v[n]);
      cell := MakeCons(heap, v[nth - 1], rlist);
      if cell.None? {
        return None;
      }
      assert [v[nth - 1]] + v[nth..n] == v[nth - 1..n];
      rlist := cell.value;
      nth := nth - 1;
    }
    return Some(rlist);
  }

  lemma ConsOnEnd(h: Heap, car: Word, tail: Word)
    requires Valid(h)
    ensures Parses(h)
    ensures var (r, h') := Cons(h, car, tail);
            r.Some? ==> Keeps(h, h') && Parses(h') && Spine(h', r.value, [car], tail)
  {
    hide Cons;
    NothingChanges(h);
    ConsOnSpine(h, h, car, tail, [], tail);
    assert [car] + [] == [car];
  }

  /** One more cons in front of a list. */
  lemma ConsOnSpine(h0: Heap, h: Heap, car: Word, w: Word, v: seq<Word>, tail: Word)
    requires Valid(h) && Parses(h0) && Keeps(h0, h) && Spine(h, w, v, tail)
    ensures var (r, h') := Cons(h, car, w);
            r.Some? ==> Keeps(h0, h') && Parses(h') && Spine(h', r.value, [car] + v, tail)
  {
    hide SizeOf, SysClass, RefBits, Count, FreeOk, Cons, Keeps, Live, InUse, IsCell;
    if Cons(h, car, w).0.Some? {
      var h' := Cons(h, car, w).1;
      ConsRefinesPair(h, car, w);
      KeepsTransitive(h0, h, h');
      SpineKept(h, h', w, v, tail);
      assert ([car] + v)[0] == car && ([car] + v)[1..] == v;
    }
  }

  lemma SpineEnds(h: Heap, w: Word, v: seq<Word>, tail: Word)
    requires Parses(h) && Spine(h, w, v, tail) && !IsCons(w)
    ensures v == [] && w == tail
  {
  }

  /** Cons::Length: an error when the list is dotted. */
  method Length(heap: HeapObject, list: Word, ghost v: seq<Word>, ghost tail: Word)
    returns (len: Option<nat>)
    requires Valid(heap.State()) && Spine(heap.State(), list, v, tail) && !IsCons(tail)
    requires IsList(list)
    ensures len == if tail == NIL then Some(|v|) else None
  {
    hide SizeOf, SysClass, RefBits, Count, FreeOk, Live, Car, Cdr;
    var n := 0;
    var it := list;
    while IsCons(it)
      invariant n <= |v| && Spine(heap.State(), it, v[n..], tail)
      invariant IsCons(it) || it == NIL
      decreases |v| - n
    {
      var cdr := LoadCdr(heap, it);
      assert v[n..][1..] == v[n + 1..];
      n := n + 1;
      if !IsList(cdr) {
        SpineEnds(heap.State(), cdr, v[n..], tail);
        return None;
      }
      it := cdr;
    }
    SpineEnds(heap.State(), it, v[n..], tail);
    return Some(n);
  }

  /** Cons::Nth: :nil past the end; a dotted tail is not an element. */
  method Nth(heap: HeapObject, list: Word, index: nat, ghost v: seq<Word>, ghost tail: Word)
    returns (element: Word)
    requires Valid(heap.State()) && Spine(heap.State(), list, v, tail) && !IsCons(tail)
    ensures element == if index < |v| then v[index] else NIL
  {
    hide SizeOf, SysClass, RefBits, Count, FreeOk, Live, Car, Cdr;
    var n := 0;
    var it := list;
    while IsCons(it)
      invariant n <= |v| && n <= index && Spine(heap.State(), it, v[n..], tail)
      decreases |v| - n
    {
      if n == index {
        element := LoadCar(heap, it);
        return;
      }
      it := LoadCdr(heap, it);
      assert v[n..][1..] == v[n + 1..];
      n := n + 1;
    }
    SpineEnds(heap.State(), it, v[n..], tail);
    return NIL;
  }
}
