// The collector (core/env.cc, env/env-env.cc and the Gc functions of type/*.cc)
// run against the mapped heap: clear, mark from the namespaces, sweep.

module Collector {
  import opened Words
  import opened HeapInfo
  import opened Walk
  import opened Mapped
  import opened MappedHeap
  import opened Graph
  import opened Reach
  import opened Soundness
  import opened Survival

  /** Marking is under way: the heap h still holds the graph g, m is marked, and
      nothing is free. */
  ghost predicate Tracing(g: Heap, h: Heap, m: set<nat>) {
    && Sound(g) && Valid(g) && Valid(h) && h.free == map[]
    && SameButMarks(g, h) && Hs(h) == Hs(g)
    && m == Marked(h) <= Nodes(g)
  }

  lemma TracingMeans(g: Heap, h: Heap, m: set<nat>)
    requires Tracing(g, h, m)
    ensures Sound(g) && m <= Nodes(g) && m == set i | i in m
  {
  }

  /** A payload word: inside the heap and no header. */
  ghost predicate IsField(g: Heap, p: nat)
    requires Parses(g)
  {
    p < |g.mem| && p !in Hs(g)
  }

  /** The layout of an object lies inside it. */
  lemma LayoutFields(g: Heap, i: nat)
    requires Parses(g) && WellLaidOut(g, i)
    ensures forall p: nat | i < p <= i + LayoutWords(SysClass(g.mem[i])) :: IsField(g, p)
  {
    hide SizeOf, SysClass, LayoutWords;
    forall p: nat | i < p <= i + LayoutWords(SysClass(g.mem[i])) ensures IsField(g, p) {
      NoHeaderInside(g.mem, 0, g.barrier, i, p);
    }
  }

  /** A tag that can be traced, to an object of a marked class. */
  ghost predicate TracedTag(g: Heap, w: Word, c: Class)
    requires Parses(g)
  {
    && Traceable(g, w) && IsIndirect(w) && IndirectClass(w) == c
    && c in {CONS, SYMBOL, FUNCTION, EXCEPTION, NAMESPACE}
  }

  /** The tag w designates an object from which the words in payload positions
      `fields` are followed, in that order. */
  ghost predicate Follows(g: Heap, w: Word, fields: seq<nat>)
    requires Parses(g)
  {
    && Traceable(g, w) && !IsPacked(w) && Designates(g, w)
    && (forall p | p in fields :: IsField(g, p))
    && |KidsOf(g, w)| == |fields|
    && forall k | 0 <= k < |fields| && fields[k] < |g.mem| :: KidsOf(g, w)[k] == g.mem[fields[k]]
  }

  lemma FollowsTwo(g: Heap, w: Word, p: nat, q: nat)
    requires Parses(g) && Follows(g, w, [p, q])
    ensures IsField(g, p) && IsField(g, q) && KidsOf(g, w) == [g.mem[p], g.mem[q]]
  {
    hide KidsOf, IsField, Designates, Traceable;
    assert p in [p, q] && q in [p, q];
    assert IsField(g, p) && IsField(g, q);
    assert [p, q][0] == p && [p, q][1] == q;
    assert p < |g.mem| && q < |g.mem| by { FieldInRange(g, p); FieldInRange(g, q); }
  }

  lemma FieldInRange(g: Heap, p: nat)
    requires Parses(g) && IsField(g, p)
    ensures p < |g.mem|
  {
  }

  lemma TracedTagFollows(g: Heap, w: Word, c: Class)
    requires Parses(g) && TracedTag(g, w, c)
    ensures Follows(g, w, Followed(c, At(w)))
  {
    hide SizeOf, SysClass, At;
    LayoutFields(g, At(w) - 1);
    assert forall p: nat | At(w) <= p < At(w) + LayoutWords(c) :: IsField(g, p);
    assert KidsOf(g, w) == Kids(g, At(w) - 1);
  }

  // ------------------------------------------------- marking one word after another

  lemma MarkTwo(g: Heap, m: set<nat>, a: Word, b: Word)
    requires Sound(g) && AllTraceable(g, [a, b]) && m <= Nodes(g)
    ensures Traceable(g, a) && Traceable(g, b)
    ensures MarkAll(g, m, [a, b]) == Mark(g, Mark(g, m, a), b)
    ensures |Nodes(g) - Mark(g, m, a)| <= |Nodes(g) - m|
  {
    hide Mark, Traceable, AllTraceable, Sound, Rank, Nodes;
    assert [a] + [b] == [a, b] && [b] + [] == [b];
    MarkFirst(g, m, a, [b]);
    MarkFirst(g, Mark(g, m, a), b, []);
  }

  lemma MarkFour(g: Heap, m: set<nat>, a: Word, b: Word, c: Word, d: Word)
    requires Sound(g) && AllTraceable(g, [a, b, c, d]) && m <= Nodes(g)
    ensures Traceable(g, a) && Traceable(g, b) && AllTraceable(g, [c, d])
    ensures MarkAll(g, m, [a, b, c, d]) == MarkAll(g, Mark(g, Mark(g, m, a), b), [c, d])
    ensures |Nodes(g) - Mark(g, m, a)| <= |Nodes(g) - m|
    ensures |Nodes(g) - Mark(g, Mark(g, m, a), b)| <= |Nodes(g) - m|
  {
    hide Mark, MarkAll, Traceable, AllTraceable, Sound, Rank, Nodes;
    assert [a] + [b, c, d] == [a, b, c, d] && [b] + [c, d] == [b, c, d];
    MarkFirst(g, m, a, [b, c, d]);
    MarkFirst(g, Mark(g, m, a), b, [c, d]);
  }

  lemma MarkFirst(g: Heap, m: set<nat>, a: Word, rest: seq<Word>)
    requires Sound(g) && AllTraceable(g, [a] + rest) && m <= Nodes(g)
    ensures Traceable(g, a) && AllTraceable(g, rest)
    ensures MarkAll(g, m, [a] + rest) == MarkAll(g, Mark(g, m, a), rest)
    ensures |Nodes(g) - Mark(g, m, a)| <= |Nodes(g) - m|
  {
    hide Mark, Traceable;
    assert a in [a] + rest && forall w | w in rest :: w in [a] + rest;
    assert ([a] + rest)[1..] == rest;
    FewerLeft(Nodes(g), m, Mark(g, m, a));
  }

  // ---------------------------------------------------------------- heap access

  /** Reading a payload word of the graph from the heap. */
  method Load(heap: HeapObject, ghost g: Heap, ghost m: set<nat>, p: nat) returns (w: Word)
    requires Tracing(g, heap.State(), m) && IsField(g, p)
    ensures w == g.mem[p]
  {
    hide SizeOf, SysClass, RefBits;
    w := heap.mem[p];
  }

  /** Env::IsGcMarked */
  method IsGcMarked(heap: HeapObject, ghost g: Heap, ghost m: set<nat>, w: Word) returns (marked: bool)
    requires Tracing(g, heap.State(), m) && Traceable(g, w) && !IsPacked(w) && Designates(g, w)
    ensures marked <==> Target(g, w) <= m
    ensures marked ==> Mark(g, m, w) == m
  {
    hide RefBits, SizeOf, SysClass, At, Kids;
    marked := RefBits(heap.mem[At(w) - 1]) != 0;
  }

  /** Env::GcMark on an object not yet marked; what is left to do is to mark
      from the words followed from it. */
  method GcMark(heap: HeapObject, ghost g: Heap, ghost m: set<nat>, w: Word) returns (ghost m': set<nat>)
    requires Tracing(g, heap.State(), m)
    requires Traceable(g, w) && !IsPacked(w) && Designates(g, w) && !(Target(g, w) <= m)
    modifies heap.mem
    ensures Tracing(g, heap.State(), m') && m' == m + Target(g, w) <= Nodes(g)
    ensures |Nodes(g) - m'| < |Nodes(g) - m|
    ensures AllTraceable(g, KidsOf(g, w))
    ensures Mark(g, m, w) == MarkAll(g, m', KidsOf(g, w))
  {
    hide At, KidsOf, Mark, MarkAll, Sound, Traceable, Designates, Target, Tracing, SameButMarks, Marked, Valid;
    TracingMeans(g, heap.State(), m);
    MarkingProgress(g, m, w);
    m' := m + Target(g, w);
    ghost var before := heap.State();
    TargetHeader(g, before, m, w);
    heap.GcMark(At(w) - 1);
    MarkedOneMore(g, before, m, heap.State(), At(w) - 1);
  }

  lemma TargetHeader(g: Heap, h: Heap, m: set<nat>, w: Word)
    requires Tracing(g, h, m) && Designates(g, w)
    ensures At(w) >= 1 && Target(g, w) == {At(w) - 1}
    ensures Valid(h) && IsHeader(h, At(w) - 1) && h.free == map[]
  {
    hide At, SizeOf, SysClass, RefBits, Sound, Valid;
  }

  lemma MarkedOneMore(g: Heap, h: Heap, m: set<nat>, h': Heap, k: nat)
    requires Tracing(g, h, m) && Valid(h') && SameButMarks(h, h') && Hs(h') == Hs(h)
    requires Marked(h') == Marked(h) + {k} && h'.free == map[] && m + {k} <= Nodes(g)
    ensures Tracing(g, h', m + {k})
  {
    hide SizeOf, SysClass, RefBits, Sound, Count, FreeOk;
    SameButMarksTransitive(g, h, h');
  }

  // ------------------------------------------------------------------- marking

  /** Env::Gc: dispatch on the type of a word. */
  method EnvGc(heap: HeapObject, ghost g: Heap, ghost m: set<nat>, w: Word)
    requires Tracing(g, heap.State(), m) && Traceable(g, w)
    modifies heap.mem
    ensures Tracing(g, heap.State(), Mark(g, m, w))
    decreases |Nodes(g) - m|, if IsPacked(w) then 1 else 0, 2
  {
    hide Tracing, At, SizeOf, SysClass, RefBits, UnpackCar, UnpackCdr, Kids, Sound, Nodes;
    TracingMeans(g, heap.State(), m);
    if IsCons(w) {
      ConsGc(heap, g, m, w);
    } else if IsIndirect(w) {
      match IndirectClass(w)
      case SYMBOL => SymbolGc(heap, g, m, w);
      case FUNCTION => FunctionGc(heap, g, m, w);
      case EXCEPTION => ExceptionGc(heap, g, m, w);
      case NAMESPACE => NamespaceGc(heap, g, m, w);
      case VECTOR => VectorGc(heap, g, m, w);
      case _ =>
    }
  }

  /** The common shape of the Gc functions that follow two fields: nothing if the
      object is marked; otherwise mark it, then follow one field and the other. */
  method ObjectGc(heap: HeapObject, ghost g: Heap, ghost m: set<nat>, w: Word, p: nat, q: nat)
    requires Tracing(g, heap.State(), m) && Follows(g, w, [p, q])
    modifies heap.mem
    ensures Tracing(g, heap.State(), Mark(g, m, w))
    decreases |Nodes(g) - m|, 0, 0
  {
    hide Tracing, At, Designates, Sound, Mark, MarkAll, Traceable, Target, KidsOf, IsField, Nodes;
    TracingMeans(g, heap.State(), m);
    FollowsTwo(g, w, p, q);
    var marked := IsGcMarked(heap, g, m, w);
    if marked {
      return;
    }
    ghost var m1 := GcMark(heap, g, m, w);
    var first := Load(heap, g, m1, p);
    var second := Load(heap, g, m1, q);
    MarkTwo(g, m1, first, second);
    EnvGc(heap, g, m1, first);
    EnvGc(heap, g, Mark(g, m1, first), second);
  }

  /** Cons::Gc: a packed cons has no mark of its own. */
  method ConsGc(heap: HeapObject, ghost g: Heap, ghost m: set<nat>, w: Word)
    requires Tracing(g, heap.State(), m) && Traceable(g, w) && IsCons(w)
    modifies heap.mem
    ensures Tracing(g, heap.State(), Mark(g, m, w))
    decreases |Nodes(g) - m|, if IsPacked(w) then 1 else 0, 1
  {
    hide Tracing, At, SizeOf, RefBits, UnpackCar, UnpackCdr, Designates, WellLaidOut, Sound, Follows, Nodes;
    TracingMeans(g, heap.State(), m);
    if IsIndirect(w) {
      TracedTagFollows(g, w, CONS);
      ObjectGc(heap, g, m, w, At(w), At(w) + 1);
    } else {
      NoPackedInPacked(w);
      var car, cdr := UnpackCar(w), UnpackCdr(w);
      assert Mark(g, m, w) == MarkAll(g, m, [car, cdr]);
      MarkTwo(g, m, car, cdr);
      EnvGc(heap, g, m, car);
      EnvGc(heap, g, Mark(g, m, car), cdr);
    }
  }

  /** Symbol::Gc: the name and the value; the namespace is not followed. */
  method SymbolGc(heap: HeapObject, ghost g: Heap, ghost m: set<nat>, w: Word)
    requires Tracing(g, heap.State(), m) && TracedTag(g, w, SYMBOL)
    modifies heap.mem
    ensures Tracing(g, heap.State(), Mark(g, m, w))
    decreases |Nodes(g) - m|, 0, 1
  {
    hide Tracing, At, Follows, Mark, TracedTag, Sound;
    TracingMeans(g, heap.State(), m);
    TracedTagFollows(g, w, SYMBOL);
    ObjectGc(heap, g, m, w, At(w) + 1, At(w) + 2);
  }

  /** Function::Gc: the form and the extension. */
  method FunctionGc(heap: HeapObject, ghost g: Heap, ghost m: set<nat>, w: Word)
    requires Tracing(g, heap.State(), m) && TracedTag(g, w, FUNCTION)
    modifies heap.mem
    ensures Tracing(g, heap.State(), Mark(g, m, w))
    decreases |Nodes(g) - m|, 0, 1
  {
    hide Tracing, At, Follows, Mark, TracedTag, Sound;
    TracingMeans(g, heap.State(), m);
    TracedTagFollows(g, w, FUNCTION);
    ObjectGc(heap, g, m, w, At(w) + 1, At(w) + 3);
  }

  /** Exception::Gc: the source object and the tag. */
  method ExceptionGc(heap: HeapObject, ghost g: Heap, ghost m: set<nat>, w: Word)
    requires Tracing(g, heap.State(), m) && TracedTag(g, w, EXCEPTION)
    modifies heap.mem
    ensures Tracing(g, heap.State(), Mark(g, m, w))
    decreases |Nodes(g) - m|, 0, 1
  {
    hide Tracing, At, Follows, Mark, TracedTag, Sound;
    TracingMeans(g, heap.State(), m);
    TracedTagFollows(g, w, EXCEPTION);
    ObjectGc(heap, g, m, w, At(w) + 2, At(w) + 4);
  }

  /** Namespace::Gc: name, import, externs, interns. */
  method NamespaceGc(heap: HeapObject, ghost g: Heap, ghost m: set<nat>, w: Word)
    requires Tracing(g, heap.State(), m) && TracedTag(g, w, NAMESPACE)
    modifies heap.mem
    ensures Tracing(g, heap.State(), Mark(g, m, w))
    decreases |Nodes(g) - m|, 0, 1
  {
    hide Tracing, At, Designates, Sound, Mark, MarkAll, Traceable, Target, KidsOf, IsField, Nodes, TracedTag;
    TracingMeans(g, heap.State(), m);
    TracedTagFollows(g, w, NAMESPACE);
    FollowsFour(g, w, At(w));
    var marked := IsGcMarked(heap, g, m, w);
    if marked {
      return;
    }
    ghost var m1 := GcMark(heap, g, m, w);
    var name := Load(heap, g, m1, At(w));
    var imported := Load(heap, g, m1, At(w) + 1);
    var externs := Load(heap, g, m1, At(w) + 2);
    var interns := Load(heap, g, m1, At(w) + 3);
    MarkFour(g, m1, name, imported, externs, interns);
    EnvGc(heap, g, m1, name);
    ghost var m2 := Mark(g, m1, name);
    EnvGc(heap, g, m2, imported);
    ghost var m3 := Mark(g, m2, imported);
    MarkTwo(g, m3, externs, interns);
    EnvGc(heap, g, m3, externs);
    EnvGc(heap, g, Mark(g, m3, externs), interns);
  }

  lemma FollowsFour(g: Heap, w: Word, p: nat)
    requires Parses(g) && Follows(g, w, [p, p + 1, p + 2, p + 3])
    ensures IsField(g, p) && IsField(g, p + 1) && IsField(g, p + 2) && IsField(g, p + 3)
    ensures p + 3 < |g.mem|
    ensures KidsOf(g, w) == [g.mem[p], g.mem[p + 1], g.mem[p + 2], g.mem[p + 3]]
  {
    hide KidsOf, IsField, Designates, Traceable;
    var fields := [p, p + 1, p + 2, p + 3];
    assert fields[0] in fields && fields[1] in fields && fields[2] in fields && fields[3] in fields;
    FieldInRange(g, p);
    FieldInRange(g, p + 1);
    FieldInRange(g, p + 2);
    FieldInRange(g, p + 3);
  }

  /** Vector::Gc: only :t vectors are marked and followed, element by element. */
  method VectorGc(heap: HeapObject, ghost g: Heap, ghost m: set<nat>, w: Word)
    requires Tracing(g, heap.State(), m) && Traceable(g, w) && IsIndirect(w) && IndirectClass(w) == VECTOR
    modifies heap.mem
    ensures Tracing(g, heap.State(), Mark(g, m, w))
    decreases |Nodes(g) - m|, 0, 1
  {
    hide Tracing, At, Sound, Mark, MarkAll, NatOf, FixValue, Neg, Traceable, AllTraceable, Designates, KidsOf,
         Kids, Nodes, Target, IsField, Parses, Valid, SizeOf, SysClass, IsPacked;
    TracingMeans(g, heap.State(), m);
    VectorFields(g, w);
    var vectorType := Load(heap, g, m, At(w));
    if vectorType == KEY_T {
      VectorFollows(g, w);
      var marked := IsGcMarked(heap, g, m, w);
      if marked {
        return;
      }
      ghost var m1 := GcMark(heap, g, m, w);
      var offset := Load(heap, g, m1, At(w) + 2);
      var size := Load(heap, g, m1, At(w) + 1);
      var first, length := NatOf(Neg(FixValue(offset)) >> 3), NatOf(FixValue(size));
      VectorElements(heap, g, m1, first, length);
    } else {
      VectorIgnored(g, m, w);
    }
  }

  lemma VectorFields(g: Heap, w: Word)
    requires Parses(g) && Traceable(g, w) && IsIndirect(w) && IndirectClass(w) == VECTOR
    ensures At(w) >= 1 && IsField(g, At(w)) && IsField(g, At(w) + 1) && IsField(g, At(w) + 2)
    ensures At(w) + 2 < |g.mem|
  {
    hide At, SizeOf, SysClass;
    LayoutFields(g, At(w) - 1);
    assert IsField(g, At(w) + 2);
  }

  lemma VectorIgnored(g: Heap, m: set<nat>, w: Word)
    requires Sound(g) && Traceable(g, w) && IsIndirect(w) && IndirectClass(w) == VECTOR
    requires m <= Nodes(g) && At(w) < |g.mem| && g.mem[At(w)] != KEY_T
    ensures Mark(g, m, w) == m
  {
    hide At, SizeOf, SysClass, Kids;
  }

  lemma VectorFollows(g: Heap, w: Word)
    requires Parses(g) && Traceable(g, w) && IsIndirect(w) && IndirectClass(w) == VECTOR
    requires At(w) + 2 < |g.mem| && g.mem[At(w)] == KEY_T
    ensures !IsPacked(w) && Designates(g, w)
    ensures At(w) >= 1
    ensures var first, length := NatOf(Neg(FixValue(g.mem[At(w) + 2])) >> 3), NatOf(FixValue(g.mem[At(w) + 1]));
            && first + length <= |g.mem| && KidsOf(g, w) == g.mem[first..first + length]
            && forall p: nat | first <= p < first + length :: IsField(g, p)
  {
    hide At, SizeOf, SysClass, NatOf, Neg, FixValue, Headers, KidsOf, Kids, WellLaidOut, Traceable, Designates,
         IsField, Traced, Parses, Valid, DataAt, VectorLength, IsPacked, IsIndirect, IndirectClass;
    VectorObject(g, w);
    VectorWords(g, At(w) - 1);
    VectorData(g, At(w) - 1);
    assert KidsOf(g, w) == Kids(g, At(w) - 1) by { DesignatesKids(g, w); }
  }

  lemma VectorWords(g: Heap, i: nat)
    requires i + 3 < |g.mem|
    ensures DataAt(g, i) == NatOf(Neg(FixValue(g.mem[i + 3])) >> 3)
    ensures VectorLength(g, i) == NatOf(FixValue(g.mem[i + 2]))
  {
    hide NatOf, Neg, FixValue;
  }

  lemma DesignatesKids(g: Heap, w: Word)
    requires Parses(g) && Designates(g, w)
    ensures KidsOf(g, w) == Kids(g, At(w) - 1)
  {
    hide At, Kids;
  }

  lemma VectorObject(g: Heap, w: Word)
    requires Parses(g) && Traceable(g, w) && IsIndirect(w) && IndirectClass(w) == VECTOR
    requires At(w) < |g.mem| && g.mem[At(w)] == KEY_T
    ensures !IsPacked(w) && Designates(g, w) && At(w) >= 1
    ensures WellLaidOut(g, At(w) - 1) && SysClass(g.mem[At(w) - 1]) == VECTOR
  {
    hide At, SizeOf, SysClass, Headers;
  }

  lemma VectorData(g: Heap, i: nat)
    requires Parses(g) && WellLaidOut(g, i) && SysClass(g.mem[i]) == VECTOR && g.mem[i + 1] == KEY_T
    ensures DataAt(g, i) + VectorLength(g, i) <= |g.mem|
    ensures Kids(g, i) == g.mem[DataAt(g, i)..DataAt(g, i) + VectorLength(g, i)]
    ensures forall p: nat | DataAt(g, i) <= p < DataAt(g, i) + VectorLength(g, i) :: IsField(g, p)
  {
    hide SizeOf, SysClass, NatOf, Neg, FixValue, Headers, IsCell;
    assert g.barrier <= |g.mem|;
    forall p: nat | DataAt(g, i) <= p < DataAt(g, i) + VectorLength(g, i) ensures IsField(g, p) {
      assert Clear(g, p);
    }
  }

  /** The element loop of Vector::Gc. */
  method VectorElements(heap: HeapObject, ghost g: Heap, ghost m: set<nat>, first: nat, length: nat)
    requires Tracing(g, heap.State(), m) && first + length <= |g.mem|
    requires forall p: nat | first <= p < first + length :: IsField(g, p)
    requires AllTraceable(g, g.mem[first..first + length])
    modifies heap.mem
    ensures Tracing(g, heap.State(), MarkAll(g, m, g.mem[first..first + length]))
    decreases |Nodes(g) - m|, 2, 0
  {
    hide Tracing, Sound, Traceable, Mark, MarkAll, AllTraceable, Nodes, IsPacked;
    TracingMeans(g, heap.State(), m);
    ghost var elements := g.mem[first..first + length];
    ghost var m' := m;
    var i := 0;
    assert elements[0..] == elements;
    while i < length
      invariant 0 <= i <= length
      invariant Tracing(g, heap.State(), m') && m <= m' <= Nodes(g)
      invariant AllTraceable(g, elements[i..])
      invariant MarkAll(g, m', elements[i..]) == MarkAll(g, m, elements)
    {
      var element := Load(heap, g, m', first + i);
      assert element == elements[i] == elements[i..][0] && element in elements[i..];
      assert [element] + elements[i + 1..] == elements[i..];
      MarkFirst(g, m', element, elements[i + 1..]);
      FewerLeft(Nodes(g), m, m');
      EnvGc(heap, g, m', element);
      m' := Mark(g, m', element);
      i := i + 1;
    }
    assert elements[i..] == [];
    assert MarkAll(g, m', []) == m' by { MarkNone(g, m'); }
  }

  lemma MarkNone(g: Heap, m: set<nat>)
    requires Sound(g) && m <= Nodes(g)
    ensures AllTraceable(g, []) && MarkAll(g, m, []) == m
  {
  }

  // ---------------------------------------------------------------- collection

  lemma ClearedIsTracing(g: Heap, h: Heap)
    requires Sound(g) && Valid(g) && Valid(h) && h.free == map[]
    requires SameButMarks(g, h) && Hs(h) == Hs(g) && Marked(h) == {}
    ensures Tracing(g, h, {})
  {
  }

  /** The environment's collection: clear, mark from every namespace, sweep.
      Afterwards the marked objects are those reachable from the namespaces, and
      each free list holds exactly the objects of its class that are not; whatever
      the accessors read from a namespace they still read, and nothing of it waits
      for reuse; and the heap can be collected again. */
  method Gc(heap: HeapObject, namespaces: seq<Word>)
    requires Valid(heap.State()) && heap.barrier > 0
    requires Sound(heap.State()) && AllTraceable(heap.State(), namespaces)
    modifies heap, heap.mem
    ensures Valid(heap.State()) && SameButMarks(old(heap.State()), heap.State())
    ensures forall i :: i in Marked(heap.State()) <==> Reachable(old(heap.State()), namespaces, i)
    ensures Collected(old(heap.State()), namespaces, heap.State())
    ensures KeepsHeld(old(heap.State()), namespaces, heap.State())
    ensures Sound(heap.State()) && AllTraceable(heap.State(), namespaces)
    ensures old(Ready(heap.State())) ==> Ready(heap.State())
  {
    hide Ready, KeepsHeld, Collected;
    hide At, SizeOf, SysClass, RefBits, Reachable, Sound, Traceable, Mark, Tracing, SameButMarks, Marked, FreeOk, Count;
    ghost var g := heap.State();
    heap.Gc();
    ClearedIsTracing(g, heap.State());
    ghost var m: set<nat> := {};
    var n := 0;
    while n < |namespaces|
      invariant 0 <= n <= |namespaces|
      invariant Tracing(g, heap.State(), m) && m <= Nodes(g) && heap.barrier > 0
      invariant heap.free == map[]
      invariant MarkAll(g, m, namespaces[n..]) == MarkAll(g, {}, namespaces)
    {
      assert namespaces[n..][0] == namespaces[n] && namespaces[n..][1..] == namespaces[n + 1..];
      EnvGc(heap, g, m, namespaces[n]);
      m := Mark(g, m, namespaces[n]);
      n := n + 1;
    }
    assert namespaces[n..] == [];
    ghost var traced := heap.State();
    TracedIsValid(g, traced, m);
    heap.GcSweep();
    SweptByReachability(g, traced, m, heap.State(), namespaces);
    StillTraceable(g, heap.State(), namespaces);
    CollectionKeepsHeld(g, namespaces, heap.State());
  }

  lemma StillTraceable(g: Heap, h: Heap, ws: seq<Word>)
    requires Sound(g) && AllTraceable(g, ws) && SameButMarks(g, h) && Valid(h)
    ensures Sound(h) && AllTraceable(h, ws)
    ensures Ready(g) ==> Ready(h)
  {
    hide SizeOf, SysClass, Traceable, KeepsObjects, WellLaidOut, VectorsInside, Valid, SameButMarks;
    MarksKeepSound(g, h);
    SameButMarksWalk(g, h);
    MarksKeepObjects(g, h);
    forall w | w in ws ensures Traceable(h, w) { TraceableStays(g, h, w); }
  }

  lemma TracedIsValid(g: Heap, h: Heap, m: set<nat>)
    requires Tracing(g, h, m)
    ensures Valid(h) && SameButMarks(g, h) && Hs(h) == Hs(g) && Marked(h) == m
  {
  }

  lemma SweptByReachability(g: Heap, traced: Heap, m: set<nat>, h: Heap, roots: seq<Word>)
    requires Tracing(g, traced, m) && AllTraceable(g, roots) && m == MarkAll(g, {}, roots)
    requires h.mem == traced.mem && h.barrier == traced.barrier && h.counts == traced.counts
    requires Parses(h) && Swept(h, Hs(h))
    ensures SameButMarks(g, h)
    ensures forall i :: i in Marked(h) <==> Reachable(g, roots, i)
    ensures Collected(g, roots, h)
  {
    hide SizeOf, SysClass, RefBits, Reachable, Mark, MarkAll, Sound, Traceable, Count, FreeOk, Unmarked;
    assert Marked(h) == m;
    forall i ensures i in Marked(h) <==> Reachable(g, roots, i) {
      MarkingIsReachability(g, roots, i);
    }
    AllHeaders(g);
    forall c: Class, k: nat ensures k in FreeList(h, c) <==>
        IsHeader(g, k) && SysClass(g.mem[k]) == c && !Reachable(g, roots, k)
    {
      UnmarkedMembers(h.mem, Hs(h), c);
    }
  }

  /** Whatever is allocated and written after a collection, until the next one,
      no cell handed out was reachable when the collection ran. */
  lemma ReachableCellsAreNotReused(g: Heap, roots: seq<Word>, h: Heap, ops: seq<Op>)
    requires Valid(g) && Valid(h) && SameButMarks(g, h) && Collected(g, roots, h)
    ensures forall k | k in Run(h, ops).0 && IsCell(g, k) :: !Reachable(g, roots, k)
    ensures forall k | IsCell(g, k) && Reachable(g, roots, k) :: k in InUse(Run(h, ops).1)
  {
    hide SizeOf, SysClass, RefBits, Count, FreeOk, Reachable, Run;
    SameButMarksWalk(g, h);
    NoCellTwice(h, ops);
    forall k | IsCell(g, k) && Reachable(g, roots, k) ensures k in InUse(h) {
      assert k !in FreeList(h, CONS);
    }
  }
}
