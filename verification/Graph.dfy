// The object graph the collector traces: which words it follows from each kind
// of object (the Gc functions of type/*.cc), and reachability along them.

module Graph {
  import opened Words
  import opened HeapInfo
  import opened Walk
  import opened Mapped

  /** The vector type keywords :t, :char, :fixnum and :float. */
  const KEY_T: Word := 0x742c
  const KEY_CHAR: Word := 0x72_6168_638c
  const KEY_FIXNUM: Word := 0x6d_756e_7869_66cc
  const KEY_FLOAT: Word := 0x7461_6f6c_66ac

  /** Payload position of the object a tag designates. */
  function At(w: Word): nat { NatOf(AtWord(w)) }

  /** First data word and length of the vector whose header is i. */
  function DataAt(h: Heap, i: nat): nat
    requires i + 3 < |h.mem|
  {
    NatOf(Neg(FixValue(h.mem[i + 3])) >> 3)
  }

  function VectorLength(h: Heap, i: nat): nat
    requires i + 3 < |h.mem|
  {
    NatOf(FixValue(h.mem[i + 2]))
  }

  /** Payload words of each object layout. */
  function LayoutWords(c: Class): nat {
    match c
    case CONS => 2
    case SYMBOL => 3
    case FUNCTION => 4
    case EXCEPTION => 5
    case NAMESPACE => 4
    case VECTOR => 3
    case _ => 0
  }

  /** A word that is no header and lies in no cons cell. */
  ghost predicate Clear(h: Heap, p: nat)
    requires Parses(h)
  {
    p !in Hs(h) && !(p >= 1 && IsCell(h, p - 1)) && !(p >= 2 && IsCell(h, p - 2))
  }

  /** Object i is large enough for its layout; a vector's data lies clear of
      every header and every cons. */
  ghost predicate WellLaidOut(h: Heap, i: nat)
    requires Parses(h)
  {
    && IsHeader(h, i)
    && SizeOf(h.mem[i]) > LayoutWords(SysClass(h.mem[i]))
    && i + LayoutWords(SysClass(h.mem[i])) < |h.mem|
    && (SysClass(h.mem[i]) == VECTOR ==>
          && h.mem[i + 1] in {KEY_T, KEY_CHAR, KEY_FIXNUM, KEY_FLOAT}
          && (h.mem[i + 1] == KEY_T ==>
                && DataAt(h, i) + VectorLength(h, i) <= h.barrier
                && forall p | DataAt(h, i) <= p < DataAt(h, i) + VectorLength(h, i) :: Clear(h, p)))
  }

  /** Object classes that are marked and traced; strings and number vectors, and
      streams, are left alone. */
  ghost predicate Traced(h: Heap, i: nat)
    requires Parses(h) && WellLaidOut(h, i)
  {
    var c := SysClass(h.mem[i]);
    c in {CONS, SYMBOL, FUNCTION, EXCEPTION, NAMESPACE} || (c == VECTOR && h.mem[i + 1] == KEY_T)
  }

  /** The words followed from object i, in the order they are followed. */
  ghost function Kids(h: Heap, i: nat): seq<Word>
    requires Parses(h) && WellLaidOut(h, i)
  {
    match SysClass(h.mem[i])
    case CONS => [h.mem[i + 1], h.mem[i + 2]]                                   // car, cdr
    case SYMBOL => [h.mem[i + 2], h.mem[i + 3]]                                 // name, value
    case FUNCTION => [h.mem[i + 2], h.mem[i + 4]]                               // form, extension
    case EXCEPTION => [h.mem[i + 3], h.mem[i + 5]]                              // source, tag
    case NAMESPACE => [h.mem[i + 1], h.mem[i + 2], h.mem[i + 3], h.mem[i + 4]]
    case VECTOR =>
      if h.mem[i + 1] == KEY_T then h.mem[DataAt(h, i)..DataAt(h, i) + VectorLength(h, i)] else []
    case _ => []
  }

  /** Which payload words are followed from each class of object. */
  function Followed(c: Class, at: nat): seq<nat> {
    match c
    case CONS => [at, at + 1]
    case SYMBOL => [at + 1, at + 2]
    case FUNCTION => [at + 1, at + 3]
    case EXCEPTION => [at + 2, at + 4]
    case NAMESPACE => [at, at + 1, at + 2, at + 3]
    case _ => []
  }

  /** A word that is not a packed cons and that the collector can dispatch on. */
  ghost predicate Atom(h: Heap, w: Word)
    requires Parses(h)
  {
    || (IsDirect(w) && DirectClass(w) in {FIXNUM, CHAR, VECTOR, SYMBOL, FLOAT})
    || (IsIndirect(w) && At(w) >= 1 && WellLaidOut(h, At(w) - 1) &&
        SysClass(h.mem[At(w) - 1]) == IndirectClass(w) &&
        IndirectClass(w) in {CONS, SYMBOL, FUNCTION, EXCEPTION, NAMESPACE, VECTOR, STREAM, DOUBLE})
  }

  ghost predicate Traceable(h: Heap, w: Word)
    requires Parses(h)
  {
    if IsPacked(w) then Atom(h, UnpackCar(w)) && Atom(h, UnpackCdr(w)) else Atom(h, w)
  }

  /** Every traced object's followed words can be followed. */
  ghost predicate Sound(h: Heap) {
    && Parses(h)
    && forall i: nat | WellLaidOut(h, i) :: forall w | w in Kids(h, i) :: Traceable(h, w)
  }

  ghost function Nodes(h: Heap): set<nat>
    requires Parses(h)
  {
    set i | i in Hs(h)
  }

  /** The object a word designates directly, if it is traced. */
  ghost predicate Designates(h: Heap, w: Word)
    requires Parses(h)
  {
    IsIndirect(w) && At(w) >= 1 && WellLaidOut(h, At(w) - 1) && Traced(h, At(w) - 1)
  }

  ghost function Target(h: Heap, w: Word): set<nat>
    requires Parses(h)
  {
    if Designates(h, w) then {At(w) - 1} else {}
  }

  /** The traced objects a word leads to: through a packed cons, those of both
      its halves. */
  ghost function Targets(h: Heap, w: Word): set<nat>
    requires Parses(h)
  {
    if IsPacked(w) then Target(h, UnpackCar(w)) + Target(h, UnpackCdr(w)) else Target(h, w)
  }

  ghost function TargetsOf(h: Heap, ws: seq<Word>): set<nat>
    requires Parses(h)
  {
    if ws == [] then {} else Targets(h, ws[0]) + TargetsOf(h, ws[1..])
  }

  ghost function Succ(h: Heap, i: nat): set<nat>
    requires Parses(h)
  {
    if WellLaidOut(h, i) then TargetsOf(h, Kids(h, i)) else {}
  }

  /** The words followed from the object a word designates. */
  ghost function KidsOf(h: Heap, w: Word): seq<Word>
    requires Parses(h)
  {
    if Designates(h, w) then Kids(h, At(w) - 1) else []
  }

  /** p is a path in the object graph. */
  ghost predicate Path(h: Heap, p: seq<nat>)
    requires Parses(h)
  {
    p != [] && forall k | 0 <= k < |p| - 1 :: p[k + 1] in Succ(h, p[k])
  }

  ghost predicate PathFrom(h: Heap, roots: seq<Word>, p: seq<nat>, i: nat)
    requires Parses(h)
  {
    Path(h, p) && p[0] in TargetsOf(h, roots) && p[|p| - 1] == i
  }

  /** Object i can be reached from the roots along followed words. */
  ghost predicate Reachable(h: Heap, roots: seq<Word>, i: nat)
    requires Parses(h)
  {
    exists p :: PathFrom(h, roots, p, i)
  }

  // ------------------------------------------------------------------- marking

  lemma FewerLeft(all: set<nat>, m: set<nat>, m': set<nat>)
    requires m <= m'
    ensures |all - m'| <= |all - m|
    ensures m' * all != m * all ==> |all - m'| < |all - m|
  {
    assert all - m == (all - m') + (all * (m' - m));
    if m' * all != m * all {
      var x :| x in all && x in m' && x !in m;
      assert x in all * (m' - m);
    }
  }

  function Rank(ws: seq<Word>): nat {
    if exists w :: w in ws && IsPacked(w) then 4 else 2
  }

  ghost predicate AllTraceable(h: Heap, ws: seq<Word>)
    requires Parses(h)
  {
    forall w | w in ws :: Traceable(h, w)
  }

  /** A packed cons opens onto two words that are not packed. */
  lemma PackedOpens(h: Heap, w: Word)
    requires Sound(h) && Traceable(h, w) && IsPacked(w)
    ensures AllTraceable(h, Halves(w)) && Rank(Halves(w)) == 2
  {
    hide UnpackCar, UnpackCdr;
    NoPackedInPacked(w);
  }

  /** An object leads to traceable words, and marking it leaves fewer to mark. */
  lemma ObjectOpens(h: Heap, m: set<nat>, w: Word)
    requires Sound(h) && Traceable(h, w) && m <= Nodes(h) && !IsPacked(w)
    requires Designates(h, w) && !(Target(h, w) <= m)
    ensures m + Target(h, w) <= Nodes(h) && AllTraceable(h, KidsOf(h, w))
    ensures |Nodes(h) - (m + Target(h, w))| < |Nodes(h) - m|
  {
    hide At, Kids;
    FewerLeft(Nodes(h), m, m + Target(h, w));
    assert At(w) - 1 in Nodes(h) * (m + Target(h, w));
  }

  /** The words inside a packed cons. */
  ghost function Halves(w: Word): seq<Word> { [UnpackCar(w), UnpackCdr(w)] }

  /** The marked set after marking from one word. Each call either marks an
      object that was not marked, or opens a packed cons, whose halves are never
      packed: the collector stops on every graph, cyclic or not. */
  ghost function Mark(h: Heap, m: set<nat>, w: Word): (r: set<nat>)
    requires Sound(h) && Traceable(h, w) && m <= Nodes(h)
    ensures m <= r <= Nodes(h)
    decreases |Nodes(h) - m|, if IsPacked(w) then 3 else 1, 0
  {
    if IsPacked(w) then
      PackedOpens(h, w);
      MarkAll(h, m, Halves(w))
    else if Designates(h, w) && !(Target(h, w) <= m) then
      ObjectOpens(h, m, w);
      MarkAll(h, m + Target(h, w), KidsOf(h, w))
    else m
  }

  ghost function MarkAll(h: Heap, m: set<nat>, ws: seq<Word>): (r: set<nat>)
    requires Sound(h) && AllTraceable(h, ws) && m <= Nodes(h)
    ensures m <= r <= Nodes(h)
    decreases |Nodes(h) - m|, Rank(ws), |ws|
  {
    if ws == [] then m
    else
      var m1 := Mark(h, m, ws[0]);
      FewerLeft(Nodes(h), m, m1);
      MarkAll(h, m1, ws[1..])
  }
}
