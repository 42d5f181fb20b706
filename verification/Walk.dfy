// The header walk (heap/mapped.h, heapinfo_iter): headers are found by parsing
// memory from the base, each header's size leading to the next.

module Walk {
  import opened Words
  import opened HeapInfo

  /** Memory parses as whole objects from word i to the barrier. */
  ghost predicate Chain(mem: seq<Word>, i: nat, barrier: nat)
    decreases barrier - i
  {
    && i <= barrier <= |mem|
    && (i < barrier ==>
          && SizeOf(mem[i]) >= 1
          && i + SizeOf(mem[i]) <= barrier
          && Chain(mem, i + SizeOf(mem[i]), barrier))
  }

  /** The header positions the walk visits, in order. */
  ghost function Headers(mem: seq<Word>, i: nat, barrier: nat): seq<nat>
    requires Chain(mem, i, barrier)
    decreases barrier - i
  {
    if i == barrier then [] else [i] + Headers(mem, i + SizeOf(mem[i]), barrier)
  }

  lemma {:induction false} HeadersInRange(mem: seq<Word>, i: nat, barrier: nat, k: nat)
    requires Chain(mem, i, barrier) && k in Headers(mem, i, barrier)
    ensures i <= k < barrier && SizeOf(mem[k]) >= 1 && k + SizeOf(mem[k]) <= barrier
    decreases barrier - i
  {
    if k != i {
      HeadersInRange(mem, i + SizeOf(mem[i]), barrier, k);
    }
  }

  /** Headers strictly increase, so none is visited twice. */
  lemma {:induction false} HeadersIncrease(mem: seq<Word>, i: nat, barrier: nat, a: nat, b: nat)
    requires Chain(mem, i, barrier) && a < b < |Headers(mem, i, barrier)|
    ensures Headers(mem, i, barrier)[a] < Headers(mem, i, barrier)[b]
    decreases barrier - i
  {
    var next := i + SizeOf(mem[i]);
    if a == 0 {
      HeadersInRange(mem, next, barrier, Headers(mem, next, barrier)[b - 1]);
    } else {
      HeadersIncrease(mem, next, barrier, a - 1, b - 1);
    }
  }

  /** No header lies inside an object. */
  lemma {:induction false} NoHeaderInside(mem: seq<Word>, i: nat, barrier: nat, k: nat, p: nat)
    requires Chain(mem, i, barrier) && k in Headers(mem, i, barrier)
    requires k < |mem| && k < p < k + SizeOf(mem[k])
    ensures p !in Headers(mem, i, barrier)
    decreases barrier - i
  {
    var next := i + SizeOf(mem[i]);
    if k == i {
      if p in Headers(mem, next, barrier) {
        HeadersInRange(mem, next, barrier, p);
      }
    } else {
      HeadersInRange(mem, next, barrier, k);
      NoHeaderInside(mem, next, barrier, k, p);
    }
  }

  /** The walk depends only on the size fields of the headers it visits. */
  lemma {:induction false} SameSizesSameWalk(mem: seq<Word>, mem': seq<Word>, i: nat, barrier: nat)
    requires Chain(mem, i, barrier) && |mem'| == |mem|
    requires forall k | k in Headers(mem, i, barrier) && k < |mem| :: SizeOf(mem'[k]) == SizeOf(mem[k])
    ensures Chain(mem', i, barrier)
    ensures Headers(mem', i, barrier) == Headers(mem, i, barrier)
    decreases barrier - i
  {
    if i < barrier {
      assert i in Headers(mem, i, barrier);
      SameSizesSameWalk(mem, mem', i + SizeOf(mem[i]), barrier);
    }
  }

  /** Allocating at the barrier adds one header at the end of the walk. */
  lemma {:induction false} WalkGrows(mem: seq<Word>, i: nat, barrier: nat, barrier': nat)
    requires Chain(mem, i, barrier) && barrier < |mem|
    requires SizeOf(mem[barrier]) >= 1
    requires barrier' == barrier + SizeOf(mem[barrier]) <= |mem|
    ensures Chain(mem, i, barrier')
    ensures Headers(mem, i, barrier') == Headers(mem, i, barrier) + [barrier]
    decreases barrier - i
  {
    if i < barrier {
      WalkGrows(mem, i + SizeOf(mem[i]), barrier, barrier');
    } else {
      assert Chain(mem, barrier', barrier');
      assert Headers(mem, barrier', barrier') == [];
    }
  }
}
