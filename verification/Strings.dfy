// Vectors without their own data (type/vector.cc, type/vector.h, core/type.h):
// strings of up to seven bytes that live in their tag, and slices, of such a word
// by shift and mask, of a heap vector by an address inside its parent.

module Strings {
  import opened Words

  type Byte = w: Word | w <= 0xff

  /** DIRECT_STR_MAX */
  const DIRECT_STR_MAX := 7

  /** The three bits of a direct size. */
  function SizeBits(n: nat): (x: Word)
    requires n <= 7
    ensures x <= 7 && SizeOfBits(x) == n
  {
    match n
    case 0 => 0 case 1 => 1 case 2 => 2 case 3 => 3 case 4 => 4 case 5 => 5 case 6 => 6 case _ => 7
  }

  function SizeOfBits(x: Word): (n: nat)
    ensures n <= 7
  {
    if x == 0 then 0 else if x == 1 then 1 else if x == 2 then 2 else if x == 3 then 3
    else if x == 4 then 4 else if x == 5 then 5 else if x == 6 then 6 else 7
  }

  /** Type::MakeDirect with the class of vectors. */
  function MakeDirect(data: Word, length: nat): Word
    requires length <= 7
  {
    DirectBits(data, SizeBits(length))
  }

  function DirectBits(data: Word, size: Word): Word {
    (data << 8) | ((size & 7) << 5) | (2 << 2) | DIRECT
  }

  function DirectSize(w: Word): nat { SizeOfBits((w >> 5) & 7) }

  // One byte in or out, at the low end of a word; kept apart from the recursions
  // over bytes, which need only what the lemmas below say of them.

  function Low(w: Word): Byte { w & 0xff }

  function Drop(w: Word): Word { w >> 8 }

  function Push(w: Word, b: Byte): Word { (w << 8) | b }

  function Masked(w: Word, m: Word): Word { w & m }

  /** No bit outside the mask. */
  predicate Within(w: Word, m: Word) { w & !m == 0 }

  /** The top byte is zero. */
  predicate Small(w: Word) { w >> 56 == 0 }

  /** Byte i of a word in memory, lowest first. */
  function ByteAt(w: Word, i: nat): Byte {
    if i == 0 then Low(w) else ByteAt(Drop(w), i - 1)
  }

  /** Shifting right by k bytes. */
  function ShiftBytes(w: Word, k: nat): Word {
    if k == 0 then w else ShiftBytes(Drop(w), k - 1)
  }

  /** The n low bytes: the complement of minus one shifted left by n bytes. */
  function LowBytes(n: nat): Word {
    if n == 0 then 0 else Push(LowBytes(n - 1), 0xff)
  }

  /** What memcpy makes of a string in a zeroed word. */
  function Buffer(s: seq<Byte>): Word {
    if s == [] then 0 else Push(Buffer(s[1..]), s[0])
  }

  function Bytes(w: Word, n: nat): (s: seq<Byte>)
    ensures |s| == n
  {
    seq(n, i requires 0 <= i => ByteAt(w, i))
  }

  /** Vector::MakeDirect */
  function DirectOf(s: seq<Byte>): Word
    requires |s| <= DIRECT_STR_MAX
  {
    MakeDirect(Buffer(s), |s|)
  }

  function DirectData(w: Word): Word { Drop(w) }

  /** Vector::StdStringOf of a direct string: the bytes of the word after the
      first. */
  function StdStringOf(w: Word): seq<Byte> { Bytes(DirectData(w), DirectSize(w)) }

  /** A direct string as the library makes them: no data beyond its size. */
  predicate IsDirectString(w: Word) {
    w == MakeDirect(DirectData(w), DirectSize(w)) && Within(DirectData(w), LowBytes(DirectSize(w)))
  }

  // ------------------------------------------------------------------ round trips

  lemma PushByte(w: Word, b: Byte)
    ensures Small(w) ==> Drop(Push(w, b)) == w
    ensures Low(Push(w, b)) == b
    ensures Push(Drop(w), Low(w)) == w
  {
  }

  lemma PushWithin(w: Word, m: Word, b: Byte)
    requires Within(w, m)
    ensures Within(Push(w, b), Push(m, 0xff))
  {
  }

  lemma DropWithin(w: Word, m: Word)
    requires Within(w, Push(m, 0xff))
    ensures Within(Drop(w), m)
  {
  }

  lemma SmallWithin(w: Word, m: Word)
    requires Within(w, m) && Small(m)
    ensures Small(w)
  {
  }

  lemma MaskedWithin(w: Word, m: Word)
    ensures Within(Masked(w, m), m)
  {
  }

  lemma ZeroWithin(w: Word)
    ensures Within(w, 0) ==> w == 0
    ensures Within(0, 0)
  {
  }

  lemma MaskByte(w: Word, m: Word)
    requires Small(m)
    ensures Drop(Masked(w, Push(m, 0xff))) == Masked(Drop(w), m)
    ensures Low(Masked(w, Push(m, 0xff))) == Low(w)
  {
  }

  lemma LowBytesSmall(n: nat)
    requires n <= 7
    ensures Small(LowBytes(n))
  {
    assert LowBytes(1) == 0xff;
    assert LowBytes(2) == 0xffff;
    assert LowBytes(3) == 0xff_ffff;
    assert LowBytes(4) == 0xffff_ffff;
    assert LowBytes(5) == 0xff_ffff_ffff;
    assert LowBytes(6) == 0xffff_ffff_ffff;
    assert LowBytes(7) == 0xff_ffff_ffff_ffff;
  }

  lemma {:induction false} BufferFits(s: seq<Byte>)
    ensures Within(Buffer(s), LowBytes(|s|))
    decreases |s|
  {
    hide Push, Within, Small, Masked, Low, Drop;
    if s == [] {
      ZeroWithin(0);
    } else {
      BufferFits(s[1..]);
      PushWithin(Buffer(s[1..]), LowBytes(|s| - 1), s[0]);
    }
  }

  lemma {:induction false} BufferByte(s: seq<Byte>, i: nat)
    requires i < |s| <= 7
    ensures ByteAt(Buffer(s), i) == s[i]
    decreases |s|
  {
    hide Push, Within, Small, Masked, Low, Drop, LowBytes;
    BufferFits(s[1..]);
    LowBytesSmall(|s| - 1);
    SmallWithin(Buffer(s[1..]), LowBytes(|s| - 1));
    PushByte(Buffer(s[1..]), s[0]);
    if i > 0 { BufferByte(s[1..], i - 1); }
  }

  lemma {:induction false} BufferOfBytes(w: Word, n: nat)
    requires Within(w, LowBytes(n))
    ensures Buffer(Bytes(w, n)) == w
    decreases n
  {
    hide Push, Within, Small, Masked, Low, Drop;
    if n == 0 {
      ZeroWithin(w);
    } else {
      DropWithin(w, LowBytes(n - 1));
      PushByte(w, 0);
      BufferOfBytes(Drop(w), n - 1);
      var s := Bytes(w, n);
      assert s[1..] == Bytes(Drop(w), n - 1);
      assert s[0] == Low(w);
    }
  }

  lemma DirectFields(data: Word, size: Word)
    requires Small(data) && size <= 7
    ensures Drop(DirectBits(data, size)) == data && (DirectBits(data, size) >> 5) & 7 == size
    ensures IsDirect(DirectBits(data, size)) && DirectClass(DirectBits(data, size)) == VECTOR
  {
  }

  lemma MakesDirectString(data: Word, length: nat)
    requires length <= 7 && Within(data, LowBytes(length))
    ensures var w := MakeDirect(data, length);
            && IsDirectString(w) && IsDirect(w) && DirectClass(w) == VECTOR
            && DirectData(w) == data && DirectSize(w) == length
  {
    hide DirectBits, SizeBits, SizeOfBits, LowBytes, IsDirect, DirectClass, Within, Small, Drop;
    LowBytesSmall(length);
    SmallWithin(data, LowBytes(length));
    DirectFields(data, SizeBits(length));
    SizeRoundTrip(length);
  }

  lemma SizeRoundTrip(n: nat)
    requires n <= 7
    ensures SizeBits(n) <= 7 && SizeOfBits(SizeBits(n)) == n
  {
  }

  /** A string of up to seven bytes survives in a word. */
  lemma StringSurvives(s: seq<Byte>)
    requires |s| <= 7
    ensures IsDirectString(DirectOf(s)) && StdStringOf(DirectOf(s)) == s
    ensures IsDirect(DirectOf(s)) && DirectClass(DirectOf(s)) == VECTOR
  {
    hide MakeDirect, DirectSize, DirectData, LowBytes, Buffer, ByteAt, Within, IsDirect, DirectClass, IsDirectString;
    BufferFits(s);
    MakesDirectString(Buffer(s), |s|);
    forall i | 0 <= i < |s| ensures ByteAt(Buffer(s), i) == s[i] { BufferByte(s, i); }
  }

  /** And a direct string is the word of its bytes: the two correspond one to one. */
  lemma WordSurvives(w: Word)
    requires IsDirectString(w)
    ensures |StdStringOf(w)| <= 7 && DirectOf(StdStringOf(w)) == w
  {
    hide MakeDirect, DirectData, LowBytes, Buffer, ByteAt, Within, Bytes;
    BufferOfBytes(DirectData(w), DirectSize(w));
  }

  // ----------------------------------------------------------------- word slices

  /** How Vector::Slice ends. */
  datatype Sliced<T> = Slice(slice: T) | RangeError

  /** The checks of Vector::Slice. */
  predicate InSlice(size: nat, offset: int, length: int) {
    0 <= offset && 0 <= length && offset + length <= size
  }

  /** Vector::Slice of a direct string. The source shifts by 64 bits, which C++
      leaves undefined, only for an empty slice at the end of seven bytes; the mask
      then clears whatever the shift gave. */
  function SliceWord(w: Word, offset: int, length: int): Sliced<Word> {
    if !InSlice(DirectSize(w), offset, length) then RangeError
    else Slice(MakeDirect(Masked(ShiftBytes(w, 1 + offset), LowBytes(length)), length))
  }

  lemma {:induction false} ShiftedByte(w: Word, k: nat, i: nat)
    ensures ByteAt(ShiftBytes(w, k), i) == ByteAt(w, k + i)
    decreases k
  {
    hide Low, Drop;
    if k > 0 { ShiftedByte(Drop(w), k - 1, i); }
  }

  lemma {:induction false} MaskedByte(w: Word, n: nat, i: nat)
    requires i < n <= 7
    ensures ByteAt(Masked(w, LowBytes(n)), i) == ByteAt(w, i)
    decreases n
  {
    hide Low, Drop, Masked, Push, Small;
    LowBytesSmall(n - 1);
    MaskByte(w, LowBytes(n - 1));
    if i > 0 { MaskedByte(Drop(w), n - 1, i - 1); }
  }

  /** Slicing a direct string by shift and mask is slicing its bytes: it gives the
      word of exactly those bytes, and raises exactly when they are not there. */
  lemma SliceWordIsSlice(w: Word, offset: int, length: int)
    ensures |StdStringOf(w)| <= 7
    ensures SliceWord(w, offset, length) ==
            if InSlice(|StdStringOf(w)|, offset, length)
            then Slice(DirectOf(StdStringOf(w)[offset..offset + length])) else RangeError
  {
    hide LowBytes, ShiftBytes, ByteAt, Buffer, MakeDirect, Masked, Within, Drop;
    assert DirectSize(w) <= 7;
    if InSlice(DirectSize(w), offset, length) {
      var shifted := ShiftBytes(w, 1 + offset);
      var data := Masked(shifted, LowBytes(length));
      MaskedWithin(shifted, LowBytes(length));
      BufferOfBytes(data, length);
      var s := StdStringOf(w)[offset..offset + length];
      forall i | 0 <= i < length ensures ByteAt(data, i) == s[i] {
        MaskedByte(shifted, length, i);
        ShiftedByte(w, 1 + offset, i);
        SecondByte(w, offset + i);
      }
      assert Bytes(data, length) == s;
    }
  }

  lemma SecondByte(w: Word, i: nat)
    ensures ByteAt(w, 1 + i) == ByteAt(DirectData(w), i)
  {
    hide Low, Drop;
  }

  // ----------------------------------------------------------------- heap slices

  datatype Kind = OfChar | OfByte | OfFloat | OfFixnum | OfT

  /** Bytes per element. */
  function ElementSize(kind: Kind): (n: nat)
    ensures n >= 1
  {
    match kind case OfChar => 1 case OfByte => 1 case OfFloat => 4 case OfFixnum => 8 case OfT => 8
  }

  /** A vector's layout: its type, its length, and the address of its data. */
  datatype Layout = Layout(kind: Kind, length: nat, address: nat)

  predicate InMemory(mem: seq<Byte>, v: Layout) {
    v.address + v.length * ElementSize(v.kind) <= |mem|
  }

  function Element(mem: seq<Byte>, v: Layout, i: nat): seq<Byte>
    requires InMemory(mem, v) && i < v.length
  {
    ElementInside(v, i);
    var size := ElementSize(v.kind);
    mem[v.address + i * size..v.address + i * size + size]
  }

  lemma ElementInside(v: Layout, i: nat)
    requires i < v.length
    ensures i * ElementSize(v.kind) + ElementSize(v.kind) <= v.length * ElementSize(v.kind)
  {
    var size := ElementSize(v.kind);
    assert (v.length - i - 1) * size >= 0;
    assert v.length * size == i * size + size + (v.length - i - 1) * size;
  }

  /** The elements, each as its bytes. */
  function Contents(mem: seq<Byte>, v: Layout): (s: seq<seq<Byte>>)
    requires InMemory(mem, v)
    ensures |s| == v.length
  {
    seq(v.length, i requires 0 <= i < v.length => Element(mem, v, i))
  }

  /** Vector::Slice of a heap vector: a layout of its own over the same data. */
  function SliceHeap(v: Layout, offset: int, length: int): Sliced<Layout> {
    if !InSlice(v.length, offset, length) then RangeError
    else Slice(Layout(v.kind, length, v.address + offset * ElementSize(v.kind)))
  }

  lemma SliceInside(mem: seq<Byte>, v: Layout, offset: nat, length: nat)
    requires InMemory(mem, v) && offset + length <= v.length
    ensures InMemory(mem, SliceHeap(v, offset, length).slice)
  {
    var size := ElementSize(v.kind);
    assert (v.length - offset - length) * size >= 0;
    assert v.length * size == offset * size + length * size + (v.length - offset - length) * size;
  }

  /** A heap slice has the elements of its parent from the offset on, whatever is
      written to the parent's data afterwards: it shares them. It raises exactly
      when they are not there. */
  lemma HeapSliceIsSlice(mem: seq<Byte>, v: Layout, offset: int, length: int)
    requires InMemory(mem, v)
    ensures match SliceHeap(v, offset, length)
            case Slice(u) =>
              && InSlice(|Contents(mem, v)|, offset, length) && InMemory(mem, u)
              && Contents(mem, u) == Contents(mem, v)[offset..offset + length]
            case RangeError => !InSlice(|Contents(mem, v)|, offset, length)
  {
    if InSlice(v.length, offset, length) {
      SliceInside(mem, v, offset, length);
      var u, size := SliceHeap(v, offset, length).slice, ElementSize(v.kind);
      forall i | 0 <= i < length ensures Contents(mem, u)[i] == Contents(mem, v)[offset + i] {
        assert (offset + i) * size == offset * size + i * size;
      }
    }
  }

  /** A slice of a slice is one slice of the parent; it raises exactly when it
      leaves the first slice, even where it stays inside the parent. */
  lemma SlicesCompose(v: Layout, offset: int, length: int, offset': int, length': int)
    requires InSlice(v.length, offset, length)
    ensures SliceHeap(SliceHeap(v, offset, length).slice, offset', length') ==
            if InSlice(length, offset', length') then SliceHeap(v, offset + offset', length') else RangeError
  {
    var size := ElementSize(v.kind);
    assert (offset + offset') * size == offset * size + offset' * size;
  }

  /** The same for words. */
  lemma WordSlicesCompose(w: Word, offset: int, length: int, offset': int, length': int)
    requires InSlice(DirectSize(w), offset, length)
    ensures SliceWord(SliceWord(w, offset, length).slice, offset', length') ==
            if InSlice(length, offset', length') then SliceWord(w, offset + offset', length') else RangeError
  {
    hide SliceWord, Bytes, DirectOf, DirectSize, StdStringOf;
    SliceWordIsSlice(w, offset, length);
    assert |StdStringOf(w)| == DirectSize(w) by { SizeIsLength(w); }
    var s := StdStringOf(w);
    var t := s[offset..offset + length];
    StringSurvives(t);
    SliceWordIsSlice(DirectOf(t), offset', length');
    SliceWordIsSlice(w, offset + offset', length');
    if InSlice(length, offset', length') {
      assert t[offset'..offset' + length'] == s[offset + offset'..offset + offset' + length'];
    }
  }

  lemma SizeIsLength(w: Word)
    ensures |StdStringOf(w)| == DirectSize(w)
  {
  }
}
