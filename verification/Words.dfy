// Tagged words: the bit layouts of core/type.h, type/fixnum.h and the packed
// conses of type/cons.cc, over 64-bit words.

module Words {

  /** A tagged pointer: low two bits are the TAG, the rest depends on it. */
  type Word = bv64

  const DIRECT: Word := 0
  const PACKED: Word := 2
  const INDIRECT: Word := 3

  /** SYS_CLASS, with a value for the codes the source leaves unnamed. */
  datatype Class =
    | FIXNUM | CHAR | VECTOR | SYMBOL | FLOAT | CONS | DOUBLE | EXCEPTION
    | FUNCTION | NAMESPACE | STREAM | BYTE | T | UNNAMED

  function Code(c: Class): Word {
    match c
    case FIXNUM => 0 case CHAR => 1 case VECTOR => 2 case SYMBOL => 3 case FLOAT => 4
    case CONS => 5 case DOUBLE => 6 case EXCEPTION => 7 case FUNCTION => 8
    case NAMESPACE => 9 case STREAM => 10 case BYTE => 11 case T => 12
    case UNNAMED => 13
  }

  function ClassOf(code: Word): Class {
    if code == 0 then FIXNUM else if code == 1 then CHAR else if code == 2 then VECTOR
    else if code == 3 then SYMBOL else if code == 4 then FLOAT else if code == 5 then CONS
    else if code == 6 then DOUBLE else if code == 7 then EXCEPTION
    else if code == 8 then FUNCTION else if code == 9 then NAMESPACE
    else if code == 10 then STREAM else if code == 11 then BYTE
    else if code == 12 then T else UNNAMED
  }

  /** The keyword :nil, which is also the empty list. */
  const NIL: Word := 0x6c69_6e6c

  function TagOf(w: Word): Word { w & 3 }

  predicate IsDirect(w: Word) { TagOf(w) == DIRECT }

  predicate IsPacked(w: Word) { TagOf(w) == PACKED }

  predicate IsIndirect(w: Word) { TagOf(w) == INDIRECT }

  function DirectClass(w: Word): Class { ClassOf((w >> 2) & 7) }

  function IndirectClass(w: Word): Class { ClassOf((w >> 2) & 0xf) }

  predicate IsCons(w: Word) {
    IsPacked(w) || (IsIndirect(w) && IndirectClass(w) == CONS)
  }

  predicate IsList(w: Word) { w == NIL || IsCons(w) }

  /** The bits a signed right shift brings in. */
  function SignFill(w: Word): Word { if w >> 63 == 1 then 0xffff_ffff_ffff_ffff else 0 }

  function Asr2(w: Word): Word { (w >> 2) | (SignFill(w) << 62) }

  function Asr5(w: Word): Word { (w >> 5) | (SignFill(w) << 59) }

  function Asr6(w: Word): Word { (w >> 6) | (SignFill(w) << 58) }

  function Asr33(w: Word): Word { (w >> 33) | (SignFill(w) << 31) }

  function Neg(w: Word): Word { !w + 1 }

  // ---------------------------------------------------------------- indirect

  /** The tag of the object whose payload starts at heap word `at`: the data
      bits hold the (negative) byte distance from the payload to the base. */
  function TagAt(at: Word, sysClass: Class): Word { EntagBits(at, Code(sysClass)) }

  function EntagBits(at: Word, code: Word): Word {
    (Neg(at << 3) << 6) | (code << 2) | INDIRECT
  }

  /** Byte offset of the payload from the heap base (HeapAddr of IndirectData). */
  function PayloadOffset(w: Word): Word { Neg(Asr6(w)) }

  /** Heap word index of the payload a tag designates. */
  function AtWord(w: Word): Word { PayloadOffset(w) >> 3 }

  lemma CodeRoundTrip(c: Class)
    ensures Code(c) <= 13 && ClassOf(Code(c)) == c
  {
  }

  lemma EntagFields(at: Word, code: Word)
    requires code <= 13
    ensures IsIndirect(EntagBits(at, code))
    ensures (EntagBits(at, code) >> 2) & 0xf == code
    ensures at <= 0xffff_ffff ==> AtWord(EntagBits(at, code)) == at
  {
  }

  /** A tag gives back the class and the position it was made from. */
  lemma TagAtRoundTrip(at: Word, sysClass: Class)
    requires at <= 0xffff_ffff
    ensures IsIndirect(TagAt(at, sysClass))
    ensures IndirectClass(TagAt(at, sysClass)) == sysClass
    ensures AtWord(TagAt(at, sysClass)) == at
  {
    hide EntagBits, AtWord, IsIndirect, Code, ClassOf;
    CodeRoundTrip(sysClass);
    EntagFields(at, Code(sysClass));
  }

  /** The source computes a header address from IndirectData(tag) - 1, a byte
      count: the address it names lies one byte past the payload start, nine
      bytes past the header word. */
  function HeaderOffsetAsWritten(w: Word): Word { Neg(Asr6(w) - 1) }

  lemma HeaderAddressIsOffByNine(w: Word)
    ensures HeaderOffsetAsWritten(w) == (PayloadOffset(w) - 8) + 9
    ensures PayloadOffset(w) & 7 == 0 ==> HeaderOffsetAsWritten(w) & 7 == 1
  {
  }

  // ------------------------------------------------------------- packed conses

  /** Can this word be half of a packed cons? */
  predicate Packable(t: Word) {
    && (t >> 1) & 1 == t & 1
    && (t >> 30) & 1 == (t >> 31) & 1
    && t >> 32 == (if (t >> 31) & 1 == 1 then 0xffff_ffff else 0)
  }

  /** The 31 bits that packing keeps. */
  function Pack(t: Word): Word { (t >> 1) & 0x7fff_ffff }

  /** The cdr half is shifted as a 32-bit value, so its top bit falls off. */
  function PackCons(car: Word, cdr: Word): Word {
    (Pack(car) << 33) | ((Pack(cdr) << 2) & 0xffff_ffff) | PACKED
  }

  function UnpackCar(w: Word): Word {
    var bits := Asr33(w) & 0xffff_ffff;
    var sext := (bits >> 30) & 1;
    (if sext == 1 then 0xffff_ffff_0000_0000 else 0)
    | (sext << 31) | ((bits << 1) & 0xffff_ffff) | (bits & 1)
  }

  function UnpackCdr(w: Word): Word {
    var bits := Asr2(w);
    UnpackCar((bits << 33) | (((bits >> 29) & 1) << 63))
  }

  /** Both halves of a packed cons survive the trip. */
  lemma PackRoundTrip(car: Word, cdr: Word)
    requires Packable(car) && Packable(cdr)
    ensures IsPacked(PackCons(car, cdr))
    ensures UnpackCar(PackCons(car, cdr)) == car
    ensures UnpackCdr(PackCons(car, cdr)) == cdr
  {
  }

  lemma CdrOfPackIsPackable(u: Word, t: Word)
    ensures Packable(UnpackCdr(PackCons(u, t)))
  {
  }

  /** The test made before packing is exact for the cdr half: a word survives there exactly
      when it is accepted. */
  lemma PackableIsExact(u: Word, t: Word)
    ensures Packable(t) <==> forall v | Packable(v) :: UnpackCdr(PackCons(v, t)) == t
    ensures Packable(t) <==> UnpackCdr(PackCons(u, t)) == t
  {
    CdrOfPackIsPackable(u, t);
    CdrOfPackIsPackable(0, t);
    assert Packable(0);
    if Packable(t) {
      PackedCdr(u, t);
      forall v | Packable(v) ensures UnpackCdr(PackCons(v, t)) == t { PackRoundTrip(v, t); }
    }
  }

  lemma PackedCdr(u: Word, t: Word)
    requires Packable(t)
    ensures UnpackCdr(PackCons(u, t)) == t
  {
  }

  /** No packed cons holds a packed cons, whatever its bits: unpacking one
      level always reaches a direct or an indirect word. */
  lemma NoPackedInPacked(w: Word)
    ensures !IsPacked(UnpackCar(w)) && !IsPacked(UnpackCdr(w))
    ensures TagOf(UnpackCar(w)) in {DIRECT, INDIRECT}
    ensures TagOf(UnpackCdr(w)) in {DIRECT, INDIRECT}
  {
  }

  /** The empty list never fits, so no packed cons ends a proper list, and a
      packed cons never fits, so packed conses never chain. */
  lemma NotPackable(w: Word)
    ensures !Packable(NIL)
    ensures IsPacked(w) ==> !Packable(w)
  {
  }

  /** Every tag into a heap of at most 4 MB (its words are indexed below
      0x80000) fits. */
  lemma SmallHeapTagsPack(at: Word, sysClass: Class)
    requires at <= 0x8_0000
    ensures Packable(TagAt(at, sysClass))
  {
  }

  // -------------------------------------------------------------------- fixnums

  function FixTag(n: Word): Word { n << 5 }

  function FixValue(w: Word): Word { Asr5(w) }

  /** A 64-bit integer survives as a fixnum exactly when its top six bits agree:
      59-bit two's complement, although the reader only tests two of them. */
  lemma FixnumRoundTrip(n: Word)
    ensures IsDirect(FixTag(n)) && DirectClass(FixTag(n)) == FIXNUM
    ensures FixValue(FixTag(n)) == n <==> (n >> 58 == 0 || n >> 58 == 0x3f)
  {
    if n >> 58 == 0 {
    } else if n >> 58 == 0x3f {
    } else {
    }
  }

  // ------------------------------------------------------- words and naturals

  /** The unsigned value of a word, from its bits. */
  function NatOf(w: Word): nat
    decreases w
  {
    if w == 0 then 0 else 2 * NatOf(w >> 1) + (if w & 1 == 1 then 1 else 0)
  }

  lemma DoubleAsNat(x: Word)
    requires x < 0x8000_0000_0000_0000
    ensures (x << 1) as nat == 2 * (x as nat)
    ensures ((x << 1) | 1) as nat == 2 * (x as nat) + 1
  {
  }

  lemma SmallAsNat(x: Word)
    requires x as nat < 0x1_0000_0000
    ensures x <= 0xffff_ffff
  {
  }

  lemma NatOfShift(x: Word)
    requires x < 0x8000_0000_0000_0000
    ensures NatOf(x << 1) == 2 * NatOf(x)
    ensures NatOf((x << 1) | 1) == 2 * NatOf(x) + 1
  {
    assert (x << 1) >> 1 == x && ((x << 1) | 1) >> 1 == x;
    assert (x << 1) & 1 == 0 && ((x << 1) | 1) & 1 == 1;
  }

  lemma {:induction false} WordOfNat(n: nat) returns (x: Word)
    requires n < 0x1_0000_0000
    ensures x as nat == n && NatOf(x) == n
  {
    if n == 0 {
      x := 0;
    } else {
      var y := WordOfNat(n / 2);
      SmallAsNat(y);
      DoubleAsNat(y);
      NatOfShift(y);
      x := if n % 2 == 0 then y << 1 else (y << 1) | 1;
    }
  }

  /** Converting a 32-bit natural to a word loses nothing. */
  lemma NatRoundTrip(n: nat)
    requires n < 0x1_0000_0000
    ensures NatOf(n as Word) == n && (n as Word) as nat == n && (n as Word) <= 0xffff_ffff
  {
    var x := WordOfNat(n);
    SmallAsNat(x);
    AsWord(n, x);
  }

  lemma AsWord(n: nat, x: Word)
    requires x as nat == n
    ensures n as Word == x
  {
    assert (x as nat) as Word == x;
  }
}
