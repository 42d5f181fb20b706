// Heap object headers (core/heap.h): a 64-bit word holding the object's size in
// words (bits 16-31), its reference bits (8-15) and its class (0-7).

module HeapInfo {
  import opened Words

  /** Bytes to words, rounding up. */
  function HeapWords(nbytes: nat): nat { (nbytes + 7) / 8 }

  /** The size parameter is 16 bits wide, so larger byte counts are truncated. */
  function MakeHeapInfo(nbytes: nat, sysClass: Class): Word {
    InfoBits(HeapWords(nbytes % 0x1_0000) as Word, Code(sysClass))
  }

  function InfoBits(words: Word, code: Word): Word { (words << 16) | code }

  function SysClass(info: Word): Class { ClassOf(info & 0xff) }

  function RefBits(info: Word): Word { (info >> 8) & 0xff }

  function SetRefBits(info: Word, bits: Word): Word {
    (info & !0xff00) | (bits << 8)
  }

  function SizeField(info: Word): Word { (info >> 16) & 0xffff }

  /** Object size in words, header included. */
  function SizeOf(info: Word): nat { NatOf(SizeField(info)) }

  lemma InfoFields(words: Word, code: Word)
    requires words <= 0xffff && code <= 13
    ensures SizeField(InfoBits(words, code)) == words
    ensures InfoBits(words, code) & 0xff == code
    ensures RefBits(InfoBits(words, code)) == 0
  {
  }

  lemma SmallField(x: Word)
    requires x as nat <= 0xffff
    ensures x <= 0xffff
  {
  }

  /** A fresh header reads back the class, no reference bits, and the size its
      16-bit parameter kept. */
  lemma MakeHeapInfoFields(nbytes: nat, sysClass: Class)
    ensures SysClass(MakeHeapInfo(nbytes, sysClass)) == sysClass
    ensures RefBits(MakeHeapInfo(nbytes, sysClass)) == 0
    ensures SizeOf(MakeHeapInfo(nbytes, sysClass)) == HeapWords(nbytes % 0x1_0000)
  {
    hide InfoBits, RefBits, SizeField, NatOf, Code, ClassOf;
    var n := HeapWords(nbytes % 0x1_0000);
    NatRoundTrip(n);
    var words := n as Word;
    SmallField(words);
    CodeRoundTrip(sysClass);
    InfoFields(words, Code(sysClass));
  }

  /** The header records an object's size faithfully exactly when the whole
      object, in bytes, fits the 16-bit size parameter. */
  lemma SizeIsExact(words: nat, sysClass: Class)
    ensures SizeOf(MakeHeapInfo(8 * words, sysClass)) == words <==> 8 * words < 0x1_0000
  {
    hide MakeHeapInfo, SizeOf;
    MakeHeapInfoFields(8 * words, sysClass);
  }

  /** Reference bits are independent of the other fields. */
  lemma SetRefBitsFields(info: Word, bits: Word)
    requires bits <= 0xff
    ensures RefBits(SetRefBits(info, bits)) == bits
    ensures SysClass(SetRefBits(info, bits)) == SysClass(info)
    ensures SizeField(SetRefBits(info, bits)) == SizeField(info)
    ensures SizeOf(SetRefBits(info, bits)) == SizeOf(info)
  {
  }
}
