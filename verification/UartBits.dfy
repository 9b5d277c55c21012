/** What both UART processes share: the frame format and the bits of words. */
module UartBits {

  const UART_DATA_LENGTH: nat := 8

  datatype Config = Config(parity: bool, oddParity: bool, twoStopBits: bool)

  /** 1 << k for the positions a frame uses. */
  function BitMask(k: nat): bv32 {
    match k
    case 0 => 0x1
    case 1 => 0x2
    case 2 => 0x4
    case 3 => 0x8
    case 4 => 0x10
    case 5 => 0x20
    case 6 => 0x40
    case 7 => 0x80
    case 8 => 0x100
    case 9 => 0x200
    case 10 => 0x400
    case _ => 0
  }

  predicate Test(w: bv32, m: bv32) { w & m != 0 }

  function SetMask(w: bv32, m: bv32): bv32 { w | m }

  function ClearMask(w: bv32, m: bv32): bv32 { w & !m }

  predicate Bit(w: bv32, k: nat) { Test(w, BitMask(k)) }

  function UpdateData(rxBit: bool, w: bv32, k: nat): bv32 {
    if rxBit then SetMask(w, BitMask(k)) else ClearMask(w, BitMask(k))
  }

  /** The exclusive or of the low eight bits. */
  function BitsXor(x: bv32): bv32 {
    (x & 1) ^ ((x >> 1) & 1) ^ ((x >> 2) & 1) ^ ((x >> 3) & 1) ^ ((x >> 4) & 1) ^ ((x >> 5) & 1) ^ ((x >> 6) & 1) ^ ((x >> 7) & 1)
  }

  function Parity(w: bv32): bool { BitsXor(w) == 1 }

  function LowByte(w: bv32): bv32 { w & 0xFF }

  predicate Apart(m: bv32, n: bv32) { m & n == 0 }

  lemma MasksApart(j: nat, k: nat)
    requires j <= 10 && k <= 10
    ensures BitMask(k) != 0 && (j != k ==> Apart(BitMask(k), BitMask(j)))
  {
  }

  lemma SetThis(w: bv32, m: bv32)
    requires m != 0
    ensures Test(SetMask(w, m), m) && !Test(ClearMask(w, m), m)
  {
  }

  /** The part of a word under a mask. */
  function Under(w: bv32, m: bv32): bv32 { w & m }

  lemma UnderOther(w: bv32, m: bv32, n: bv32)
    requires m & n == 0
    ensures Under(w | m, n) == Under(w, n) && Under(w & !m, n) == Under(w, n)
  {
  }

  lemma TestUnder(w: bv32, m: bv32)
    ensures Test(w, m) <==> Under(w, m) != 0
  {
  }

  lemma SetOther(w: bv32, m: bv32, n: bv32)
    requires Apart(m, n)
    ensures Test(SetMask(w, m), n) == Test(w, n) && Test(ClearMask(w, m), n) == Test(w, n)
  {
    UnderOther(w, m, n);
    hide Test, Under;
    TestUnder(w, n);
    TestUnder(SetMask(w, m), n);
    TestUnder(ClearMask(w, m), n);
  }

  /** Updating a bit sets it and leaves the others. */
  lemma UpdateBit(rxBit: bool, w: bv32, k: nat, j: nat)
    requires j <= 10 && k <= 10
    ensures Bit(UpdateData(rxBit, w, k), j) == if j == k then rxBit else Bit(w, j)
  {
    hide BitMask, Test, SetMask, ClearMask, Apart;
    MasksApart(j, k);
    if j == k {
      SetThis(w, BitMask(k));
    } else {
      SetOther(w, BitMask(k), BitMask(j));
    }
  }

  predicate SameBits(a: bv32, b: bv32, n: nat) {
    forall j :: 0 <= j < n ==> Bit(a, j) == Bit(b, j)
  }

  lemma EightMasks(a: bv32, b: bv32)
    requires Test(a, 0x1) == Test(b, 0x1) && Test(a, 0x2) == Test(b, 0x2)
    requires Test(a, 0x4) == Test(b, 0x4) && Test(a, 0x8) == Test(b, 0x8)
    requires Test(a, 0x10) == Test(b, 0x10) && Test(a, 0x20) == Test(b, 0x20)
    requires Test(a, 0x40) == Test(b, 0x40) && Test(a, 0x80) == Test(b, 0x80)
    ensures LowByte(a) == LowByte(b)
  {
  }

  /** Eight equal bits make equal bytes. */
  lemma SameByte(a: bv32, b: bv32)
    requires SameBits(a, b, 8)
    ensures LowByte(a) == LowByte(b)
  {
    hide LowByte, Test;
    assert Bit(a, 0) == Bit(b, 0) && Bit(a, 1) == Bit(b, 1) && Bit(a, 2) == Bit(b, 2) && Bit(a, 3) == Bit(b, 3);
    assert Bit(a, 4) == Bit(b, 4) && Bit(a, 5) == Bit(b, 5) && Bit(a, 6) == Bit(b, 6) && Bit(a, 7) == Bit(b, 7);
    EightMasks(a, b);
  }

  lemma SameParity(a: bv32, b: bv32)
    requires LowByte(a) == LowByte(b)
    ensures Parity(a) == Parity(b)
  {
  }

  lemma StopInPlace(w: bv32)
    ensures Test(w, 0x200) ==> w & 0x3FF != 0
    ensures Test(w, 0x400) ==> w & 0x7FF != 0
  {
  }

  /** A word with a stop bit in its place is no break. */
  lemma NoBreak(w: bv32)
    ensures Bit(w, 9) ==> w & 0x3FF != 0
    ensures Bit(w, 10) ==> w & 0x7FF != 0
  {
    hide Test;
    StopInPlace(w);
  }
}
