/** The byte instructions of alpha_interp.cc on 64-bit registers, and the memory they work against. */
module AlphaBytes {

  /** Host memory as the quadwords at aligned addresses; a byte sits in the quadword around it, lowest address least
      significant. */
  type Memory = bv64 -> bv64

  function Aligned(a: bv64): bv64 { a & !7 }

  function Plus(a: bv64, k: bv64): bv64 { a + k }
  function Or(x: bv64, y: bv64): bv64 { x | y }

  /** Which byte of its quadword an address names. */
  function Offset(a: bv64): (r: bv64)
    ensures r < 8
  {
    a & 7
  }

  function Byte(x: bv64, k: bv64): bv8
    requires k < 8
  {
    ((x >> ((8 * k) as bv7)) & 0xff) as bv8
  }

  function ByteAt(m: Memory, p: bv64): bv8 {
    Byte(m(Aligned(p)), Offset(p))
  }

  /** The store of an aligned quadword. */
  function StoreQuad(m: Memory, q: bv64, x: bv64): Memory {
    (p: bv64) => if p == q then x else m(p)
  }

  datatype Size = Word | Long | Quad

  function Bytes(n: Size): bv64 {
    match n case Word => 2 case Long => 4 case Quad => 8
  }

  // ---- The byte zapper ----

  /** What byte_mask returns: byte i is all ones where bit i of m is set. */
  function ByteMask(m: bv32): bv64 {
    (if m & 1 == 1 then 0xff else 0)
    | (if (m >> 1) & 1 == 1 then 0xff00 else 0)
    | (if (m >> 2) & 1 == 1 then 0xff_0000 else 0)
    | (if (m >> 3) & 1 == 1 then 0xff00_0000 else 0)
    | (if (m >> 4) & 1 == 1 then 0xff_0000_0000 else 0)
    | (if (m >> 5) & 1 == 1 then 0xff00_0000_0000 else 0)
    | (if (m >> 6) & 1 == 1 then 0xff_0000_0000_0000 else 0)
    | (if (m >> 7) & 1 == 1 then 0xff00_0000_0000_0000 else 0)
  }

  /** One bit of byte select per byte of operand: 0x03, 0x0f or 0xff. */
  function Selector(n: Size): bv32 {
    match n case Word => 0x03 case Long => 0x0f case Quad => 0xff
  }

  /** rav shifted by 8*bn, and by (64 - 8*bn) & 63. */
  function Up(x: bv64, bn: bv64): bv64 requires bn < 8 { x << ((8 * bn) as bv7) }
  function Down(x: bv64, bn: bv64): bv64 requires bn < 8 { x >> ((8 * bn) as bv7) }
  function UpRest(x: bv64, bn: bv64): bv64 requires bn < 8 { x << (((64 - 8 * bn) & 63) as bv7) }
  function DownRest(x: bv64, bn: bv64): bv64 requires bn < 8 { x >> (((64 - 8 * bn) & 63) as bv7) }

  function LowSelect(n: Size, bn: bv64): bv32
    requires bn < 8
  {
    (Selector(n) << (bn as bv4)) & 0xff
  }

  function HighSelect(n: Size, bn: bv64): bv32
    requires bn < 8
  {
    (Selector(n) << (bn as bv4)) >> 8
  }

  /** EXTxL, EXTxH, INSxL, INSxH, MSKxL and MSKxH for x = W, L, Q; bn is the low three bits of the second operand. */
  function Extl(n: Size, rav: bv64, bn: bv64): bv64 requires bn < 8 { Down(rav, bn) & ByteMask(Selector(n)) }
  function Exth(n: Size, rav: bv64, bn: bv64): bv64 requires bn < 8 { UpRest(rav, bn) & ByteMask(Selector(n)) }
  function Insl(n: Size, rav: bv64, bn: bv64): bv64 requires bn < 8 { Up(rav, bn) & ByteMask(LowSelect(n, bn)) }
  function Insh(n: Size, rav: bv64, bn: bv64): bv64 requires bn < 8 { DownRest(rav, bn) & ByteMask(HighSelect(n, bn)) }
  function Mskl(n: Size, rav: bv64, bn: bv64): bv64 requires bn < 8 { rav & !ByteMask(LowSelect(n, bn)) }
  function Mskh(n: Size, rav: bv64, bn: bv64): bv64 requires bn < 8 { rav & !ByteMask(HighSelect(n, bn)) }

  // ---- Masks by byte position ----

  /** n bytes of ones from byte position i up, cut off at the top of the quadword. */
  function Ones(n: Size): bv64 {
    match n case Word => 0xffff case Long => 0xffff_ffff case Quad => 0xffff_ffff_ffff_ffff
  }

  function HighMask(bn: bv64, ones: bv64): bv64
    requires bn < 8
  {
    if bn == 0 then 0 else ones >> ((64 - 8 * bn) as bv7)
  }

  lemma MasksOfWord(bn: bv64)
    requires bn < 8
    ensures ByteMask(LowSelect(Word, bn)) == Up(Ones(Word), bn)
    ensures ByteMask(HighSelect(Word, bn)) == HighMask(bn, Ones(Word))
  {
    if bn == 0 {} else if bn == 1 {} else if bn == 2 {} else if bn == 3 {}
    else if bn == 4 {} else if bn == 5 {} else if bn == 6 {} else {}
  }

  lemma MasksOfLong(bn: bv64)
    requires bn < 8
    ensures ByteMask(LowSelect(Long, bn)) == Up(Ones(Long), bn)
    ensures ByteMask(HighSelect(Long, bn)) == HighMask(bn, Ones(Long))
  {
    if bn == 0 {} else if bn == 1 {} else if bn == 2 {} else if bn == 3 {}
    else if bn == 4 {} else if bn == 5 {} else if bn == 6 {} else {}
  }

  lemma MasksOfQuad(bn: bv64)
    requires bn < 8
    ensures ByteMask(LowSelect(Quad, bn)) == Up(Ones(Quad), bn)
    ensures ByteMask(HighSelect(Quad, bn)) == HighMask(bn, Ones(Quad))
  {
    if bn == 0 {} else if bn == 1 {} else if bn == 2 {} else if bn == 3 {}
    else if bn == 4 {} else if bn == 5 {} else if bn == 6 {} else {}
  }

  lemma MasksAre(n: Size, bn: bv64)
    requires bn < 8
    ensures ByteMask(LowSelect(n, bn)) == Up(Ones(n), bn)
    ensures ByteMask(HighSelect(n, bn)) == HighMask(bn, Ones(n))
  {
    hide ByteMask, LowSelect, HighSelect, Selector, Up, HighMask;
    match n case Word => MasksOfWord(bn); case Long => MasksOfLong(bn); case Quad => MasksOfQuad(bn);
  }

  lemma SelectorOnes(n: Size)
    ensures ByteMask(Selector(n)) == Ones(n)
  {
    match n case Word => case Long => case Quad =>
  }

  // ---- The unaligned load ----

  function Extracted(lo: bv64, hi: bv64, bn: bv64, ones: bv64): bv64
    requires bn < 8
  {
    (Down(lo, bn) & ones) | (UpRest(hi, bn) & ones)
  }

  /** Two quadwords side by side, read from byte bn of the lower one. */
  function Funnel(lo: bv64, hi: bv64, bn: bv64): bv64
    requires bn < 8
  {
    if bn == 0 then lo else Down(lo, bn) | UpRest(hi, bn)
  }

  lemma ExtractedWord(lo: bv64, hi: bv64, bn: bv64, k: bv64)
    requires bn < 8 && k < 8 && (bn + 2 <= 8 ==> hi == lo)
    ensures Byte(Extracted(lo, hi, bn, 0xffff), k)
         == if k >= 2 then 0 else if bn + k < 8 then Byte(lo, bn + k) else Byte(hi, bn + k - 8)
  {
    if bn == 0 {} else if bn == 1 {} else if bn == 2 {} else if bn == 3 {}
    else if bn == 4 {} else if bn == 5 {} else if bn == 6 {} else {}
  }

  lemma ExtractedLong(lo: bv64, hi: bv64, bn: bv64, k: bv64)
    requires bn < 8 && k < 8 && (bn + 4 <= 8 ==> hi == lo)
    ensures Byte(Extracted(lo, hi, bn, 0xffff_ffff), k)
         == if k >= 4 then 0 else if bn + k < 8 then Byte(lo, bn + k) else Byte(hi, bn + k - 8)
  {
    if bn == 0 {} else if bn == 1 {} else if bn == 2 {} else if bn == 3 {}
    else if bn == 4 {} else if bn == 5 {} else if bn == 6 {} else {}
  }

  lemma ExtractedFunnel(lo: bv64, hi: bv64, bn: bv64)
    requires bn < 8 && (bn == 0 ==> hi == lo)
    ensures Extracted(lo, hi, bn, 0xffff_ffff_ffff_ffff) == Funnel(lo, hi, bn)
  {
    if bn == 0 {} else if bn == 1 {} else if bn == 2 {} else if bn == 3 {}
    else if bn == 4 {} else if bn == 5 {} else if bn == 6 {} else {}
  }

  lemma FunnelByte(lo: bv64, hi: bv64, bn: bv64, k: bv64)
    requires bn < 8 && k < 8
    ensures Byte(Funnel(lo, hi, bn), k) == if bn + k < 8 then Byte(lo, bn + k) else Byte(hi, bn + k - 8)
  {
    if bn == 0 {} else if bn == 1 {} else if bn == 2 {} else if bn == 3 {}
    else if bn == 4 {} else if bn == 5 {} else if bn == 6 {} else {}
  }

  /** Byte k of the two extracts combined is byte bn + k of the two quadwords side by side; when the n bytes do not
      reach the next quadword, both extracts are of the same one. */
  lemma ExtractedByte(n: Size, lo: bv64, hi: bv64, bn: bv64, k: bv64)
    requires bn < 8 && k < 8
    requires bn + Bytes(n) <= 8 ==> hi == lo
    ensures Byte(Extracted(lo, hi, bn, Ones(n)), k)
         == if k >= Bytes(n) then 0 else if bn + k < 8 then Byte(lo, bn + k) else Byte(hi, bn + k - 8)
  {
    hide Byte, Extracted, Funnel;
    match n
    case Word => ExtractedWord(lo, hi, bn, k);
    case Long => ExtractedLong(lo, hi, bn, k);
    case Quad => ExtractedFunnel(lo, hi, bn); FunnelByte(lo, hi, bn, k);
  }

  // ---- The unaligned store ----

  function InsertedLow(lo: bv64, v: bv64, bn: bv64, ones: bv64): bv64
    requires bn < 8
  {
    (lo & !Up(ones, bn)) | (Up(v, bn) & Up(ones, bn))
  }

  function InsertedHigh(hi: bv64, v: bv64, bn: bv64, ones: bv64): bv64
    requires bn < 8
  {
    (hi & !HighMask(bn, ones)) | (DownRest(v, bn) & HighMask(bn, ones))
  }

  lemma InsertedLowWord(lo: bv64, v: bv64, bn: bv64, j: bv64)
    requires bn < 8 && j < 8
    ensures Byte(InsertedLow(lo, v, bn, 0xffff), j) == if bn <= j && j - bn < 2 then Byte(v, j - bn) else Byte(lo, j)
  {
    if bn == 0 {} else if bn == 1 {} else if bn == 2 {} else if bn == 3 {}
    else if bn == 4 {} else if bn == 5 {} else if bn == 6 {} else {}
  }

  lemma InsertedHighWord(hi: bv64, v: bv64, bn: bv64, j: bv64)
    requires bn < 8 && j < 8
    ensures Byte(InsertedHigh(hi, v, bn, 0xffff), j) == if j + 8 < bn + 2 then Byte(v, j + 8 - bn) else Byte(hi, j)
  {
    if bn == 0 {} else if bn == 1 {} else if bn == 2 {} else if bn == 3 {}
    else if bn == 4 {} else if bn == 5 {} else if bn == 6 {} else {}
  }

  lemma InsertedLowLong(lo: bv64, v: bv64, bn: bv64, j: bv64)
    requires bn < 8 && j < 8
    ensures Byte(InsertedLow(lo, v, bn, 0xffff_ffff), j)
         == if bn <= j && j - bn < 4 then Byte(v, j - bn) else Byte(lo, j)
  {
    if bn == 0 {} else if bn == 1 {} else if bn == 2 {} else if bn == 3 {}
    else if bn == 4 {} else if bn == 5 {} else if bn == 6 {} else {}
  }

  lemma InsertedHighLong(hi: bv64, v: bv64, bn: bv64, j: bv64)
    requires bn < 8 && j < 8
    ensures Byte(InsertedHigh(hi, v, bn, 0xffff_ffff), j) == if j + 8 < bn + 4 then Byte(v, j + 8 - bn) else Byte(hi, j)
  {
    if bn == 0 {} else if bn == 1 {} else if bn == 2 {} else if bn == 3 {}
    else if bn == 4 {} else if bn == 5 {} else if bn == 6 {} else {}
  }

  lemma InsertedLowQuad(lo: bv64, v: bv64, bn: bv64, j: bv64)
    requires bn < 8 && j < 8
    ensures Byte(InsertedLow(lo, v, bn, 0xffff_ffff_ffff_ffff), j)
         == if bn <= j && j - bn < 8 then Byte(v, j - bn) else Byte(lo, j)
  {
    if bn == 0 {} else if bn == 1 {} else if bn == 2 {} else if bn == 3 {}
    else if bn == 4 {} else if bn == 5 {} else if bn == 6 {} else {}
  }

  /** A whole quadword has no bits to cut off: its high part is a shift and what stays of hi. */
  lemma InsertedHighShift(hi: bv64, v: bv64, bn: bv64)
    requires bn < 8
    ensures InsertedHigh(hi, v, bn, 0xffff_ffff_ffff_ffff)
         == if bn == 0 then hi else ((hi >> ((8 * bn) as bv7)) << ((8 * bn) as bv7)) | (v >> ((64 - 8 * bn) as bv7))
  {
    if bn == 0 {} else if bn == 1 {} else if bn == 2 {} else if bn == 3 {}
    else if bn == 4 {} else if bn == 5 {} else if bn == 6 {} else {}
  }

  lemma ShiftedByte(hi: bv64, v: bv64, bn: bv64, j: bv64)
    requires 0 < bn < 8 && j < 8
    ensures Byte(((hi >> ((8 * bn) as bv7)) << ((8 * bn) as bv7)) | (v >> ((64 - 8 * bn) as bv7)), j)
         == if j < bn then Byte(v, j + 8 - bn) else Byte(hi, j)
  {
    if bn == 1 {} else if bn == 2 {} else if bn == 3 {}
    else if bn == 4 {} else if bn == 5 {} else if bn == 6 {} else {}
  }

  lemma InsertedHighQuad(hi: bv64, v: bv64, bn: bv64, j: bv64)
    requires bn < 8 && j < 8
    ensures Byte(InsertedHigh(hi, v, bn, 0xffff_ffff_ffff_ffff), j)
         == if j + 8 < bn + 8 then Byte(v, j + 8 - bn) else Byte(hi, j)
  {
    hide Byte, InsertedHigh;
    InsertedHighShift(hi, v, bn);
    if bn != 0 {
      ShiftedByte(hi, v, bn, j);
    }
  }

  lemma LowIs(n: Size, lo: bv64, v: bv64, bn: bv64)
    requires bn < 8
    ensures Mskl(n, lo, bn) | Insl(n, v, bn) == InsertedLow(lo, v, bn, Ones(n))
  {
    hide ByteMask, LowSelect, HighSelect, Up, Ones, HighMask;
    MasksAre(n, bn);
  }

  lemma HighIs(n: Size, hi: bv64, v: bv64, bn: bv64)
    requires bn < 8
    ensures Mskh(n, hi, bn) | Insh(n, v, bn) == InsertedHigh(hi, v, bn, Ones(n))
  {
    hide ByteMask, LowSelect, HighSelect, Up, DownRest, Ones, HighMask;
    MasksAre(n, bn);
  }

  lemma ExtractIs(n: Size, lo: bv64, hi: bv64, bn: bv64)
    requires bn < 8
    ensures Extl(n, lo, bn) | Exth(n, hi, bn) == Extracted(lo, hi, bn, Ones(n))
  {
    hide ByteMask, Selector, Down, UpRest, Ones;
    SelectorOnes(n);
  }

  function LowPart(n: Size, lo: bv64, v: bv64, bn: bv64, j: bv64): bv8
    requires bn < 8 && j < 8
  {
    if bn <= j && j - bn < Bytes(n) then Byte(v, j - bn) else Byte(lo, j)
  }

  function HighPart(n: Size, hi: bv64, v: bv64, bn: bv64, j: bv64): bv8
    requires bn < 8 && j < 8
  {
    if j + 8 < bn + Bytes(n) then Byte(v, j + 8 - bn) else Byte(hi, j)
  }

  /** Mask and insert low put the bytes of v that fall in the quadword of a, from byte a mod 8 up ... */
  lemma LowByte(n: Size, lo: bv64, v: bv64, bn: bv64, j: bv64)
    requires bn < 8 && j < 8
    ensures Byte(Mskl(n, lo, bn) | Insl(n, v, bn), j) == LowPart(n, lo, v, bn, j)
  {
    hide Byte, ByteMask, LowSelect, HighSelect, InsertedLow, Mskl, Insl;
    LowIs(n, lo, v, bn);
    match n
    case Word => InsertedLowWord(lo, v, bn, j);
    case Long => InsertedLowLong(lo, v, bn, j);
    case Quad => InsertedLowQuad(lo, v, bn, j);
  }

  /** ... and mask and insert high the rest of them, at the bottom of the next quadword. */
  lemma HighByte(n: Size, hi: bv64, v: bv64, bn: bv64, j: bv64)
    requires bn < 8 && j < 8
    ensures Byte(Mskh(n, hi, bn) | Insh(n, v, bn), j) == HighPart(n, hi, v, bn, j)
  {
    hide Byte, ByteMask, LowSelect, HighSelect, InsertedHigh, Mskh, Insh;
    HighIs(n, hi, v, bn);
    match n
    case Word => InsertedHighWord(hi, v, bn, j);
    case Long => InsertedHighLong(hi, v, bn, j);
    case Quad => InsertedHighQuad(hi, v, bn, j);
  }

  // ---- byte_mask as the loop it is ----

  /** The part of ByteMask(m) that the low i bits of m select. */
  function MaskBelow(m: bv32, i: bv32): bv64 {
    if i == 0 then 0
    else if i == 1 then ByteMask(m & 0x01)
    else if i == 2 then ByteMask(m & 0x03)
    else if i == 3 then ByteMask(m & 0x07)
    else if i == 4 then ByteMask(m & 0x0f)
    else if i == 5 then ByteMask(m & 0x1f)
    else if i == 6 then ByteMask(m & 0x3f)
    else if i == 7 then ByteMask(m & 0x7f)
    else ByteMask(m)
  }

  lemma MaskStep(m: bv32, i: bv32)
    requires i < 8
    ensures MaskBelow(m, i + 1)
         == if (m >> (i as bv6)) & 1 == 1 then MaskBelow(m, i) | (0xff << ((8 * i) as bv7)) else MaskBelow(m, i)
  {
    if i == 0 {} else if i == 1 {} else if i == 2 {} else if i == 3 {}
    else if i == 4 {} else if i == 5 {} else if i == 6 {} else {}
  }

  /** byte_mask. */
  method ByteMaskLoop(m: bv32) returns (r: bv64)
    ensures r == ByteMask(m)
  {
    hide ByteMask;
    r := 0;
    var i: bv32 := 0;
    while i < 8
      invariant i <= 8
      invariant r == MaskBelow(m, i)
      decreases 8 - i
    {
      MaskStep(m, i);
      if (m >> (i as bv6)) & 1 == 1 {
        r := r | (0xff << ((8 * i) as bv7));
      }
      i := i + 1;
    }
  }
}
