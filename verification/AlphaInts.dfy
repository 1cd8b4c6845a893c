/** The members of the INTS group that the unaligned idioms do not use: single bytes, the byte zapper and the shifts. */
module AlphaInts {
  import opened AlphaBytes
  import opened AlphaMachine
  import opened Options

  /** Whether byte k is selected by the low eight bits of a register. */
  predicate Selects(rbv: bv64, k: bv64)
    requires k < 8
  {
    (rbv >> (k as bv7)) & 1 == 1
  }

  /** The mask of a byte selection: all ones in the selected bytes, zero in the others. */
  lemma MaskByte(rbv: bv64, k: bv64)
    requires k < 8
    ensures Byte(ByteMask((rbv & 0xff) as bv32), k) == if Selects(rbv, k) then 0xff else 0
  {
    if k == 0 {} else if k == 1 {} else if k == 2 {} else if k == 3 {}
    else if k == 4 {} else if k == 5 {} else if k == 6 {} else {}
  }

  /** zap clears the bits of that mask, zapnot all others. */
  lemma Zaps(rav: bv64, rbv: bv64)
    ensures var mask := ByteMask((rbv & 0xff) as bv32);
            Ints(0x30, rav, rbv) == Some(rav & !mask) && Ints(0x31, rav, rbv) == Some(rav & mask)
  {
    hide ByteMask, Offset, Mskb, Extb, Insb, Mskl, Extl, Insl;
  }

  lemma MskbByte(rav: bv64, bn: bv64, k: bv64)
    requires bn < 8 && k < 8
    ensures Byte(Mskb(rav, bn), k) == if k == bn then 0 else Byte(rav, k)
  {
    if bn == 0 {} else if bn == 1 {} else if bn == 2 {} else if bn == 3 {}
    else if bn == 4 {} else if bn == 5 {} else if bn == 6 {} else {}
  }

  lemma ExtbByte(rav: bv64, bn: bv64, k: bv64)
    requires bn < 8 && k < 8
    ensures Byte(Extb(rav, bn), k) == if k == 0 then Byte(rav, bn) else 0
  {
    if bn == 0 {} else if bn == 1 {} else if bn == 2 {} else if bn == 3 {}
    else if bn == 4 {} else if bn == 5 {} else if bn == 6 {} else {}
  }

  lemma InsbByte(rav: bv64, bn: bv64, k: bv64)
    requires bn < 8 && k < 8
    ensures Byte(Insb(rav, bn), k) == if k == bn then Byte(rav, 0) else 0
  {
    if bn == 0 {} else if bn == 1 {} else if bn == 2 {} else if bn == 3 {}
    else if bn == 4 {} else if bn == 5 {} else if bn == 6 {} else {}
  }

  /** mskbl clears one byte, extbl moves it to the bottom, insbl moves the lowest byte to it. */
  lemma SingleBytes(rav: bv64, rbv: bv64, k: bv64)
    requires k < 8
    ensures var r := Ints(0x02, rav, rbv);
            r.Some? && Byte(r.value, k) == if k == Offset(rbv) then 0 else Byte(rav, k)
    ensures var r := Ints(0x06, rav, rbv);
            r.Some? && Byte(r.value, k) == if k == 0 then Byte(rav, Offset(rbv)) else 0
    ensures var r := Ints(0x0b, rav, rbv);
            r.Some? && Byte(r.value, k) == if k == Offset(rbv) then Byte(rav, 0) else 0
  {
    hide Byte, Offset, Mskb, Extb, Insb;
    MskbByte(rav, Offset(rbv), k);
    ExtbByte(rav, Offset(rbv), k);
    InsbByte(rav, Offset(rbv), k);
  }

  lemma ShiftCodes(rav: bv64, rbv: bv64)
    ensures Ints(0x34, rav, rbv) == Some(Srl(rav, rbv))
    ensures Ints(0x39, rav, rbv) == Some(Sll(rav, rbv))
    ensures Ints(0x3c, rav, rbv) == Some(Sra(rav, rbv))
  {
    hide Offset, Zap, Zapnot, Srl, Sll, Sra, Down, Mskb, Extb, Insb, Mskl, Extl, Insl, Mskh, Exth, Insh;
  }

  lemma ShiftValues(rav: bv64, rbv: bv64)
    ensures Srl(rav, rbv) == rav >> ((rbv & 63) as bv7)
    ensures Sll(rav, rbv) == rav << ((rbv & 63) as bv7)
  {
  }

  lemma SignedShift(rav: bv64, rbv: bv64)
    ensures var s := (rbv & 63) as bv7;
            Sra(rav, rbv) == if rav < 0x8000_0000_0000_0000 then rav >> s else !((!rav) >> s)
  {
    SignBit(rav);
  }

  lemma SignBit(x: bv64)
    ensures x & 0x8000_0000_0000_0000 == 0 <==> x < 0x8000_0000_0000_0000
  {
  }
}
