/** PALmode in the step machine of execAlpha: the dispatch on the opcode, entry to and return from PAL code. What the
    instructions outside the model do to registers, memory and the next PC is a parameter of each step. */
module AlphaPal {
  import opened AlphaBytes
  import opened AlphaMachine
  import opened Options

  const IPR_EXC_ADDR: nat := 1
  const IPR_PAL_BASE: nat := 2

  const PAL_OPCDEC: bv64 := 0x13e0
  const PAL_CALLPAL_PRIV: bv64 := 0x2000
  const PAL_CALLPAL_UNPRIV: bv64 := 0x3000

  type Iprs = s: seq<bv64> | |s| == 64 witness seq(64, i => 0)

  datatype Cpu = Cpu(pc: bv64, gpr: Registers, mem: Memory, ipr: Iprs, palmode: bool)

  /** What an instruction outside the model does. */
  datatype Effect = Effect(gpr: Registers, mem: Memory, npc: bv64)

  /** Stop is the exit of the interpreter on an illegal instruction without a PAL image. */
  datatype Outcome = Next(cpu: Cpu) | Stop

  // ---- Memory by longword ----

  function FourBytes(b0: bv8, b1: bv8, b2: bv8, b3: bv8): bv32 {
    (b0 as bv32) | ((b1 as bv32) << 8) | ((b2 as bv32) << 16) | ((b3 as bv32) << 24)
  }

  function Load32(m: Memory, a: bv64): bv32 {
    FourBytes(ByteAt(m, a), ByteAt(m, Plus(a, 1)), ByteAt(m, Plus(a, 2)), ByteAt(m, Plus(a, 3)))
  }

  function SextLong(x: bv32): bv64 { Sext32(x as bv64) }

  function Low32(x: bv64): bv32 { (x & 0xffff_ffff) as bv32 }

  predicate InLowHalf(a: bv64) { a & 4 == 0 }

  function LowHalf(q: bv64, x: bv64): bv64 { (q & 0xffff_ffff_0000_0000) | (x & 0xffff_ffff) }
  function HighHalf(q: bv64, x: bv64): bv64 { (q & 0xffff_ffff) | (x << 32) }

  /** An aligned longword is one half of its quadword. */
  function StoreLong(m: Memory, a: bv64, x: bv64): Memory {
    var q := m(Aligned(a));
    StoreQuad(m, Aligned(a),
              if InLowHalf(a) then LowHalf(q, x) else HighHalf(q, x))
  }

  /** hw_ld and hw_st: the quadword bit, and the naturally aligned address. */
  predicate IsQuad(raw: bv32) { (raw >> 12) & 1 == 1 }

  function PhysAddr(s: Cpu, raw: bv32): bv64 {
    var ea := Plus(s.gpr[Rb(raw)], Sext12((raw & 0xfff) as bv64));
    if IsQuad(raw) then ea & !7 else ea & !3
  }

  function PhysLoad(s: Cpu, raw: bv32): bv64 {
    var ea := PhysAddr(s, raw);
    if IsQuad(raw) then s.mem(ea) else SextLong(Load32(s.mem, ea))
  }

  function PhysStore(s: Cpu, raw: bv32): Memory {
    var ea := PhysAddr(s, raw);
    if IsQuad(raw) then StoreQuad(s.mem, ea, s.gpr[Ra(raw)]) else StoreLong(s.mem, ea, s.gpr[Ra(raw)])
  }

  // ---- What hw_st stores, hw_ld loads ----

  predicate LongAligned(a: bv64) { a & 3 == 0 }

  lemma LongQuadBits(a: bv64, k: bv64)
    requires a & 3 == 0 && k < 4
    ensures (a + k) & !7 == a & !7
  {
  }

  lemma LongQuad(a: bv64, k: bv64)
    requires LongAligned(a) && k < 4
    ensures Aligned(Plus(a, k)) == Aligned(a)
  {
    LongQuadBits(a, k);
    assert Plus(a, k) == a + k;
    assert Aligned(a + k) == (a + k) & !7;
  }

  lemma LongPlace(a: bv64, k: bv64)
    requires LongAligned(a) && k < 4
    ensures Offset(Plus(a, k)) == if InLowHalf(a) then k else Plus(4, k)
  {
    assert Plus(a, k) == a + k;
  }

  lemma LowHalfByte(q: bv64, x: bv64, k: bv64)
    requires k < 4
    ensures Byte(LowHalf(q, x), k) == Byte(x, k)
  {
    if k == 0 {} else if k == 1 {} else if k == 2 {} else {}
  }

  lemma HighHalfByte(q: bv64, x: bv64, k: bv64)
    requires k < 4
    ensures Plus(4, k) < 8 && Byte(HighHalf(q, x), Plus(4, k)) == Byte(x, k)
  {
    if k == 0 {} else if k == 1 {} else if k == 2 {} else {}
  }

  /** The four bytes at a become the low four of x, lowest first. */
  lemma LongByte(m: Memory, a: bv64, x: bv64, k: bv64)
    requires LongAligned(a) && k < 4
    ensures ByteAt(StoreLong(m, a, x), Plus(a, k)) == Byte(x, k)
  {
    hide Byte, LowHalf, HighHalf, Aligned, Plus, Offset, InLowHalf, LongAligned;
    LongQuad(a, k);
    LongPlace(a, k);
    var q := m(Aligned(a));
    LowHalfByte(q, x, k);
    HighHalfByte(q, x, k);
  }

  lemma JoinBytes(x: bv64)
    ensures FourBytes(Byte(x, 0), Byte(x, 1), Byte(x, 2), Byte(x, 3)) == Low32(x)
  {
  }

  lemma PlusZero(a: bv64)
    ensures Plus(a, 0) == a
  {
  }

  lemma LongRoundTrip(m: Memory, a: bv64, x: bv64)
    requires LongAligned(a)
    ensures Load32(StoreLong(m, a, x), a) == Low32(x)
  {
    hide Byte, ByteAt, StoreLong, Plus, LongAligned, FourBytes, Low32;
    PlusZero(a);
    LongByte(m, a, x, 0);
    LongByte(m, a, x, 1);
    LongByte(m, a, x, 2);
    LongByte(m, a, x, 3);
    JoinBytes(x);
  }

  lemma MaskedLong(ea: bv64)
    ensures LongAligned(ea & !3)
  {
  }

  lemma LongAddr(s: Cpu, raw: bv32)
    requires !IsQuad(raw)
    ensures LongAligned(PhysAddr(s, raw))
  {
    hide Sext12, LongAligned, IsQuad, Rb, Plus;
    MaskedLong(Plus(s.gpr[Rb(raw)], Sext12((raw & 0xfff) as bv64)));
  }

  lemma SameAddr(s: Cpu, raw: bv32, m: Memory)
    ensures PhysAddr(s.(mem := m), raw) == PhysAddr(s, raw)
  {
    hide Sext12, IsQuad, Rb, Plus;
  }

  /** hw_ld of the place that hw_st of the same format has stored to: the quadword, or the longword sign-extended. */
  lemma LoadReadsStore(s: Cpu, raw: bv32)
    ensures PhysLoad(s.(mem := PhysStore(s, raw)), raw)
         == if IsQuad(raw) then s.gpr[Ra(raw)] else SextLong(Low32(s.gpr[Ra(raw)]))
  {
    hide Load32, Low32, StoreLong, PhysAddr, SextLong, Ra, IsQuad, LongAligned;
    SameAddr(s, raw, PhysStore(s, raw));
    if !IsQuad(raw) {
      LongAddr(s, raw);
      LongRoundTrip(s.mem, PhysAddr(s, raw), s.gpr[Ra(raw)]);
    }
  }

  // ---- The bytes that hw_st writes ----

  lemma QuadBit(raw: bv32)
    ensures IsQuad(raw) <==> raw & 0x1000 != 0
  {
  }

  lemma OffsetBits(raw: bv32)
    ensures Sext12((raw & 0xfff) as bv64)
         == if raw & 0x800 == 0 then (raw & 0xfff) as bv64 else ((raw & 0xfff) as bv64) - 0x1000
  {
  }

  /** hw_ld and hw_st: a register plus a signed displacement of 12 bits, aligned by the quadword bit. */
  lemma PalAddress(s: Cpu, raw: bv32, ea: bv64)
    requires ea == Plus(s.gpr[Rb(raw)], Sext12((raw & 0xfff) as bv64))
    ensures raw & 0x1000 != 0 ==> PhysAddr(s, raw) == ea & !7
    ensures raw & 0x1000 == 0 ==> PhysAddr(s, raw) == ea & !3
  {
    hide Rb, Plus, Sext12, IsQuad;
    QuadBit(raw);
  }

  lemma LowHalfKeeps(q: bv64, x: bv64, k: bv64)
    requires 4 <= k < 8
    ensures Byte(LowHalf(q, x), k) == Byte(q, k)
  {
    if k == 4 {} else if k == 5 {} else if k == 6 {} else {}
  }

  lemma HighHalfKeeps(q: bv64, x: bv64, k: bv64)
    requires k < 4
    ensures Byte(HighHalf(q, x), k) == Byte(q, k)
  {
    if k == 0 {} else if k == 1 {} else if k == 2 {} else {}
  }

  lemma OtherHalf(a: bv64, p: bv64)
    requires LongAligned(a) && p & !3 != a && Aligned(p) == Aligned(a)
    ensures if InLowHalf(a) then 4 <= Offset(p) else Offset(p) < 4
  {
  }

  lemma LongKeeps(m: Memory, a: bv64, x: bv64, p: bv64)
    requires LongAligned(a) && p & !3 != a
    ensures ByteAt(StoreLong(m, a, x), p) == ByteAt(m, p)
  {
    hide Byte, LowHalf, HighHalf, Aligned, Offset, InLowHalf, LongAligned;
    var q := m(Aligned(a));
    if Aligned(p) == Aligned(a) {
      OtherHalf(a, p);
      if InLowHalf(a) {
        LowHalfKeeps(q, x, Offset(p));
      } else {
        HighHalfKeeps(q, x, Offset(p));
      }
    }
  }

  lemma QuadPlaceBits(a: bv64, k: bv64)
    requires a & !7 == a && k < 8
    ensures (a + k) & !7 == a && (a + k) & 7 == k
  {
  }

  lemma QuadPlace(a: bv64, k: bv64)
    requires Aligned(a) == a && k < 8
    ensures Aligned(Plus(a, k)) == a && Offset(Plus(a, k)) == k
  {
    assert Plus(a, k) == a + k;
    QuadPlaceBits(a, k);
  }

  lemma AlignedTwice(a: bv64)
    ensures Aligned(a & !7) == a & !7
  {
  }

  lemma QuadAddr(s: Cpu, raw: bv32)
    requires IsQuad(raw)
    ensures Aligned(PhysAddr(s, raw)) == PhysAddr(s, raw)
  {
    hide PhysAddr, Rb, Plus, Sext12, IsQuad, Aligned;
    var ea := Plus(s.gpr[Rb(raw)], Sext12((raw & 0xfff) as bv64));
    QuadBit(raw);
    PalAddress(s, raw, ea);
    AlignedTwice(ea);
  }

  /** hw_st writes the eight or the four low bytes of the register at its address ... */
  lemma StoreWrites(s: Cpu, raw: bv32, a: bv64, k: bv64)
    requires a == PhysAddr(s, raw) && k < (if raw & 0x1000 != 0 then 8 else 4)
    ensures ByteAt(PhysStore(s, raw), Plus(a, k)) == Byte(s.gpr[Ra(raw)], k)
  {
    hide Byte, Aligned, Offset, Plus, StoreLong, IsQuad, PhysAddr, Ra, LongAligned;
    QuadBit(raw);
    if IsQuad(raw) {
      QuadAddr(s, raw);
      QuadPlace(a, k);
    } else {
      LongAddr(s, raw);
      LongByte(s.mem, a, s.gpr[Ra(raw)], k);
    }
  }

  /** ... and no other byte. */
  lemma StoreKeeps(s: Cpu, raw: bv32, a: bv64, p: bv64)
    requires a == PhysAddr(s, raw) && p & (if raw & 0x1000 != 0 then !7 else !3) != a
    ensures ByteAt(PhysStore(s, raw), p) == ByteAt(s.mem, p)
  {
    hide Byte, Offset, StoreLong, IsQuad, PhysAddr, Ra, LongAligned;
    QuadBit(raw);
    if !IsQuad(raw) {
      LongAddr(s, raw);
      LongKeeps(s.mem, a, s.gpr[Ra(raw)], p);
    }
  }

  // ---- Entry ----

  /** enter_pal saves the return PC, its low bit the mode being left. */
  function SavedPc(pc: bv64, palmode: bool): bv64 { (pc & !3) | (if palmode then 1 else 0) }
  function ResumePc(saved: bv64): bv64 { saved & !3 }
  predicate ResumesInPal(saved: bv64) { saved & 1 != 0 }

  function Enter(s: Cpu, pc: bv64, off: bv64): Cpu {
    s.(ipr := s.ipr[IPR_EXC_ADDR := SavedPc(pc, s.palmode)], palmode := true, pc := Plus(s.ipr[IPR_PAL_BASE], off))
  }

  /** Bit 7 of the function selects the region, bits 5:0 the 64-byte slot. */
  function CallPalEntry(func: bv64): bv64 {
    (if func & 0x80 != 0 then PAL_CALLPAL_UNPRIV else PAL_CALLPAL_PRIV) + ((func & 0x3f) << 6)
  }

  /** The entries this interpreter defines: OPCDEC and the two CALL_PAL regions. */
  predicate IsEntry(off: bv64) {
    off == PAL_OPCDEC || off & !0xfc0 == PAL_CALLPAL_PRIV || off & !0xfc0 == PAL_CALLPAL_UNPRIV
  }

  // ---- Dispatch ----

  datatype PalOp = HwMfpr | HwMtpr | HwLd | HwSt | HwRei

  datatype Class = CallPal | Reserved(op: PalOp) | Modelled(insn: Insn) | Illegal | Outside

  type IprIndex = i: nat | i < 64

  function Field6(raw: bv32): IprIndex { (raw & 0x3f) as bv6 as nat }

  function OperandB(raw: bv32): Operand { if IsLit(raw) then Literal(Lit(raw)) else InReg(Rb(raw)) }

  /** The switch of execAlpha. */
  function Classify(raw: bv32): Class {
    var op := Opcode(raw);
    if op == 0x00 then CallPal
    else if op == 0x19 then Reserved(HwMfpr)
    else if op == 0x1d then Reserved(HwMtpr)
    else if op == 0x1b then Reserved(HwLd)
    else if op == 0x1f then Reserved(HwSt)
    else if op == 0x1e then Reserved(HwRei)
    else if op == 0x0b then Modelled(LdqU(Ra(raw), Rb(raw), Sext16(Disp(raw))))
    else if op == 0x0f then Modelled(StqU(Ra(raw), Rb(raw), Sext16(Disp(raw))))
    else if op == 0x12 then Modelled(IntS(Func(raw), Ra(raw), OperandB(raw), Rc(raw)))
    else if op == 0x11 && Func(raw) == 0x20 then Modelled(Bis(Ra(raw), OperandB(raw), Rc(raw)))
    else if 0x01 <= op <= 0x07 || op in [0x15, 0x20, 0x21, 0x24, 0x25] then Illegal
    else Outside
  }

  function Finish(s: Cpu): Cpu { Cpu(s.pc, ClearZero(s.gpr), s.mem, s.ipr, s.palmode) }

  /** An opcode or function without a case: the OPCDEC fault when a PAL image is loaded. */
  function Opcdec(s: Cpu, loaded: bool): Option<Cpu> {
    if loaded then Some(Enter(s, s.pc, PAL_OPCDEC)) else None
  }

  function Apply(s: Cpu, e: Effect): Cpu { s.(gpr := e.gpr, mem := e.mem, pc := e.npc) }

  function Fetch(s: Cpu): bv32 { Load32(s.mem, s.pc) }

  /** The five opcodes that are legal in PALmode only. */
  function DoPal(op: PalOp, raw: bv32, s: Cpu): Cpu {
    hide PhysLoad, PhysStore, ResumePc, ResumesInPal, Field6, Ra;
    match op
    case HwMfpr => s.(pc := Plus(s.pc, 4), gpr := s.gpr[Ra(raw) := s.ipr[Field6(raw)]])
    case HwMtpr => s.(pc := Plus(s.pc, 4), ipr := s.ipr[Field6(raw) := s.gpr[Ra(raw)]])
    case HwLd => s.(pc := Plus(s.pc, 4), gpr := s.gpr[Ra(raw) := PhysLoad(s, raw)])
    case HwSt => s.(pc := Plus(s.pc, 4), mem := PhysStore(s, raw))
    case HwRei =>
      s.(pc := ResumePc(s.ipr[IPR_EXC_ADDR]), palmode := ResumesInPal(s.ipr[IPR_EXC_ADDR]))
  }

  /** The switch of execAlpha outside system mode; None for an exit. */
  function Switch(s: Cpu, loaded: bool, other: Option<Effect>): Option<Cpu> {
    hide Fetch, PalFunc, CallPalEntry, Do, DoPal, Classify, Enter;
    var raw := Fetch(s);
    var npc := Plus(s.pc, 4);
    match Classify(raw)
    case CallPal =>
      if loaded && PalFunc(raw) != 0xb0 then Some(Enter(s, npc, CallPalEntry(PalFunc(raw))))
      else if other.Some? then Some(Apply(s, other.value))
      else None
    case Reserved(op) => if s.palmode then Some(DoPal(op, raw, s)) else Opcdec(s, loaded)
    case Modelled(insn) =>
      var d := Do(insn, Core(s.gpr, s.mem), false);
      if d.Some? then Some(s.(gpr := d.value.gpr, mem := d.value.mem, pc := npc)) else Opcdec(s, loaded)
    case Illegal => Opcdec(s, loaded)
    case Outside => if other.Some? then Some(Apply(s, other.value)) else Opcdec(s, loaded)
  }

  function Step(s: Cpu, loaded: bool, other: Option<Effect>): Outcome {
    match Switch(s, loaded, other)
    case Some(next) => Next(Finish(next))
    case None => Stop
  }

  /** The interpreter's state, updated in place. */
  class Machine {
    var pc: bv64
    var gpr: Registers
    var mem: Memory
    var ipr: Iprs
    var palmode: bool
    const loaded: bool

    constructor (entry: bv64, image: Memory, palBase: bv64, loaded: bool)
      ensures this.loaded == loaded && Value() == Cpu(entry, gpr, image, ipr, false)
      ensures ipr[IPR_PAL_BASE] == palBase
    {
      pc, mem, palmode, this.loaded := entry, image, false, loaded;
      gpr := seq(32, _ => 0);
      ipr := seq(64, i => if i == IPR_PAL_BASE then palBase else 0);
    }

    function Value(): Cpu
      reads this
    {
      Cpu(pc, gpr, mem, ipr, palmode)
    }

    /** enter_pal; returns the new PC. */
    method EnterPal(resume: bv64, off: bv64) returns (npc: bv64)
      modifies this`ipr, this`palmode
      ensures Value().(pc := npc) == Enter(old(Value()), resume, off)
    {
      ipr := ipr[IPR_EXC_ADDR := SavedPc(resume, palmode)];
      palmode := true;
      npc := Plus(ipr[IPR_PAL_BASE], off);
    }

    method ExecPalOp(op: PalOp, raw: bv32) returns (npc: bv64)
      modifies this`gpr, this`mem, this`ipr, this`palmode
      ensures DoPal(op, raw, old(Value())) == Value().(pc := npc)
    {
      hide PhysLoad, PhysStore, ResumePc, ResumesInPal, Plus, Field6, Ra;
      npc := Plus(pc, 4);
      match op {
        case HwMfpr => gpr := gpr[Ra(raw) := ipr[Field6(raw)]];
        case HwMtpr => ipr := ipr[Field6(raw) := gpr[Ra(raw)]];
        case HwLd => gpr := gpr[Ra(raw) := PhysLoad(Value(), raw)];
        case HwSt => mem := PhysStore(Value(), raw);
        case HwRei =>
          npc := ResumePc(ipr[IPR_EXC_ADDR]);
          palmode := ResumesInPal(ipr[IPR_EXC_ADDR]);
      }
    }

    /** The switch: where it ends without an exit, the new PC, or the jump to `opcdec`. */
    method Dispatch(other: Option<Effect>) returns (stopped: bool, opcdec: bool, npc: bv64)
      modifies this
      ensures stopped ==> Switch(old(Value()), loaded, other).None?
      ensures !stopped && opcdec ==>
                Value() == old(Value()) && Switch(Value(), loaded, other) == Opcdec(Value(), loaded)
      ensures !stopped && !opcdec ==> Switch(old(Value()), loaded, other) == Some(Value().(pc := npc))
    {
      hide Load32, PalFunc, CallPalEntry, Enter, Plus, Do, DoPal, Classify, Opcdec;
      var raw := Load32(mem, pc);
      npc := Plus(pc, 4);
      stopped, opcdec := false, false;
      match Classify(raw) {
        case CallPal =>
          if loaded && PalFunc(raw) != 0xb0 {
            npc := EnterPal(npc, CallPalEntry(PalFunc(raw)));
          } else if other.Some? {
            gpr, mem, npc := other.value.gpr, other.value.mem, other.value.npc;
          } else {
            stopped := true;
          }
        case Reserved(op) =>
          if palmode {
            npc := ExecPalOp(op, raw);
          } else {
            opcdec := true;
          }
        case Modelled(insn) =>
          var d := Do(insn, Core(gpr, mem), false);
          if d.Some? {
            gpr, mem := d.value.gpr, d.value.mem;
          } else {
            opcdec := true;
          }
        case Illegal =>
          opcdec := true;
        case Outside =>
          if other.Some? {
            gpr, mem, npc := other.value.gpr, other.value.mem, other.value.npc;
          } else {
            opcdec := true;
          }
      }
    }

    /** execAlpha; stopped when the interpreter exits. */
    method ExecAlpha(other: Option<Effect>) returns (stopped: bool)
      modifies this
      ensures stopped <==> Step(old(Value()), loaded, other).Stop?
      ensures !stopped ==> Step(old(Value()), loaded, other) == Next(Value())
    {
      hide Switch, Enter, ClearZero;
      var opcdec, npc;
      stopped, opcdec, npc := Dispatch(other);
      if stopped {
        return;
      }
      if opcdec {
        if !loaded {
          return true;
        }
        npc := EnterPal(pc, PAL_OPCDEC);
      }
      gpr := ClearZero(gpr);
      pc := npc;
    }
  }

  // ---- Steps ----

  /** Slot f mod 64 of the region at 0x2000, or at 0x3000 when bit 7 of f is set. */
  function CallSlot(f: bv64): bv64 {
    (if f & 0x80 == 0 then 0x2000 else 0x3000) + 64 * (f % 64)
  }

  lemma SlotIs(func: bv64)
    ensures CallPalEntry(func) == CallSlot(func)
  {
    if func & 0x80 != 0 {} else {}
  }

  lemma SlotIsEntry(func: bv64)
    ensures IsEntry(CallSlot(func)) && CallSlot(func) != 0x13e0
  {
    if func & 0x80 != 0 {} else {}
  }

  /** The entry at off is what the instruction raw asks for: the OPCDEC vector, or the slot of the CALL_PAL function
      that raw names. */
  predicate AsksFor(raw: bv32, off: bv64) {
    || off == 0x13e0
    || (raw >> 26 == 0 && raw & 0x3ff_ffff != 0xb0 && off == CallSlot((raw & 0x3ff_ffff) as bv64))
  }

  /** The step from s to t enters PAL code at off, to resume at pc: OPCDEC at the instruction itself, CALL_PAL after
      it. */
  ghost predicate Entered(s: Cpu, t: Cpu, pc: bv64, off: bv64) {
    && IsEntry(off) && AsksFor(Fetch(s), off)
    && pc == (if off == 0x13e0 then s.pc else Plus(s.pc, 4))
    && t == Finish(Enter(s, pc, off))
  }

  ghost predicate Enters(s: Cpu, t: Cpu) { exists pc, off :: Entered(s, t, pc, off) }

  /** The step from s runs a reserved opcode, PALmode allowing. */
  predicate Runs(s: Cpu, op: PalOp) { s.palmode && Classify(Fetch(s)) == Reserved(op) }

  ghost predicate RanPal(s: Cpu, t: Cpu, op: PalOp) { Runs(s, op) && t == Finish(DoPal(op, Fetch(s), s)) }

  ghost predicate Steps(s: Cpu, t: Cpu, loaded: bool) { exists other :: Step(s, loaded, other) == Next(t) }

  /** An instruction without a case enters at the OPCDEC vector ... */
  lemma OpcdecEntered(s: Cpu, loaded: bool)
    requires loaded
    ensures Opcdec(s, loaded).Some? && Entered(s, Finish(Opcdec(s, loaded).value), s.pc, 0x13e0)
  {
    hide Fetch, Enter, Plus;
  }

  lemma CallPalOpcode(raw: bv32)
    ensures Classify(raw) == CallPal <==> raw >> 26 == 0
    ensures PalFunc(raw) == 0xb0 <==> raw & 0x3ff_ffff == 0xb0
    ensures PalFunc(raw) == (raw & 0x3ff_ffff) as bv64
  {
    hide Sext16, Disp, Func, OperandB, Ra, Rb, Rc;
    TopSix(raw);
  }

  lemma TopSix(raw: bv32)
    ensures Opcode(raw) == 0 <==> raw >> 26 == 0
  {
  }

  /** ... and a CALL_PAL at the slot of its function. */
  lemma CallPalEntered(s: Cpu, npc: bv64)
    requires Classify(Fetch(s)) == CallPal && PalFunc(Fetch(s)) != 0xb0 && npc == Plus(s.pc, 4)
    ensures Entered(s, Finish(Enter(s, npc, CallPalEntry(PalFunc(Fetch(s))))), npc, CallPalEntry(PalFunc(Fetch(s))))
  {
    hide Fetch, Enter, Plus, Classify, CallPalEntry, CallSlot, IsEntry, PalFunc;
    var raw := Fetch(s);
    CallPalOpcode(raw);
    SlotIs(PalFunc(raw));
    SlotIsEntry(PalFunc(raw));
  }

  /** Every step enters PAL code, runs a reserved opcode, or leaves the mode and the registers of PAL code alone. */
  lemma StepKinds(s: Cpu, t: Cpu, loaded: bool)
    requires Steps(s, t, loaded)
    ensures Enters(s, t)
         || (exists op :: RanPal(s, t, op))
         || (t.palmode == s.palmode && t.ipr == s.ipr)
  {
    hide Fetch, PalFunc, CallPalEntry, Do, DoPal, Classify, Enter, Plus, Opcdec, Entered;
    var other :| Step(s, loaded, other) == Next(t);
    OpcdecNone(s, loaded);
    if loaded {
      OpcdecEntered(s, loaded);
    }
    match Classify(Fetch(s))
    case CallPal =>
      if loaded && PalFunc(Fetch(s)) != 0xb0 {
        CallPalEntered(s, Plus(s.pc, 4));
      }
    case Reserved(op) => if s.palmode { assert RanPal(s, t, op); }
    case Modelled(insn) =>
    case Illegal =>
    case Outside =>
  }

  lemma OpcdecNone(s: Cpu, loaded: bool)
    ensures !loaded ==> Opcdec(s, loaded).None?
  {
  }

  /** PALmode turns on only by entry at PAL_BASE plus a defined offset ... */
  lemma TurnsOnAtEntry(s: Cpu, t: Cpu, loaded: bool)
    requires Steps(s, t, loaded) && !s.palmode && t.palmode
    ensures Enters(s, t)
  {
    hide Fetch, DoPal, Classify, Entered, Step;
    StepKinds(s, t, loaded);
  }

  /** ... and off only by hw_rei. */
  lemma TurnsOffByHwRei(s: Cpu, t: Cpu, loaded: bool)
    requires Steps(s, t, loaded) && s.palmode && !t.palmode
    ensures Runs(s, HwRei) && !ResumesInPal(s.ipr[IPR_EXC_ADDR]) && t.pc == ResumePc(s.ipr[IPR_EXC_ADDR])
  {
    hide Fetch, Classify, Step, ResumesInPal, ResumePc, PhysLoad, PhysStore, Field6, Ra, Plus;
    StepKinds(s, t, loaded);
  }

  /** Outside PALmode a step changes no internal register, except EXC_ADDR when it enters. */
  lemma UserKeepsIprs(s: Cpu, t: Cpu, loaded: bool)
    requires Steps(s, t, loaded) && !s.palmode
    ensures t.ipr == if t.palmode then s.ipr[IPR_EXC_ADDR := t.ipr[IPR_EXC_ADDR]] else s.ipr
  {
    hide Fetch, Classify, Step, DoPal;
    StepKinds(s, t, loaded);
  }

  /** The step neither enters PAL code nor writes EXC_ADDR by hw_mtpr. */
  ghost predicate SparesExcAddr(s: Cpu, t: Cpu) {
    !Enters(s, t) && !(Runs(s, HwMtpr) && Field6(Fetch(s)) == IPR_EXC_ADDR)
  }

  /** Nothing else changes EXC_ADDR. */
  lemma ExcAddrKept(s: Cpu, t: Cpu, loaded: bool)
    requires Steps(s, t, loaded) && SparesExcAddr(s, t)
    ensures t.ipr[IPR_EXC_ADDR] == s.ipr[IPR_EXC_ADDR]
  {
    hide Fetch, Classify, Step, Entered, PhysLoad, PhysStore, ResumesInPal, ResumePc, Field6, Ra, Plus;
    StepKinds(s, t, loaded);
  }

  // ---- Where steps land ----

  lemma EnterFields(s: Cpu, pc: bv64, off: bv64)
    ensures Finish(Enter(s, pc, off))
         == Cpu(Plus(s.ipr[2], off), s.gpr[31 := 0], s.mem, s.ipr[1 := SavedPc(pc, s.palmode)], true)
  {
    hide Plus, SavedPc;
  }

  /** With an image loaded, CALL_PAL with any function f but 0xb0 continues in PALmode at PAL_BASE plus the slot of f,
      with the PC after it and the mode saved, and everything else but register 31 as it was ... */
  lemma CallPalLands(s: Cpu, other: Option<Effect>)
    requires Fetch(s) >> 26 == 0 && Fetch(s) & 0x3ff_ffff != 0xb0
    ensures Step(s, true, other)
         == Next(Cpu(Plus(s.ipr[2], CallSlot((Fetch(s) & 0x3ff_ffff) as bv64)), s.gpr[31 := 0], s.mem,
                     s.ipr[1 := SavedPc(Plus(s.pc, 4), s.palmode)], true))
  {
    hide Fetch, PalFunc, CallPalEntry, CallSlot, Enter, Finish, Do, DoPal, Classify, Plus, SavedPc;
    var raw := Fetch(s);
    CallPalOpcode(raw);
    SlotIs(PalFunc(raw));
    EnterFields(s, Plus(s.pc, 4), CallSlot(PalFunc(raw)));
  }

  /** ... that is, at PAL_BASE + 0x2000 + 64 * (f mod 64), or at PAL_BASE + 0x3000 + 64 * (f mod 64) when bit 7 of f is
      set. */
  lemma CallPalPc(s: Cpu, other: Option<Effect>, f: bv64, slot: bv64)
    requires Fetch(s) >> 26 == 0 && Fetch(s) & 0x3ff_ffff != 0xb0 && f == (Fetch(s) & 0x3ff_ffff) as bv64
    requires slot == (if f & 0x80 == 0 then 0x2000 else 0x3000) + 64 * (f % 64)
    ensures Step(s, true, other).Next? && Step(s, true, other).cpu.pc == s.ipr[2] + slot
  {
    hide Fetch, Step, SavedPc, Plus, CallSlot;
    CallPalLands(s, other);
    SlotValue(f);
    PlusIs(s.ipr[2], slot);
  }

  lemma PlusIs(a: bv64, k: bv64)
    ensures Plus(a, k) == a + k
  {
  }

  lemma SlotValue(f: bv64)
    ensures CallSlot(f) == (if f & 0x80 == 0 then 0x2000 else 0x3000) + 64 * (f % 64)
  {
  }

  /** An illegal opcode, or a reserved one outside PALmode, continues at PAL_BASE + 0x13e0 with its own PC saved. */
  lemma OpcdecLands(s: Cpu, other: Option<Effect>)
    requires Classify(Fetch(s)).Illegal? || (Classify(Fetch(s)).Reserved? && !s.palmode)
    ensures Step(s, true, other)
         == Next(Cpu(Plus(s.ipr[2], 0x13e0), s.gpr[31 := 0], s.mem, s.ipr[1 := SavedPc(s.pc, s.palmode)], true))
  {
    hide Fetch, PalFunc, CallPalEntry, Enter, Finish, Do, DoPal, Classify, Plus, SavedPc;
    EnterFields(s, s.pc, 0x13e0);
  }

  /** An instruction of the unaligned idioms does to registers and memory what it does there, without address mapping,
      and nothing else. */
  lemma ModelledLands(s: Cpu, loaded: bool, other: Option<Effect>, i: Insn, d: Core)
    requires Classify(Fetch(s)) == Modelled(i) && Follows(i, Core(s.gpr, s.mem), d, false)
    ensures Step(s, loaded, other) == Next(Cpu(Plus(s.pc, 4), d.gpr, d.mem, s.ipr, s.palmode))
  {
    hide Fetch, PalFunc, CallPalEntry, Enter, Do, DoPal, Classify, Plus, ClearZero;
  }

  /** An instruction outside the model does what it is said to, and leaves mode and internal registers alone. */
  lemma OutsideLands(s: Cpu, loaded: bool, e: Effect)
    requires Classify(Fetch(s)).Outside? || (Classify(Fetch(s)).CallPal? && (!loaded || PalFunc(Fetch(s)) == 0xb0))
    ensures Step(s, loaded, Some(e)) == Next(Cpu(e.npc, e.gpr[31 := 0], e.mem, s.ipr, s.palmode))
  {
    hide Fetch, PalFunc, CallPalEntry, Enter, Do, DoPal, Classify, Plus;
  }

  /** hw_st changes only memory and the PC, hw_ld only one register and the PC. */
  lemma MemoryFrames(s: Cpu, raw: bv32, k: Register)
    ensures var t := DoPal(HwSt, raw, s);
            t.pc == Plus(s.pc, 4) && t.gpr == s.gpr && t.ipr == s.ipr && t.palmode == s.palmode
    ensures var t := DoPal(HwLd, raw, s);
            && t.pc == Plus(s.pc, 4) && t.mem == s.mem && t.ipr == s.ipr && t.palmode == s.palmode
            && t.gpr[k] == if k == Ra(raw) then PhysLoad(s, raw) else s.gpr[k]
  {
    hide Ra, Plus, PhysLoad, PhysStore;
  }

  /** hw_mtpr and then hw_mfpr of the same internal register move a general register through it, in PALmode. */
  lemma MoveThroughIpr(s: Cpu, put: bv32, take: bv32)
    requires Field6(put) == Field6(take)
    ensures var t := DoPal(HwMtpr, put, s);
            && t == s.(pc := Plus(s.pc, 4), ipr := s.ipr[Field6(put) := s.gpr[Ra(put)]])
            && DoPal(HwMfpr, take, t) == t.(pc := Plus(t.pc, 4), gpr := s.gpr[Ra(take) := s.gpr[Ra(put)]])
  {
    hide Field6, Ra, Plus;
  }

  // ---- The instruction formats ----

  /** Memory format: opcode, ra, rb and a 16-bit displacement. */
  function MemoryFormat(op: bv6, ra: bv5, rb: bv5, disp: bv16): bv32 {
    ((op as bv32) << 26) | ((ra as bv32) << 21) | ((rb as bv32) << 16) | (disp as bv32)
  }

  /** Operate format, with a register or an 8-bit literal as second operand. */
  function OperateFormat(op: bv6, ra: bv5, rb: bv5, func: bv7, rc: bv5): bv32 {
    ((op as bv32) << 26) | ((ra as bv32) << 21) | ((rb as bv32) << 16) | ((func as bv32) << 5) | (rc as bv32)
  }

  function LiteralFormat(op: bv6, ra: bv5, lit: bv8, func: bv7, rc: bv5): bv32 {
    ((op as bv32) << 26) | ((ra as bv32) << 21) | ((lit as bv32) << 13) | 0x1000 | ((func as bv32) << 5) | (rc as bv32)
  }

  lemma MemoryFields(op: bv6, ra: bv5, rb: bv5, disp: bv16)
    ensures var raw := MemoryFormat(op, ra, rb, disp);
            && Opcode(raw) == op as nat && Ra(raw) == ra as nat && Rb(raw) == rb as nat && Disp(raw) == disp as bv64
  {
  }

  lemma OperateFields(op: bv6, ra: bv5, rb: bv5, func: bv7, rc: bv5)
    ensures var raw := OperateFormat(op, ra, rb, func, rc);
            && Opcode(raw) == op as nat && Ra(raw) == ra as nat && Rb(raw) == rb as nat && Rc(raw) == rc as nat
            && Func(raw) == func as nat && !IsLit(raw)
  {
  }

  lemma LiteralFields(op: bv6, ra: bv5, lit: bv8, func: bv7, rc: bv5)
    ensures var raw := LiteralFormat(op, ra, lit, func, rc);
            && Opcode(raw) == op as nat && Ra(raw) == ra as nat && Rc(raw) == rc as nat
            && Func(raw) == func as nat && IsLit(raw) && Lit(raw) == lit as bv64
  {
  }

  /** hw_mfpr and hw_mtpr name a register by the low six bits of the displacement. */
  lemma IprField(op: bv6, ra: bv5, rb: bv5, disp: bv16)
    ensures Field6(MemoryFormat(op, ra, rb, disp)) == (disp % 64) as nat
  {
  }

  /** A 16-bit displacement is a signed one. */
  lemma SignedDisplacement(disp: bv16)
    ensures Sext16(disp as bv64) == if disp < 0x8000 then disp as bv64 else (disp as bv64) - 0x1_0000
  {
  }

  /** So is the 12-bit one of hw_ld and hw_st. */
  lemma SignedOffset(disp: bv16)
    requires disp < 0x1000
    ensures Sext12(disp as bv64) == if disp < 0x800 then disp as bv64 else (disp as bv64) - 0x1000
  {
  }

  /** So is a longword loaded. */
  lemma SignedLong(x: bv32)
    ensures SextLong(x) == if x < 0x8000_0000 then x as bv64 else (x as bv64) - 0x1_0000_0000
  {
  }

  /** The encoded instructions are decoded: the unaligned quadword accesses ... */
  lemma DecodesMemory(ra: bv5, rb: bv5, disp: bv16)
    ensures var d := if disp < 0x8000 then disp as bv64 else (disp as bv64) - 0x1_0000;
            && Classify(MemoryFormat(0x0b, ra, rb, disp)) == Modelled(LdqU(ra as nat, rb as nat, d))
            && Classify(MemoryFormat(0x0f, ra, rb, disp)) == Modelled(StqU(ra as nat, rb as nat, d))
  {
    hide MemoryFormat, Opcode, Ra, Rb, Rc, Disp, Func, OperandB, Sext16;
    MemoryFields(0x0b, ra, rb, disp);
    MemoryFields(0x0f, ra, rb, disp);
    SignedDisplacement(disp);
  }

  /** ... the shift and byte group and the logical or, with a register or a literal ... */
  lemma DecodesOperate(ra: bv5, rb: bv5, lit: bv8, func: bv7, rc: bv5)
    ensures Classify(OperateFormat(0x12, ra, rb, func, rc))
         == Modelled(IntS(func as nat, ra as nat, InReg(rb as nat), rc as nat))
    ensures Classify(LiteralFormat(0x12, ra, lit, func, rc))
         == Modelled(IntS(func as nat, ra as nat, Literal(lit as bv64), rc as nat))
    ensures Classify(OperateFormat(0x11, ra, rb, 0x20, rc)) == Modelled(Bis(ra as nat, InReg(rb as nat), rc as nat))
    ensures Classify(LiteralFormat(0x11, ra, lit, 0x20, rc))
         == Modelled(Bis(ra as nat, Literal(lit as bv64), rc as nat))
  {
    hide OperateFormat, LiteralFormat, Opcode, Ra, Rb, Rc, Disp, Func, Sext16, IsLit, Lit;
    OperateFields(0x12, ra, rb, func, rc);
    LiteralFields(0x12, ra, lit, func, rc);
    OperateFields(0x11, ra, rb, 0x20, rc);
    LiteralFields(0x11, ra, lit, 0x20, rc);
  }

  /** ... and the opcodes of PAL code, with those that have no case. */
  lemma DecodesReserved(raw: bv32)
    ensures raw >> 26 == 0x00 ==> Classify(raw) == CallPal
    ensures raw >> 26 == 0x19 ==> Classify(raw) == Reserved(HwMfpr)
    ensures raw >> 26 == 0x1b ==> Classify(raw) == Reserved(HwLd)
    ensures raw >> 26 == 0x1d ==> Classify(raw) == Reserved(HwMtpr)
    ensures raw >> 26 == 0x1e ==> Classify(raw) == Reserved(HwRei)
    ensures raw >> 26 == 0x1f ==> Classify(raw) == Reserved(HwSt)
    ensures 0x01 <= raw >> 26 <= 0x07 ==> Classify(raw) == Illegal
    ensures raw >> 26 == 0x15 || raw >> 26 == 0x20 || raw >> 26 == 0x21 ==> Classify(raw) == Illegal
    ensures raw >> 26 == 0x24 || raw >> 26 == 0x25 ==> Classify(raw) == Illegal
  {
    hide Ra, Rb, Rc, Disp, Func, OperandB, Sext16;
  }

  // ---- Runs ----

  ghost predicate Run(ss: seq<Cpu>, loaded: bool) {
    |ss| > 0 && forall i :: 0 < i < |ss| ==> Steps(ss[i - 1], ss[i], loaded)
  }

  /** Whenever a run that starts outside PALmode is in it, it entered at a defined vector, from outside, and has stayed
      since. */
  lemma {:induction false} EveryStretchEntered(ss: seq<Cpu>, loaded: bool, j: nat) returns (i: nat)
    requires Run(ss, loaded) && !ss[0].palmode && j < |ss| && ss[j].palmode
    ensures 0 < i <= j && !ss[i - 1].palmode && Enters(ss[i - 1], ss[i])
    ensures forall k :: i <= k <= j ==> ss[k].palmode
  {
    hide Steps, Enters;
    assert Steps(ss[j - 1], ss[j], loaded);
    if ss[j - 1].palmode {
      i := EveryStretchEntered(ss, loaded, j - 1);
    } else {
      TurnsOnAtEntry(ss[j - 1], ss[j], loaded);
      i := j;
    }
  }

  lemma SavedResumes(pc: bv64, palmode: bool)
    ensures ResumePc(SavedPc(pc, palmode)) == pc & !3
    ensures ResumesInPal(SavedPc(pc, palmode)) == palmode
  {
    if palmode {} else {}
  }

  lemma HwReiIs(s: Cpu, t: Cpu, loaded: bool)
    requires Steps(s, t, loaded) && Runs(s, HwRei)
    ensures t.pc == ResumePc(s.ipr[IPR_EXC_ADDR]) && t.palmode == ResumesInPal(s.ipr[IPR_EXC_ADDR])
  {
    hide Fetch, Classify, ResumesInPal, ResumePc, PhysLoad, PhysStore, Field6, Ra, Plus;
  }

  /** Entry, a handler that leaves EXC_ADDR as it found it, and hw_rei: the mode is restored, and so is the PC to resume
      at, with its two low bits cleared. */
  lemma HandlerReturns(ss: seq<Cpu>, loaded: bool, pc: bv64, off: bv64)
    requires Run(ss, loaded) && |ss| >= 3 && Entered(ss[0], ss[1], pc, off)
    requires var last := ss[|ss| - 2]; Runs(last, HwRei) && last.ipr[IPR_EXC_ADDR] == ss[1].ipr[IPR_EXC_ADDR]
    ensures ss[|ss| - 1].palmode == ss[0].palmode
    ensures ss[|ss| - 1].pc == pc & !3
    ensures ss[|ss| - 1].pc == pc <==> pc & 3 == 0
  {
    hide Steps, Runs, ResumePc, ResumesInPal, SavedPc, IsEntry;
    SavedResumes(pc, ss[0].palmode);
    HwReiIs(ss[|ss| - 2], ss[|ss| - 1], loaded);
    AlignedPc(pc);
  }

  lemma AlignedPc(pc: bv64)
    ensures pc & !3 == pc <==> pc & 3 == 0
  {
  }

  /** A handler leaves EXC_ADDR alone when none of its steps enters PAL code again or writes that register. */
  lemma {:induction false} HandlerKeepsExcAddr(ss: seq<Cpu>, loaded: bool, i: nat, j: nat)
    requires Run(ss, loaded) && i <= j < |ss|
    requires forall k :: i < k <= j ==> SparesExcAddr(ss[k - 1], ss[k])
    ensures ss[j].ipr[IPR_EXC_ADDR] == ss[i].ipr[IPR_EXC_ADDR]
  {
    hide Steps, SparesExcAddr;
    if i < j {
      HandlerKeepsExcAddr(ss, loaded, i, j - 1);
      assert Steps(ss[j - 1], ss[j], loaded);
      ExcAddrKept(ss[j - 1], ss[j], loaded);
    }
  }

  /** So a handler whose own steps spare EXC_ADDR returns to the interrupted mode and PC. */
  lemma QuietHandlerReturns(ss: seq<Cpu>, loaded: bool, pc: bv64, off: bv64)
    requires Run(ss, loaded) && |ss| >= 3 && Entered(ss[0], ss[1], pc, off)
    requires forall k :: 1 < k < |ss| - 1 ==> SparesExcAddr(ss[k - 1], ss[k])
    requires Runs(ss[|ss| - 2], HwRei)
    ensures ss[|ss| - 1].palmode == ss[0].palmode && ss[|ss| - 1].pc == pc & !3
  {
    hide Run, Runs, Entered, SparesExcAddr;
    HandlerKeepsExcAddr(ss, loaded, 1, |ss| - 2);
    HandlerReturns(ss, loaded, pc, off);
  }
}
