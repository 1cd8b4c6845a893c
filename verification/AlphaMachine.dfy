/** Decoding and the instructions of execAlpha that the unaligned idioms use, and runs of them. */
module AlphaMachine {
  import opened AlphaBytes
  import opened Options

  const KSEG: bv64 := 0xffff_fc00_0000_0000

  /** alpha_state_t::xlate: the kseg segment maps to physical memory, everything else is identity. */
  function Xlate(systemMode: bool, va: bv64): bv64 {
    if systemMode && va >= KSEG then va - KSEG else va
  }

  /** The segment is the top 2^42 bytes, and it maps to the bottom 2^42. */
  lemma XlateMasks(systemMode: bool, va: bv64)
    ensures Xlate(systemMode, va) == if systemMode && va >> 42 == 0x3f_ffff then va & 0x3ff_ffff_ffff else va
  {
  }

  // ---- Instruction fields ----

  type Register = r: nat | r < 32

  function Opcode(raw: bv32): nat { (raw >> 26) as bv6 as nat }
  function Ra(raw: bv32): Register { ((raw >> 21) & 31) as bv5 as nat }
  function Rb(raw: bv32): Register { ((raw >> 16) & 31) as bv5 as nat }
  function Rc(raw: bv32): Register { (raw & 31) as bv5 as nat }
  function Disp(raw: bv32): bv64 { (raw & 0xffff) as bv64 }
  function Func(raw: bv32): nat { ((raw >> 5) & 0x7f) as bv7 as nat }
  function Lit(raw: bv32): bv64 { ((raw >> 13) & 0xff) as bv64 }
  predicate IsLit(raw: bv32) { (raw >> 12) & 1 == 1 }
  function PalFunc(raw: bv32): bv64 { (raw & 0x3ff_ffff) as bv64 }

  function Sext16(x: bv64): bv64 { if x & 0x8000 != 0 then x | 0xffff_ffff_ffff_0000 else x & 0xffff }
  function Sext12(x: bv64): bv64 { if x & 0x800 != 0 then x | 0xffff_ffff_ffff_f000 else x & 0xfff }
  function Sext32(x: bv64): bv64 { if x & 0x8000_0000 != 0 then x | 0xffff_ffff_0000_0000 else x & 0xffff_ffff }

  type Registers = s: seq<bv64> | |s| == 32 witness seq(32, i => 0)

  // ---- INTS ----

  function Mskb(rav: bv64, bn: bv64): bv64 requires bn < 8 { rav & !ByteMask((1 << (bn as bv4)) & 0xff) }
  function Extb(rav: bv64, bn: bv64): bv64 requires bn < 8 { Down(rav, bn) & ByteMask(1) }
  function Insb(rav: bv64, bn: bv64): bv64 requires bn < 8 { Up(rav, bn) & ByteMask((1 << (bn as bv4)) & 0xff) }

  function Zap(rav: bv64, rbv: bv64): bv64 { rav & !ByteMask((rbv & 0xff) as bv32) }
  function Zapnot(rav: bv64, rbv: bv64): bv64 { rav & ByteMask((rbv & 0xff) as bv32) }
  function Srl(rav: bv64, rbv: bv64): bv64 { rav >> ((rbv & 63) as bv7) }
  function Sll(rav: bv64, rbv: bv64): bv64 { rav << ((rbv & 63) as bv7) }

  /** Arithmetic right shift. */
  function Sra(rav: bv64, rbv: bv64): bv64 {
    var s := (rbv & 63) as bv7;
    if rav & 0x8000_0000_0000_0000 == 0 then rav >> s else !((!rav) >> s)
  }

  /** The INTS group by function code; None where the interpreter has no case. */
  function Ints(func: nat, rav: bv64, rbv: bv64): Option<bv64> {
    var bn := Offset(rbv);
    if func == 0x02 then Some(Mskb(rav, bn))
    else if func == 0x06 then Some(Extb(rav, bn))
    else if func == 0x0b then Some(Insb(rav, bn))
    else if func == 0x12 then Some(Mskl(Word, rav, bn))
    else if func == 0x16 then Some(Extl(Word, rav, bn))
    else if func == 0x1b then Some(Insl(Word, rav, bn))
    else if func == 0x22 then Some(Mskl(Long, rav, bn))
    else if func == 0x26 then Some(Extl(Long, rav, bn))
    else if func == 0x2b then Some(Insl(Long, rav, bn))
    else if func == 0x30 then Some(Zap(rav, rbv))
    else if func == 0x31 then Some(Zapnot(rav, rbv))
    else if func == 0x32 then Some(Mskl(Quad, rav, bn))
    else if func == 0x34 then Some(Srl(rav, rbv))
    else if func == 0x36 then Some(Down(rav, bn))
    else if func == 0x39 then Some(Sll(rav, rbv))
    else if func == 0x3b then Some(Insl(Quad, rav, bn))
    else if func == 0x3c then Some(Sra(rav, rbv))
    else if func == 0x52 then Some(Mskh(Word, rav, bn))
    else if func == 0x57 then Some(Insh(Word, rav, bn))
    else if func == 0x5a then Some(Exth(Word, rav, bn))
    else if func == 0x62 then Some(Mskh(Long, rav, bn))
    else if func == 0x67 then Some(Insh(Long, rav, bn))
    else if func == 0x6a then Some(Exth(Long, rav, bn))
    else if func == 0x72 then Some(Mskh(Quad, rav, bn))
    else if func == 0x77 then Some(Insh(Quad, rav, bn))
    else if func == 0x7a then Some(Exth(Quad, rav, bn))
    else None
  }

  // ---- The instructions of the unaligned idioms, decoded ----

  datatype Operand = InReg(r: Register) | Literal(v: bv64)

  datatype Insn =
    | LdqU(ra: Register, rb: Register, disp: bv64)
    | StqU(ra: Register, rb: Register, disp: bv64)
    | IntS(func: nat, ra: Register, b: Operand, rc: Register)
    | Bis(ra: Register, b: Operand, rc: Register)

  function Value(gpr: Registers, b: Operand): bv64 {
    match b case InReg(r) => gpr[r] case Literal(v) => v
  }

  datatype Core = Core(gpr: Registers, mem: Memory)

  function DoInts(func: nat, ra: Register, b: Operand, rc: Register, c: Core): Option<Core> {
    hide Ints;
    var x := Ints(func, c.gpr[ra], Value(c.gpr, b));
    if x.None? then None else Some(c.(gpr := c.gpr[rc := x.value]))
  }

  /** ldq_u, stq_u, the INTS group and bis; None for a function code without a case. */
  function Do(i: Insn, c: Core, systemMode: bool): Option<Core> {
    hide DoInts, Or, Aligned, Plus, Xlate;
    match i
    case LdqU(ra, rb, disp) =>
      Some(c.(gpr := c.gpr[ra := c.mem(Xlate(systemMode, Aligned(Plus(c.gpr[rb], disp))))]))
    case StqU(ra, rb, disp) =>
      Some(c.(mem := StoreQuad(c.mem, Xlate(systemMode, Aligned(Plus(c.gpr[rb], disp))), c.gpr[ra])))
    case IntS(func, ra, b, rc) => DoInts(func, ra, b, rc, c)
    case Bis(ra, b, rc) => Some(c.(gpr := c.gpr[rc := Or(c.gpr[ra], Value(c.gpr, b))]))
  }

  /** Register 31 is cleared after each instruction. */
  function ClearZero(gpr: Registers): Registers { gpr[31 := 0] }

  datatype Program = Done | Then(first: Insn, rest: Program)

  function Execute(prog: Program, c: Core, systemMode: bool): Option<Core> {
    match prog
    case Done => Some(c)
    case Then(first, rest) =>
      var d := Do(first, c, systemMode);
      if d.None? then None
      else Execute(rest, d.value.(gpr := ClearZero(d.value.gpr)), systemMode)
  }

  /** One instruction takes c to d. */
  ghost predicate Follows(i: Insn, c: Core, d: Core, systemMode: bool) {
    var e := Do(i, c, systemMode);
    e.Some? && d == e.value.(gpr := ClearZero(e.value.gpr))
  }

  lemma ExecuteThen(i: Insn, rest: Program, c: Core, d: Core, systemMode: bool)
    requires Follows(i, c, d, systemMode)
    ensures Execute(Then(i, rest), c, systemMode) == Execute(rest, d, systemMode)
  {
    hide Do, ClearZero;
  }
}
