/** Interrupt selection, trap entry and trap return of the RISC-V interpreter. */
module RiscvTrap {
  import opened Arith
  import opened WordBits

  datatype Priv = User | Supervisor | Hypervisor | Machine

  /** The encoding of riscv_priv. */
  function Level(p: Priv): bv64 {
    match p case User => 0 case Supervisor => 1 case Hypervisor => 2 case Machine => 3
  }

  function PrivOf(x: bv64): Priv {
    if x == 0 then User else if x == 1 then Supervisor else if x == 2 then Hypervisor else Machine
  }

  // ---- mstatus ----

  const SIE: bv64 := 0x2
  const MIE: bv64 := 0x8
  const SPIE: bv64 := 0x20
  const MPIE: bv64 := 0x80
  const SPP: bv64 := 0x100
  const MPP: bv64 := 0x1800

  /** (mstatus >> priv) & 1, the interrupt enable of a mode. */
  function Enable(m: bv64, p: Priv): bv64 {
    match p
    case User => m & 1
    case Supervisor => (m >> 1) & 1
    case Hypervisor => (m >> 2) & 1
    case Machine => (m >> 3) & 1
  }

  /** The enable of a mode set to a bit. */
  function WithEnable(m: bv64, p: Priv, b: bv64): bv64 {
    match p
    case User => (m & !1) | b
    case Supervisor => (m & !2) | (b << 1)
    case Hypervisor => (m & !4) | (b << 2)
    case Machine => (m & !8) | (b << 3)
  }

  function SaveSpie(m: bv64, p: Priv): bv64 { (m & !SPIE) | (Enable(m, p) << 5) }
  function SaveSpp(m: bv64, p: Priv): bv64 { (m & !SPP) | (Level(p) << 8) }
  function ClearSie(m: bv64): bv64 { m & !SIE }
  function EnterSupervisor(m: bv64, p: Priv): bv64 { ClearSie(SaveSpp(SaveSpie(m, p), p)) }

  function SaveMpie(m: bv64, p: Priv): bv64 { (m & !MPIE) | (Enable(m, p) << 7) }
  function SaveMpp(m: bv64, p: Priv): bv64 { (m & !MPP) | (Level(p) << 11) }
  function ClearMie(m: bv64): bv64 { m & !MIE }
  function EnterMachine(m: bv64, p: Priv): bv64 { ClearMie(SaveMpp(SaveMpie(m, p), p)) }

  function SavedSpp(m: bv64): Priv { PrivOf((m >> 8) & 1) }
  function SavedSpie(m: bv64): bv64 { (m >> 5) & 1 }
  function SetSpie(m: bv64): bv64 { m | SPIE }
  function ClearSpp(m: bv64): bv64 { m & !SPP }
  function LeaveSupervisor(m: bv64): bv64 { ClearSpp(SetSpie(WithEnable(m, SavedSpp(m), SavedSpie(m)))) }

  function SavedMpp(m: bv64): Priv { PrivOf((m >> 11) & 3) }
  function SavedMpie(m: bv64): bv64 { (m >> 7) & 1 }
  function SetMpie(m: bv64): bv64 { m | MPIE }
  function ClearMpp(m: bv64): bv64 { m & !MPP }
  function LeaveMachine(m: bv64): bv64 { ClearMpp(SetMpie(WithEnable(m, SavedMpp(m), SavedMpie(m)))) }

  predicate Uxl64(m: bv64) { (m >> 32) & 3 == 2 }
  predicate Sxl64(m: bv64) { (m >> 34) & 3 == 2 }

  /** The assertions of set_priv: entering S or U from elsewhere needs a 64-bit SXL or UXL. */
  predicate PrivAllowed(m: bv64, from: Priv, to: Priv) {
    from != to ==> (to == Supervisor ==> Sxl64(m)) && (to == User ==> Uxl64(m))
  }

  // ---- The hart ----

  datatype Hart = Hart(priv: Priv, pc: Word, mstatus: bv64, mepc: Word, sepc: Word, mcause: Word, scause: Word,
                       mtval: Word, stval: Word, mtvec: Word, stvec: Word, medeleg: Word, mideleg: Word,
                       mip: Word, mie: Word)

  type Code = n: nat | n < 32

  datatype Cause = Exception(code: Code) | Interrupt(code: Code)

  function CauseValue(c: Cause): Word {
    match c case Exception(n) => n case Interrupt(n) => 0x8000_0000_0000_0000 + n
  }

  predicate Delegated(h: Hart, c: Cause) {
    && (h.priv == User || h.priv == Supervisor)
    && match c case Exception(n) => Bit(h.medeleg, n) case Interrupt(n) => Bit(h.mideleg, n)
  }

  /** None is a failed assertion. */
  datatype Result = Ok(hart: Hart) | Failed

  function TrapSupervisor(h: Hart, c: Cause, tval: Word): Result {
    hide EnterSupervisor, PrivAllowed, CauseValue;
    var m := EnterSupervisor(h.mstatus, h.priv);
    if PrivAllowed(m, h.priv, Supervisor) then
      Ok(h.(scause := CauseValue(c), sepc := h.pc, stval := tval, mstatus := m, priv := Supervisor, pc := h.stvec))
    else Failed
  }

  function TrapMachine(h: Hart, c: Cause, tval: Word): Result {
    hide EnterMachine, CauseValue;
    Ok(h.(mcause := CauseValue(c), mepc := h.pc, mtval := tval, mstatus := EnterMachine(h.mstatus, h.priv),
          priv := Machine, pc := h.mtvec))
  }

  function Trap(h: Hart, c: Cause, tval: Word): Result {
    hide TrapSupervisor, TrapMachine;
    if Delegated(h, c) then TrapSupervisor(h, c, tval) else TrapMachine(h, c, tval)
  }

  function Sret(h: Hart): Result {
    hide SavedSpp, LeaveSupervisor, PrivAllowed;
    var to, m := SavedSpp(h.mstatus), LeaveSupervisor(h.mstatus);
    if PrivAllowed(m, h.priv, to) then Ok(h.(mstatus := m, priv := to, pc := h.sepc)) else Failed
  }

  function Mret(h: Hart): Result {
    hide SavedMpp, LeaveMachine, PrivAllowed;
    var to, m := SavedMpp(h.mstatus), LeaveMachine(h.mstatus);
    if PrivAllowed(m, h.priv, to) then Ok(h.(mstatus := m, priv := to, pc := h.mepc)) else Failed
  }

  // ---- Interrupt selection ----

  predicate MieSet(m: bv64) { m & MIE != 0 }
  predicate SieSet(m: bv64) { m & SIE != 0 }

  /** Pending, enabled and not masked by the current mode. */
  predicate Takable(h: Hart, p: Code) {
    && Bit(h.mip, p) && Bit(h.mie, p)
    && match h.priv
       case Machine => MieSet(h.mstatus) && !Bit(h.mideleg, p)
       case Supervisor => SieSet(h.mstatus) || !Bit(h.mideleg, p)
       case _ => true
  }

  lemma OrWords(x: Word, y: Word)
    ensures Or(x, y) <= ALL_ONES
  {
    hide Pow2;
    Pow2Of64();
    OrBound(x, y, 64);
  }

  lemma NotWord(x: Word)
    ensures x < Pow2(64) && Not(x, 64) <= ALL_ONES
  {
    hide Pow2;
    Pow2Of64();
  }

  /** The highest takable interrupt above 0, or 0. */
  ghost predicate IsTaken(h: Hart, irq: Code) {
    && (irq > 0 ==> Takable(h, irq))
    && forall p: Code :: irq < p ==> !Takable(h, p)
  }

  /** The state of the interpreter, updated in place. */
  class Interpreter {
    var priv: Priv
    var pc: Word
    var mstatus: bv64
    var mepc: Word
    var sepc: Word
    var mcause: Word
    var scause: Word
    var mtval: Word
    var stval: Word
    var mtvec: Word
    var stvec: Word
    var medeleg: Word
    var mideleg: Word
    var mip: Word
    var mie: Word

    function Value(): Hart
      reads this
    {
      Hart(priv, pc, mstatus, mepc, sepc, mcause, scause, mtval, stval, mtvec, stvec, medeleg, mideleg, mip, mie)
    }

    /** The enabled interrupts of take_interrupt. */
    method EnabledInts() returns (enabled: Word)
      ensures forall p: Code :: Bit(mip, p) && Bit(mie, p) && Bit(enabled, p) <==> Takable(Value(), p)
    {
      hide Bit, Not, Or, MieSet, SieSet, Pow2;
      NotWord(mideleg);
      enabled := 0;
      match priv {
        case Machine =>
          if MieSet(mstatus) {
            enabled := Not(mideleg, 64);
          }
        case Supervisor =>
          enabled := Not(mideleg, 64);
          if SieSet(mstatus) {
            OrWords(enabled, mideleg);
            enabled := Or(enabled, mideleg);
          }
        case _ =>
          enabled := ALL_ONES;
      }
      forall p: Code ensures Bit(mip, p) && Bit(mie, p) && Bit(enabled, p) <==> Takable(Value(), p) {
        NotBit(mideleg, 64, p);
        OrBit(Not(mideleg, 64), mideleg, p);
        NoBits(p);
        AllBits(p);
      }
    }

    /** take_interrupt. */
    method TakeInterrupt() returns (irq: Code)
      ensures IsTaken(Value(), irq)
    {
      hide Bit, And, Takable, Right;
      var enabled := EnabledInts();
      var pending := And(And(mip, mie), enabled);
      forall p: Code ensures Bit(pending, p) <==> Takable(Value(), p) {
        AndBit(And(mip, mie), enabled, p);
        AndBit(mip, mie, p);
      }
      if pending != 0 {
        var p := 31;
        while p >= 0
          invariant -1 <= p <= 31
          invariant forall q: Code :: p < q ==> !Takable(Value(), q)
        {
          RightBit(pending, p, 0);
          LowBit(Right(pending, p));
          if Right(pending, p) % 2 == 1 {
            return p;
          }
          p := p - 1;
        }
      } else {
        forall p: Code ensures !Takable(Value(), p) {
          NoBits(p);
        }
      }
      irq := 0;
    }

    /** set_priv; false when an assertion fails. */
    method SetPriv(to: Priv) returns (ok: bool)
      modifies this`priv
      ensures ok == PrivAllowed(mstatus, old(priv), to)
      ensures ok ==> priv == to
    {
      hide Sxl64, Uxl64;
      if priv != to {
        if to == Supervisor && !Sxl64(mstatus) {
          return false;
        }
        if to == User && !Uxl64(mstatus) {
          return false;
        }
      }
      priv := to;
      ok := true;
    }

    method SaveSupervisorState(c: Cause, tval: Word)
      modifies `scause, `sepc, `stval, `mstatus
      ensures scause == CauseValue(c) && sepc == pc && stval == tval
      ensures mstatus == EnterSupervisor(old(mstatus), priv)
    {
      hide CauseValue, SaveSpie, SaveSpp, ClearSie;
      scause := CauseValue(c);
      sepc := pc;
      stval := tval;
      mstatus := SaveSpie(mstatus, priv);
      mstatus := SaveSpp(mstatus, priv);
      mstatus := ClearSie(mstatus);
    }

    method SaveMachineState(c: Cause, tval: Word)
      modifies `mcause, `mepc, `mtval, `mstatus
      ensures mcause == CauseValue(c) && mepc == pc && mtval == tval
      ensures mstatus == EnterMachine(old(mstatus), priv)
    {
      hide CauseValue, SaveMpie, SaveMpp, ClearMie;
      mcause := CauseValue(c);
      mepc := pc;
      mtval := tval;
      mstatus := SaveMpie(mstatus, priv);
      mstatus := SaveMpp(mstatus, priv);
      mstatus := ClearMie(mstatus);
    }

    method EnterSupervisorMode(c: Cause, tval: Word) returns (ok: bool)
      modifies `scause, `sepc, `stval, `mstatus, `priv, `pc
      ensures TrapSupervisor(old(Value()), c, tval) == if ok then Ok(Value()) else Failed
    {
      hide CauseValue, PrivAllowed, EnterSupervisor;
      SaveSupervisorState(c, tval);
      ok := SetPriv(Supervisor);
      pc := stvec;
    }

    method EnterMachineMode(c: Cause, tval: Word) returns (ok: bool)
      modifies `mcause, `mepc, `mtval, `mstatus, `priv, `pc
      ensures TrapMachine(old(Value()), c, tval) == if ok then Ok(Value()) else Failed
    {
      hide CauseValue, PrivAllowed, EnterMachine;
      SaveMachineState(c, tval);
      MachineAllowed(mstatus, priv);
      ok := SetPriv(Machine);
      pc := mtvec;
    }

    /** The exception path of execRiscv. */
    method HandleException(c: Cause, tval: Word) returns (ok: bool)
      modifies this
      ensures Trap(old(Value()), c, tval) == if ok then Ok(Value()) else Failed
    {
      hide TrapSupervisor, TrapMachine, Bit;
      var delegate := false;
      if priv == User || priv == Supervisor {
        match c {
          case Interrupt(n) => delegate := Bit(mideleg, n);
          case Exception(n) => delegate := Bit(medeleg, n);
        }
      }
      if delegate {
        ok := EnterSupervisorMode(c, tval);
      } else {
        ok := EnterMachineMode(c, tval);
      }
    }

    method ExecSret() returns (ok: bool)
      modifies this
      ensures Sret(old(Value())) == if ok then Ok(Value()) else Failed
    {
      hide PrivAllowed, SavedSpp, SavedSpie, WithEnable, SetSpie, ClearSpp;
      var spp := SavedSpp(mstatus);
      var spie := SavedSpie(mstatus);
      mstatus := WithEnable(mstatus, spp, spie);
      mstatus := SetSpie(mstatus);
      mstatus := ClearSpp(mstatus);
      ok := SetPriv(spp);
      pc := sepc;
    }

    method ExecMret() returns (ok: bool)
      modifies this
      ensures Mret(old(Value())) == if ok then Ok(Value()) else Failed
    {
      hide PrivAllowed, SavedMpp, SavedMpie, WithEnable, SetMpie, ClearMpp;
      var mpp := SavedMpp(mstatus);
      var mpie := SavedMpie(mstatus);
      mstatus := WithEnable(mstatus, mpp, mpie);
      mstatus := SetMpie(mstatus);
      mstatus := ClearMpp(mstatus);
      ok := SetPriv(mpp);
      pc := mepc;
    }

    /** The head of execRiscv: a timer interrupt may become pending, and the highest takable one is taken. */
    method PollInterrupts(timer: bool, enabled: bool) returns (taken: bool, ok: bool)
      modifies this
      ensures var h := WithTimer(old(Value()), timer);
              if taken then
                exists irq: Code :: irq > 0 && IsTaken(h, irq)
                                    && Trap(h, Interrupt(irq), 0) == if ok then Ok(Value()) else Failed
              else
                ok && Value() == h && (enabled ==> forall p: Code :: p > 0 ==> !Takable(h, p))
    {
      hide Or, Takable, Trap;
      if timer {
        OrWords(mip, 0x80);
        mip := Or(mip, 0x80);
      }
      ghost var h := Value();
      var irq := 0;
      if enabled {
        irq := TakeInterrupt();
      }
      if irq != 0 {
        ok := HandleException(Interrupt(irq), 0);
        assert IsTaken(h, irq) && Trap(h, Interrupt(irq), 0) == if ok then Ok(Value()) else Failed;
        return true, ok;
      }
      taken, ok := false, true;
    }
  }

  function WithTimer(h: Hart, timer: bool): Hart {
    OrWords(h.mip, 0x80);
    if timer then h.(mip := Or(h.mip, 0x80)) else h
  }

  lemma MachineAllowed(m: bv64, p: Priv)
    ensures PrivAllowed(m, p, Machine)
  {
  }

  lemma LowBit(w: nat)
    ensures Bit(w, 0) <==> w % 2 == 1
  {
  }

  lemma AllBits(p: Code)
    ensures Bit(ALL_ONES, p)
  {
    hide Bit, Pow2;
    Pow2Of64();
    NotBit(0, 64, p);
    NoBits(p);
  }

  // ---- What traps keep ----

  function Rank(p: Priv): nat {
    match p case User => 0 case Supervisor => 1 case Hypervisor => 2 case Machine => 3
  }

  /** A trap never lowers the privilege, and from machine mode it is never delegated. */
  lemma TrapNeverLowers(h: Hart, c: Cause, tval: Word)
    requires Trap(h, c, tval).Ok?
    ensures var t := Trap(h, c, tval).hart;
            && Rank(t.priv) >= Rank(h.priv)
            && t.priv == (if Delegated(h, c) then Supervisor else Machine)
            && (h.priv == Machine ==> t.priv == Machine && t.sepc == h.sepc && t.scause == h.scause && t.mepc == h.pc)
  {
    hide Bit, EnterMachine, EnterSupervisor, PrivAllowed;
  }

  /** The two mstatus words agree on a field. */
  predicate Agree(m: bv64, n: bv64, field: bv64) { m & field == n & field }

  lemma MppSaved(m: bv64, n: bv64, p: Priv)
    requires Agree(n, EnterMachine(m, p), MPP)
    ensures SavedMpp(n) == p
  {
    match p case User => case Supervisor => case Hypervisor => case Machine =>
  }

  lemma MpieSaved(m: bv64, n: bv64, p: Priv)
    requires Agree(n, EnterMachine(m, p), MPIE)
    ensures SavedMpie(n) == Enable(m, p)
  {
    match p case User => case Supervisor => case Hypervisor => case Machine =>
  }

  lemma SppSaved(m: bv64, n: bv64, p: Priv)
    requires p == User || p == Supervisor
    requires Agree(n, EnterSupervisor(m, p), SPP)
    ensures SavedSpp(n) == p
  {
    match p case User => case Supervisor =>
  }

  lemma SpieSaved(m: bv64, n: bv64, p: Priv)
    requires Agree(n, EnterSupervisor(m, p), SPIE)
    ensures SavedSpie(n) == Enable(m, p)
  {
    match p case User => case Supervisor => case Hypervisor => case Machine =>
  }

  lemma Enabled(n: bv64, p: Priv, b: bv64)
    requires b & 1 == b
    ensures Enable(ClearMpp(SetMpie(WithEnable(n, p, b))), p) == b
    ensures Enable(ClearSpp(SetSpie(WithEnable(n, p, b))), p) == b
  {
    match p case User => case Supervisor => case Hypervisor => case Machine =>
  }

  lemma EnableIsBit(m: bv64, p: Priv)
    ensures Enable(m, p) & 1 == Enable(m, p)
  {
    match p case User => case Supervisor => case Hypervisor => case Machine =>
  }

  /** A trap to machine mode, a handler that leaves mepc and the saved fields of mstatus alone, and mret: the mode, the
      PC and the interrupted mode's own interrupt enable are back. It fails exactly where the width asserted for the
      returned-to mode is wrong. */
  lemma MretReturns(h: Hart, c: Cause, tval: Word, k: Hart)
    requires !Delegated(h, c)
    requires var t := Trap(h, c, tval).hart;
             && k.priv == Machine && k.mepc == t.mepc
             && Agree(k.mstatus, t.mstatus, MPP) && Agree(k.mstatus, t.mstatus, MPIE)
    ensures Mret(k).Ok? <==> PrivAllowed(LeaveMachine(k.mstatus), Machine, h.priv)
    ensures Mret(k).Ok? ==>
              var r := Mret(k).hart;
              r.priv == h.priv && r.pc == h.pc && Enable(r.mstatus, h.priv) == Enable(h.mstatus, h.priv)
  {
    hide Delegated, EnterMachine, Agree, SavedMpp, SavedMpie, Enable, WithEnable, SetMpie, ClearMpp, PrivAllowed,
         MPP, MPIE;
    MppSaved(h.mstatus, k.mstatus, h.priv);
    MpieSaved(h.mstatus, k.mstatus, h.priv);
    EnableIsBit(h.mstatus, h.priv);
    Enabled(k.mstatus, h.priv, Enable(h.mstatus, h.priv));
  }

  /** The same for a delegated trap and sret. */
  lemma SretReturns(h: Hart, c: Cause, tval: Word, k: Hart)
    requires Delegated(h, c) && Trap(h, c, tval).Ok?
    requires var t := Trap(h, c, tval).hart;
             && k.priv == Supervisor && k.sepc == t.sepc
             && Agree(k.mstatus, t.mstatus, SPP) && Agree(k.mstatus, t.mstatus, SPIE)
    ensures Sret(k).Ok? <==> PrivAllowed(LeaveSupervisor(k.mstatus), Supervisor, h.priv)
    ensures Sret(k).Ok? ==>
              var r := Sret(k).hart;
              r.priv == h.priv && r.pc == h.pc && Enable(r.mstatus, h.priv) == Enable(h.mstatus, h.priv)
  {
    hide Bit, EnterSupervisor, Agree, SavedSpp, SavedSpie, Enable, WithEnable, SetSpie, ClearSpp, PrivAllowed,
         SPP, SPIE;
    SppSaved(h.mstatus, k.mstatus, h.priv);
    SpieSaved(h.mstatus, k.mstatus, h.priv);
    EnableIsBit(h.mstatus, h.priv);
    Enabled(k.mstatus, h.priv, Enable(h.mstatus, h.priv));
  }

  lemma MieCleared(m: bv64, p: Priv)
    ensures !MieSet(EnterMachine(m, p))
  {
    hide SaveMpp;
  }

  lemma SieCleared(m: bv64, p: Priv)
    ensures !SieSet(EnterSupervisor(m, p))
  {
    hide SaveSpp;
  }

  /** Right after a trap no interrupt is takable in machine mode, and in supervisor mode none that is delegated. */
  lemma TrapMasks(h: Hart, c: Cause, tval: Word, p: Code)
    requires Trap(h, c, tval).Ok?
    ensures var t := Trap(h, c, tval).hart; Takable(t, p) ==> t.priv == Supervisor && !Bit(t.mideleg, p)
  {
    hide Bit, Delegated, EnterMachine, EnterSupervisor, MieSet, SieSet, PrivAllowed;
    MieCleared(h.mstatus, h.priv);
    SieCleared(h.mstatus, h.priv);
  }

  /** A taken interrupt is pending, enabled, the highest such, and permitted: in machine mode never a delegated one, in
      supervisor mode a delegated one only with SIE; and the trap goes where the delegation says. */
  lemma TakenInterruptTraps(h: Hart, irq: Code)
    requires irq > 0 && IsTaken(h, irq)
    ensures Bit(h.mip, irq) && Bit(h.mie, irq)
    ensures h.priv == Machine ==> (h.mstatus >> 3) & 1 == 1 && !Bit(h.mideleg, irq)
    ensures h.priv == Supervisor && Bit(h.mideleg, irq) ==> (h.mstatus >> 1) & 1 == 1
    ensures forall p: Code :: irq < p ==> !Takable(h, p)
    ensures h.priv != Hypervisor ==> (Delegated(h, Interrupt(irq)) <==> Bit(h.mideleg, irq))
  {
    hide Bit, MieSet, SieSet;
    EnableBits(h.mstatus);
  }

  /** take_interrupt has one answer. */
  lemma TakenUnique(h: Hart, a: Code, b: Code)
    requires IsTaken(h, a) && IsTaken(h, b)
    ensures a == b
  {
    hide Takable;
  }

  lemma MachineRoundTrip(m: bv64, p: Priv)
    ensures LeaveMachine(EnterMachine(m, p)) == ClearMpp(SetMpie(WithEnable(EnterMachine(m, p), p, Enable(m, p))))
  {
    hide EnterMachine, Enable, SavedMpp, SavedMpie, WithEnable, SetMpie, ClearMpp, MPP, MPIE, Agree;
    AgreeSelf(EnterMachine(m, p), MPP);
    AgreeSelf(EnterMachine(m, p), MPIE);
    MppSaved(m, EnterMachine(m, p), p);
    MpieSaved(m, EnterMachine(m, p), p);
  }

  lemma SupervisorRoundTrip(m: bv64, p: Priv)
    requires p == User || p == Supervisor
    ensures LeaveSupervisor(EnterSupervisor(m, p))
         == ClearSpp(SetSpie(WithEnable(EnterSupervisor(m, p), p, Enable(m, p))))
  {
    hide EnterSupervisor, Enable, SavedSpp, SavedSpie, WithEnable, SetSpie, ClearSpp, SPP, SPIE, Agree;
    AgreeSelf(EnterSupervisor(m, p), SPP);
    AgreeSelf(EnterSupervisor(m, p), SPIE);
    SppSaved(m, EnterSupervisor(m, p), p);
    SpieSaved(m, EnterSupervisor(m, p), p);
  }

  lemma AgreeSelf(m: bv64, field: bv64)
    ensures Agree(m, m, field)
  {
  }

  lemma MieOther(n: bv64, p: Priv, b: bv64)
    requires p != Machine && b & 1 == b
    ensures MieSet(ClearMpp(SetMpie(WithEnable(n, p, b)))) == MieSet(n)
  {
    match p case User => case Supervisor => case Hypervisor =>
  }

  lemma SieOther(n: bv64, b: bv64)
    requires b & 1 == b
    ensures SieSet(ClearSpp(SetSpie(WithEnable(n, User, b)))) == SieSet(n)
  {
  }

  lemma EnableIs(m: bv64)
    ensures MieSet(m) <==> Enable(m, Machine) == 1
    ensures SieSet(m) <==> Enable(m, Supervisor) == 1
  {
  }

  /** Trap entry clears the enable of the mode it enters, and the return restores that of the mode it left: so across a
      trap to machine mode and back MIE survives exactly when the trap came from machine mode or MIE was clear ... */
  lemma MieSurvives(m: bv64, p: Priv)
    ensures MieSet(LeaveMachine(EnterMachine(m, p))) == MieSet(m) <==> p == Machine || !MieSet(m)
  {
    hide EnterMachine, LeaveMachine, Enable, WithEnable, SetMpie, ClearMpp, MieSet;
    var r := LeaveMachine(EnterMachine(m, p));
    MachineRoundTrip(m, p);
    EnableIsBit(m, p);
    MieCleared(m, p);
    if p == Machine {
      Enabled(EnterMachine(m, p), p, Enable(m, p));
      EnableIs(m);
      EnableIs(r);
    } else {
      MieOther(EnterMachine(m, p), p, Enable(m, p));
    }
  }

  /** ... and across one to supervisor mode SIE survives exactly when it came from there or SIE was clear. */
  lemma SieSurvives(m: bv64, p: Priv)
    requires p == User || p == Supervisor
    ensures SieSet(LeaveSupervisor(EnterSupervisor(m, p))) == SieSet(m) <==> p == Supervisor || !SieSet(m)
  {
    hide EnterSupervisor, LeaveSupervisor, Enable, WithEnable, SetSpie, ClearSpp, SieSet;
    var r := LeaveSupervisor(EnterSupervisor(m, p));
    SupervisorRoundTrip(m, p);
    EnableIsBit(m, p);
    SieCleared(m, p);
    if p == Supervisor {
      Enabled(EnterSupervisor(m, p), p, Enable(m, p));
      EnableIs(m);
      EnableIs(r);
    } else {
      SieOther(EnterSupervisor(m, p), Enable(m, p));
    }
  }

  lemma UserRest(m: bv64)
    ensures Agree(ClearMpp(SetMpie(WithEnable(EnterMachine(m, User), User, Enable(m, User)))), m, !(MIE | MPIE | MPP))
  {
  }

  lemma SupervisorToMachineRest(m: bv64)
    ensures Agree(ClearMpp(SetMpie(WithEnable(EnterMachine(m, Supervisor), Supervisor, Enable(m, Supervisor)))), m,
                  !(MIE | MPIE | MPP))
  {
  }

  lemma HypervisorRest(m: bv64)
    ensures Agree(ClearMpp(SetMpie(WithEnable(EnterMachine(m, Hypervisor), Hypervisor, Enable(m, Hypervisor)))), m,
                  !(MIE | MPIE | MPP))
  {
  }

  lemma MachineToMachineRest(m: bv64)
    ensures Agree(ClearMpp(SetMpie(WithEnable(EnterMachine(m, Machine), Machine, Enable(m, Machine)))), m,
                  !(MIE | MPIE | MPP))
  {
  }

  lemma MachineRest(m: bv64, p: Priv)
    ensures Agree(ClearMpp(SetMpie(WithEnable(EnterMachine(m, p), p, Enable(m, p)))), m, !(MIE | MPIE | MPP))
  {
    hide EnterMachine, Agree, Enable, WithEnable, SetMpie, ClearMpp;
    match p
    case User => UserRest(m);
    case Supervisor => SupervisorToMachineRest(m);
    case Hypervisor => HypervisorRest(m);
    case Machine => MachineToMachineRest(m);
  }

  lemma SupervisorRest(m: bv64, p: Priv)
    requires p == User || p == Supervisor
    ensures Agree(ClearSpp(SetSpie(WithEnable(EnterSupervisor(m, p), p, Enable(m, p)))), m, !(SIE | SPIE | SPP))
  {
    match p case User => case Supervisor =>
  }

  /** Nothing else of mstatus changes. */
  lemma RestSurvives(m: bv64, p: Priv)
    ensures Agree(LeaveMachine(EnterMachine(m, p)), m, !(MIE | MPIE | MPP))
    ensures p == User || p == Supervisor ==> Agree(LeaveSupervisor(EnterSupervisor(m, p)), m, !(SIE | SPIE | SPP))
  {
    hide EnterMachine, LeaveMachine, EnterSupervisor, LeaveSupervisor, Agree, Enable, WithEnable, SetMpie, ClearMpp,
         SetSpie, ClearSpp;
    MachineRoundTrip(m, p);
    MachineRest(m, p);
    if p == User || p == Supervisor {
      SupervisorRoundTrip(m, p);
      SupervisorRest(m, p);
    }
  }

  // ---- What traps and returns do, register by register ----

  /** A trap is delegated from user or supervisor mode by the bit of medeleg or mideleg for its code. It goes to the
      vector of its target, whose cause register holds the code, with bit 63 set for an interrupt, and whose epc and
      tval registers hold the interrupted PC and the trap value; the registers of the other mode, the vectors, the
      delegation registers and the interrupt registers stay. */
  lemma TrapRegisters(h: Hart, c: Cause, tval: Word)
    requires Trap(h, c, tval).Ok?
    ensures var t := Trap(h, c, tval).hart;
            var cause := if c.Interrupt? then 0x8000_0000_0000_0000 + c.code else c.code;
            var delegated := (h.priv == User || h.priv == Supervisor)
                             && Bit(if c.Interrupt? then h.mideleg else h.medeleg, c.code);
            && (if delegated then
                  && t.priv == Supervisor && t.pc == h.stvec
                  && t.scause == cause && t.sepc == h.pc && t.stval == tval
                  && t.mcause == h.mcause && t.mepc == h.mepc && t.mtval == h.mtval
                else
                  && t.priv == Machine && t.pc == h.mtvec
                  && t.mcause == cause && t.mepc == h.pc && t.mtval == tval
                  && t.scause == h.scause && t.sepc == h.sepc && t.stval == h.stval)
            && t.mtvec == h.mtvec && t.stvec == h.stvec && t.medeleg == h.medeleg && t.mideleg == h.mideleg
            && t.mip == h.mip && t.mie == h.mie
  {
    hide Bit, EnterMachine, EnterSupervisor, PrivAllowed;
  }

  /** A trap fails exactly when it is delegated from user mode and the SXL field is not 2. */
  lemma TrapFails(h: Hart, c: Cause, tval: Word)
    ensures Trap(h, c, tval).Failed? <==>
              h.priv == User && Bit(if c.Interrupt? then h.mideleg else h.medeleg, c.code) && (h.mstatus >> 34) & 3 != 2
  {
    hide Bit, EnterMachine, EnterSupervisor;
    SxlKept(h.mstatus, h.priv);
  }

  lemma SxlKept(m: bv64, p: Priv)
    ensures p == User ==> (Sxl64(EnterSupervisor(m, p)) <==> (m >> 34) & 3 == 2)
  {
  }

  /** A return leaves everything but mode, PC and mstatus alone, and fails exactly when it enters user or supervisor
      mode from another mode whose width field is not 2. */
  lemma MretRegisters(h: Hart)
    ensures var p := (h.mstatus >> 11) & 3; var r := Mret(h);
            && (r.Ok? <==> && (p == 1 && h.priv != Supervisor ==> (h.mstatus >> 34) & 3 == 2)
                           && (p == 0 && h.priv != User ==> (h.mstatus >> 32) & 3 == 2))
            && (r.Ok? ==>
                  && r.hart.pc == h.mepc && Level(r.hart.priv) == p
                  && r.hart == h.(priv := r.hart.priv, pc := r.hart.pc, mstatus := LeaveMachine(h.mstatus)))
  {
    hide LeaveMachine;
    MretWidths(h.mstatus);
    MppLevel(h.mstatus);
  }

  lemma SretRegisters(h: Hart)
    ensures var p := (h.mstatus >> 8) & 1; var r := Sret(h);
            && (r.Ok? <==> && (p == 1 && h.priv != Supervisor ==> (h.mstatus >> 34) & 3 == 2)
                           && (p == 0 && h.priv != User ==> (h.mstatus >> 32) & 3 == 2))
            && (r.Ok? ==>
                  && r.hart.pc == h.sepc && Level(r.hart.priv) == p
                  && r.hart == h.(priv := r.hart.priv, pc := r.hart.pc, mstatus := LeaveSupervisor(h.mstatus)))
  {
    hide LeaveSupervisor;
    SretWidths(h.mstatus);
    SppLevel(h.mstatus);
  }

  lemma MppLevel(m: bv64)
    ensures Level(SavedMpp(m)) == (m >> 11) & 3
  {
  }

  lemma SppLevel(m: bv64)
    ensures Level(SavedSpp(m)) == (m >> 8) & 1
  {
  }

  lemma MretWidthsKept(m: bv64, p: Priv, b: bv64)
    requires b & 1 == b
    ensures var r := ClearMpp(SetMpie(WithEnable(m, p, b))); (r >> 32) & 0xf == (m >> 32) & 0xf
  {
    match p case User => case Supervisor => case Hypervisor => case Machine =>
  }

  lemma SretWidthsKept(m: bv64, p: Priv, b: bv64)
    requires b & 1 == b
    ensures var r := ClearSpp(SetSpie(WithEnable(m, p, b))); (r >> 32) & 0xf == (m >> 32) & 0xf
  {
    match p case User => case Supervisor => case Hypervisor => case Machine =>
  }

  lemma WidthFields(m: bv64, n: bv64)
    requires (m >> 32) & 0xf == (n >> 32) & 0xf
    ensures Sxl64(m) <==> (n >> 34) & 3 == 2
    ensures Uxl64(m) <==> (n >> 32) & 3 == 2
  {
  }

  lemma SavedBits(m: bv64)
    ensures SavedMpie(m) & 1 == SavedMpie(m) == (m >> 7) & 1
    ensures SavedSpie(m) & 1 == SavedSpie(m) == (m >> 5) & 1
  {
  }

  lemma MretWidths(m: bv64)
    ensures Sxl64(LeaveMachine(m)) <==> (m >> 34) & 3 == 2
    ensures Uxl64(LeaveMachine(m)) <==> (m >> 32) & 3 == 2
  {
    hide SavedMpp, SavedMpie, WithEnable, SetMpie, ClearMpp, Sxl64, Uxl64;
    SavedBits(m);
    MretWidthsKept(m, SavedMpp(m), SavedMpie(m));
    WidthFields(LeaveMachine(m), m);
  }

  lemma SretWidths(m: bv64)
    ensures Sxl64(LeaveSupervisor(m)) <==> (m >> 34) & 3 == 2
    ensures Uxl64(LeaveSupervisor(m)) <==> (m >> 32) & 3 == 2
  {
    hide SavedSpp, SavedSpie, WithEnable, SetSpie, ClearSpp, Sxl64, Uxl64;
    SavedBits(m);
    SretWidthsKept(m, SavedSpp(m), SavedSpie(m));
    WidthFields(LeaveSupervisor(m), m);
  }

  // ---- mstatus, bit by bit ----

  /** After a trap to machine mode MPIE, bit 7, is the enable bit of the interrupted mode, MPP, bits 12:11, its number,
      and MIE, bit 3, is clear. */
  lemma MachineEntryBits(m: bv64, p: Priv)
    ensures var t := EnterMachine(m, p);
            && (t >> 3) & 1 == 0 && t & !0x1888 == m & !0x1888
            && match p
               case User => (t >> 7) & 1 == m & 1 && (t >> 11) & 3 == 0
               case Supervisor => (t >> 7) & 1 == (m >> 1) & 1 && (t >> 11) & 3 == 1
               case Hypervisor => (t >> 7) & 1 == (m >> 2) & 1 && (t >> 11) & 3 == 2
               case Machine => (t >> 7) & 1 == (m >> 3) & 1 && (t >> 11) & 3 == 3
  {
    match p case User => case Supervisor => case Hypervisor => case Machine =>
  }

  /** The same for a trap to supervisor mode: SPIE, bit 5, SPP, bit 8, and SIE, bit 1. */
  lemma SupervisorEntryBits(m: bv64, p: Priv)
    requires p == User || p == Supervisor
    ensures var t := EnterSupervisor(m, p);
            && (t >> 1) & 1 == 0 && t & !0x122 == m & !0x122
            && if p == User then (t >> 5) & 1 == m & 1 && (t >> 8) & 1 == 0
               else (t >> 5) & 1 == (m >> 1) & 1 && (t >> 8) & 1 == 1
  {
    match p case User => case Supervisor =>
  }

  /** From m to r the enable bit of p has become b; of the rest only MPIE and MPP differ. */
  predicate MretField(m: bv64, r: bv64, p: Priv, b: bv64) {
    match p
    case User => r & 1 == b && r & !0x1881 == m & !0x1881
    case Supervisor => (r >> 1) & 1 == b && r & !0x1882 == m & !0x1882
    case Hypervisor => (r >> 2) & 1 == b && r & !0x1884 == m & !0x1884
    case Machine => (r >> 3) & 1 == b && r & !0x1888 == m & !0x1888
  }

  lemma MretUserBits(m: bv64, b: bv64)
    requires b & 1 == b
    ensures var r := ClearMpp(SetMpie(WithEnable(m, User, b))); r & 1 == b && r & !0x1881 == m & !0x1881
  {
  }

  lemma MretUser(m: bv64, b: bv64)
    requires b & 1 == b
    ensures MretField(m, ClearMpp(SetMpie(WithEnable(m, User, b))), User, b)
  {
    hide ClearMpp, SetMpie, WithEnable;
    MretUserBits(m, b);
  }

  lemma MretSupervisorBits(m: bv64, b: bv64)
    requires b & 1 == b
    ensures var r := ClearMpp(SetMpie(WithEnable(m, Supervisor, b))); (r >> 1) & 1 == b && r & !0x1882 == m & !0x1882
  {
  }

  lemma MretSupervisor(m: bv64, b: bv64)
    requires b & 1 == b
    ensures MretField(m, ClearMpp(SetMpie(WithEnable(m, Supervisor, b))), Supervisor, b)
  {
    hide ClearMpp, SetMpie, WithEnable;
    MretSupervisorBits(m, b);
  }

  lemma MretHypervisorBits(m: bv64, b: bv64)
    requires b & 1 == b
    ensures var r := ClearMpp(SetMpie(WithEnable(m, Hypervisor, b))); (r >> 2) & 1 == b && r & !0x1884 == m & !0x1884
  {
  }

  lemma MretHypervisor(m: bv64, b: bv64)
    requires b & 1 == b
    ensures MretField(m, ClearMpp(SetMpie(WithEnable(m, Hypervisor, b))), Hypervisor, b)
  {
    hide ClearMpp, SetMpie, WithEnable;
    MretHypervisorBits(m, b);
  }

  lemma MretMachineBits(m: bv64, b: bv64)
    requires b & 1 == b
    ensures var r := ClearMpp(SetMpie(WithEnable(m, Machine, b))); (r >> 3) & 1 == b && r & !0x1888 == m & !0x1888
  {
  }

  lemma MretMachine(m: bv64, b: bv64)
    requires b & 1 == b
    ensures MretField(m, ClearMpp(SetMpie(WithEnable(m, Machine, b))), Machine, b)
  {
    hide ClearMpp, SetMpie, WithEnable;
    MretMachineBits(m, b);
  }

  lemma MretSaved(n: bv64)
    ensures var r := ClearMpp(SetMpie(n)); (r >> 7) & 1 == 1 && (r >> 11) & 3 == 0
  {
  }

  /** mret copies MPIE into the enable bit of the mode that MPP names, sets MPIE, and clears MPP to user mode. */
  lemma MretBits(m: bv64, p: Priv)
    requires Level(p) == (m >> 11) & 3
    ensures var r, b := LeaveMachine(m), (m >> 7) & 1;
            (r >> 7) & 1 == 1 && (r >> 11) & 3 == 0 && MretField(m, r, p, b)
  {
    hide SavedMpp, SavedMpie, WithEnable, SetMpie, ClearMpp, Level, MretField;
    var b := SavedMpie(m);
    SavedBits(m);
    MppLevel(m);
    LevelsDiffer(SavedMpp(m), p);
    MretSaved(WithEnable(m, p, b));
    match p
    case User => MretUser(m, b);
    case Supervisor => MretSupervisor(m, b);
    case Hypervisor => MretHypervisor(m, b);
    case Machine => MretMachine(m, b);
  }

  lemma LevelsDiffer(p: Priv, q: Priv)
    ensures Level(p) == Level(q) ==> p == q
  {
  }

  /** sret copies SPIE into UIE or SIE as SPP says, sets SPIE, and clears SPP to user mode. */
  lemma SretBits(m: bv64, p: Priv)
    requires Level(p) == (m >> 8) & 1
    ensures p == User || p == Supervisor
    ensures var r, b := LeaveSupervisor(m), (m >> 5) & 1;
            && (r >> 5) & 1 == 1 && (r >> 8) & 1 == 0
            && if p == User then r & 1 == b && r & !0x121 == m & !0x121
               else (r >> 1) & 1 == b && r & !0x122 == m & !0x122
  {
    hide SavedSpp, SavedSpie, WithEnable, SetSpie, ClearSpp, Level;
    var b := SavedSpie(m);
    SavedBits(m);
    SppLevel(m);
    LevelsDiffer(SavedSpp(m), p);
    SppMode(m);
    SretSaved(WithEnable(m, p, b));
    if p == User {
      SretUser(m, b);
    } else {
      SretSupervisor(m, b);
    }
  }

  lemma SretUser(m: bv64, b: bv64)
    requires b & 1 == b
    ensures var r := ClearSpp(SetSpie(WithEnable(m, User, b))); r & 1 == b && r & !0x121 == m & !0x121
  {
  }

  lemma SretSupervisor(m: bv64, b: bv64)
    requires b & 1 == b
    ensures var r := ClearSpp(SetSpie(WithEnable(m, Supervisor, b))); (r >> 1) & 1 == b && r & !0x122 == m & !0x122
  {
  }

  lemma SretSaved(n: bv64)
    ensures var r := ClearSpp(SetSpie(n)); (r >> 5) & 1 == 1 && (r >> 8) & 1 == 0
  {
  }

  lemma SppMode(m: bv64)
    ensures SavedSpp(m) == User || SavedSpp(m) == Supervisor
  {
  }

  // ---- Interrupts that must be taken ----

  /** A pending, enabled interrupt above 0 is taken, or one above it is, in user mode always, in supervisor mode when it
      is not delegated or SIE, bit 1 of mstatus, is set, and in machine mode when it is not delegated and MIE, bit 3,
      is. */
  lemma MustTake(h: Hart, irq: Code, p: Code)
    requires IsTaken(h, irq) && p > 0 && Bit(h.mip, p) && Bit(h.mie, p)
    requires h.priv == Supervisor ==> !Bit(h.mideleg, p) || (h.mstatus >> 1) & 1 == 1
    requires h.priv == Machine ==> !Bit(h.mideleg, p) && (h.mstatus >> 3) & 1 == 1
    ensures irq >= p
  {
    hide Bit, MieSet, SieSet, Takable;
    EnableBits(h.mstatus);
    TakableWhen(h, p);
  }

  lemma TakableWhen(h: Hart, p: Code)
    requires Bit(h.mip, p) && Bit(h.mie, p)
    requires h.priv == Supervisor ==> !Bit(h.mideleg, p) || SieSet(h.mstatus)
    requires h.priv == Machine ==> !Bit(h.mideleg, p) && MieSet(h.mstatus)
    ensures Takable(h, p)
  {
    hide Bit, MieSet, SieSet;
  }

  lemma EnableBits(m: bv64)
    ensures MieSet(m) <==> (m >> 3) & 1 == 1
    ensures SieSet(m) <==> (m >> 1) & 1 == 1
  {
  }

  /** The timer raises bit 7 of mip and nothing else. */
  lemma TimerRaises(h: Hart, timer: bool, i: nat)
    ensures var t := WithTimer(h, timer);
            && (Bit(t.mip, i) <==> Bit(h.mip, i) || (timer && i == 7))
            && t == h.(mip := t.mip)
  {
    hide Bit, Or, Pow2;
    OrBit(h.mip, 0x80, i);
    Pow2Of7();
    PowBit(7, i);
  }

  lemma Pow2Of7()
    ensures Pow2(7) == 0x80
  {
  }
}
