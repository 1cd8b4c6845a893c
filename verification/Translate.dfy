/** The two Sv39 walkers: state_t::translate of interpret.cc and translate of top.hh. */
module Translate {
  import opened Arith
  import opened Sv39

  const PRIV_USER: int := 0
  const PRIV_HYPERVISOR: int := 2
  const PRIV_MACHINE: int := 3

  /** A physical address; a fault with the code returned beside it; or behaviour the source leaves to its assertions and
      to memory it does not have. */
  datatype Result =
    | Pa(pa: int)
    | Fault(code: int)
    | AssertFails
    | Wild

  datatype Access = Access(ea: int, sz: int, store: bool, fetch: bool, force: bool) {
    ghost predicate Valid() {
      0 <= ea < TWO64
    }
  }

  /** satp: the mode in the top four bits, the root's page number in the low 44. */
  function Mode(satp: Dword): int {
    satp / 0x1000_0000_0000_0000
  }

  function RootPpn(satp: Dword): (p: nat) {
    satp % TWO44
  }

  predicate Unpaged(priv: int, satp: Dword) {
    priv == PRIV_MACHINE || priv == PRIV_HYPERVISOR || Mode(satp) == 0
  }

  predicate SamePage(ea: int, sz: int) {
    ea / TWO12 == ((ea + sz - 1) % TWO64) / TWO12
  }

  predicate Denied(pte: Dword, store: bool, fetch: bool, priv: int) {
    || (fetch && !X(pte))
    || (store && !W(pte))
    || (W(pte) && !R(pte))
    || (!(store || fetch) && !R(pte))
    || (!U(pte) && priv == PRIV_USER)
    || (U(pte) && fetch && priv != PRIV_USER)
  }

  // ---- What state_t::translate computes ----

  function IssWalk(m: seq<Dword>, satp: Dword, ea: int): Walk
    requires ea >= 0
  {
    WalkFrom(m, RootPpn(satp), ea, 2, true)
  }

  function IssResult(m: seq<Dword>, satp: Dword, priv: int, x: Access): Result
    requires x.Valid()
  {
    if Unpaged(priv, satp) && !x.force then Pa(x.ea)
    else if !SamePage(x.ea, x.sz) then Fault(2)
    else if Mode(satp) != 8 then AssertFails
    else
      match IssWalk(m, satp, x.ea)
      case Invalid(level) => Fault(level)
      case WalkAsserts => AssertFails
      case WalkWild => Wild
      case Found(slot, pte, level) =>
        if Denied(pte, x.store, x.fetch, priv) then Fault(0) else Pa(PhysAddr(pte, level, x.ea))
  }

  predicate Paged(satp: Dword, priv: int, x: Access) {
    !(Unpaged(priv, satp) && !x.force)
  }

  function IssMemory(m: seq<Dword>, satp: Dword, priv: int, x: Access): (m': seq<Dword>)
    requires x.Valid()
    ensures |m'| == |m|
  {
    if Paged(satp, priv, x) && IssResult(m, satp, priv, x).Pa?
    then
      var w := IssWalk(m, satp, x.ea);
      m[w.slot := Marked(w.pte, x.store)]
    else m
  }

  // ---- What translate of top.hh computes: no permissions, the root as an address ----

  function TopWalk(m: seq<Dword>, root: nat, va: int): Walk
    requires va >= 0
  {
    WalkFrom(m, root / TWO12, va, 2, false)
  }

  function TopResult(m: seq<Dword>, root: nat, va: int): Result
    requires va >= 0
  {
    match TopWalk(m, root, va)
    case Invalid(_) => Fault(-1)
    case WalkAsserts => AssertFails
    case WalkWild => Wild
    case Found(slot, pte, level) => Pa(PhysAddr(pte, level, va) % TWO32)
  }

  function TopMemory(m: seq<Dword>, root: nat, va: int, store: bool): (m': seq<Dword>)
    requires va >= 0
    ensures |m'| == |m|
  {
    var w := TopWalk(m, root, va);
    if w.Found? then m[w.slot := Marked(w.pte, store)] else m
  }

  // ---- The walkers themselves ----

  /** The part of state_t that translation uses. */
  class State {
    const mem: array<Dword>
    var satp: Dword
    var priv: int

    constructor (mem: array<Dword>, satp: Dword, priv: int)
      ensures this.mem == mem && this.satp == satp && this.priv == priv
    {
      this.mem, this.satp, this.priv := mem, satp, priv;
    }

    /** Lines 219 to 264: down the three tables to a leaf. */
    method FindLeaf(ea: int) returns (w: Walk)
      requires 0 <= ea < TWO64
      ensures w == IssWalk(mem[..], satp, ea)
    {
      hide V, R, W, X, U, N, Ppn, IsLeaf, Vpn;
      var a := Slot(RootPpn(satp), ea, 2);
      if a >= mem.Length {
        return WalkWild;
      }
      var u := mem[a];
      if !V(u) {
        return Invalid(2);
      }
      if N(u) {
        return WalkAsserts;
      }
      if IsLeaf(u) {
        return Found(a, u, 2);
      }
      a := Slot(Ppn(u), ea, 1);
      if a >= mem.Length {
        return WalkWild;
      }
      ghost var u1 := u;
      u := mem[a];
      assert IssWalk(mem[..], satp, ea) == WalkFrom(mem[..], Ppn(u1), ea, 1, true);
      if !V(u) {
        return Invalid(1);
      }
      if N(u) {
        return WalkAsserts;
      }
      if IsLeaf(u) {
        return Found(a, u, 1);
      }
      a := Slot(Ppn(u), ea, 0);
      if a >= mem.Length {
        return WalkWild;
      }
      assert WalkFrom(mem[..], Ppn(u1), ea, 1, true) == WalkFrom(mem[..], Ppn(u), ea, 0, true);
      u := mem[a];
      if !V(u) {
        return Invalid(0);
      }
      if !IsLeaf(u) {
        return WalkAsserts;
      }
      w := Found(a, u, 0);
    }

    /** state_t::translate. */
    method Translate(ea: int, sz: int, store: bool, fetch: bool, force: bool) returns (r: Result)
      requires 0 <= ea < TWO64
      modifies mem
      ensures var x := Access(ea, sz, store, fetch, force);
              && r == IssResult(old(mem[..]), satp, priv, x)
              && mem[..] == IssMemory(old(mem[..]), satp, priv, x)
    {
      hide V, R, W, X, U, N, Acc, Dirty, Ppn, SetAcc, SetDirty, SameCore, PageSize, IsLeaf, PhysAddr, IssWalk, Denied;
      if Unpaged(priv, satp) && !force {
        return Pa(ea);
      }
      if !SamePage(ea, sz) {
        return Fault(2);
      }
      if Mode(satp) != 8 {
        return AssertFails;
      }
      var walk := FindLeaf(ea);
      match walk
      case Invalid(level) => return Fault(level);
      case WalkAsserts => return AssertFails;
      case WalkWild => return Wild;
      case Found(a, pte, level) =>
        var u := pte;
        LeafOfWalk(mem[..], satp, ea);
        if Denied(u, store, fetch, priv) {
          return Fault(0);
        }
        MarkTwice(u, store);
        if !Acc(u) {
          u := SetAcc(u);
          mem[a] := u;
        }
        if !Dirty(u) && store {
          u := SetDirty(u);
          mem[a] := u;
        }
        var pa := PhysAddr(u, level, ea);
        PhysAddrIgnoresMarks(pte, u, level, ea);
        if N(u) && ea % 0x1_0000 != pa % 0x1_0000 {
          NapotAgrees(pte, u, level, ea);
          return AssertFails;
        }
        r := Pa(pa);
    }
  }

  lemma LeafOfWalk(m: seq<Dword>, satp: Dword, ea: int)
    requires ea >= 0
    ensures var w := IssWalk(m, satp, ea);
            w.Found? ==> w.slot < |m| && m[w.slot] == w.pte && w.level <= 2 && (N(w.pte) ==> w.level == 0)
  {
  }

  lemma MarkTwice(u: Dword, store: bool)
    ensures var v := if Acc(u) then u else SetAcc(u);
            && SameCore(u, v)
            && Marked(u, store) == (if !Dirty(v) && store then SetDirty(v) else v)
            && SameCore(u, Marked(u, store))
  {
    hide Acc, Dirty, SetAcc, SetDirty;
  }

  /** The NAPOT assertion at the end never fires. */
  lemma NapotAgrees(pte: Dword, u: Dword, level: nat, ea: int)
    requires ea >= 0 && SameCore(pte, u) && (N(pte) ==> level == 0)
    ensures N(u) ==> PhysAddr(u, level, ea) % 0x1_0000 == ea % 0x1_0000
  {
    hide PhysAddr;
    CoreFields(pte, u);
  }

  /** translate of top.hh, over the memory of its state. */
  method TopTranslate(mem: array<Dword>, va: int, root0: nat, store: bool) returns (r: Result)
    requires va >= 0 && root0 % TWO12 == 0
    modifies mem
    ensures r == TopResult(old(mem[..]), root0, va)
    ensures mem[..] == TopMemory(old(mem[..]), root0, va, store)
  {
    hide V, R, W, X, U, N, Acc, Dirty, Ppn, SetAcc, SetDirty, SameCore, PageSize, IsLeaf, PhysAddr, Vpn;
    var root := root0 / TWO12;
    var a := Slot(root, va, 2);
    if a >= mem.Length {
      return Wild;
    }
    var u := mem[a];
    if !V(u) {
      return Fault(-1);
    }
    var level := 2;
    if !IsLeaf(u) {
      root := Ppn(u);
      a := Slot(root, va, 1);
      if a >= mem.Length {
        return Wild;
      }
      u := mem[a];
      if !V(u) {
        return Fault(-1);
      }
      level := 1;
      if !IsLeaf(u) {
        root := Ppn(u);
        a := Slot(root, va, 0);
        if a >= mem.Length {
          return Wild;
        }
        u := mem[a];
        if !V(u) {
          return Fault(-1);
        }
        if !IsLeaf(u) {
          return AssertFails;
        }
        level := 0;
      }
    }
    ghost var pte := u;
    assert TopWalk(mem[..], root0, va) == Found(a, pte, level);
    MarkTopTwice(u, store);
    var accessed, dirty := Acc(u), Dirty(u);
    if !accessed {
      u := SetAcc(u);
      mem[a] := u;
    }
    if store && !dirty {
      u := SetDirty(u);
      mem[a] := u;
    }
    PhysAddrIgnoresMarks(pte, u, level, va);
    r := Pa(PhysAddr(u, level, va) % TWO32);
  }

  lemma MarkTopTwice(u: Dword, store: bool)
    ensures var v := if Acc(u) then u else SetAcc(u);
            && SameCore(u, v)
            && Marked(u, store) == (if store && !Dirty(u) then SetDirty(v) else v)
            && SameCore(u, Marked(u, store))
  {
    hide Acc, Dirty, SetAcc, SetDirty;
  }

  // ---- Properties ----

  /** Tables that differ in accessed and dirty bits only translate alike, in both walkers. */
  lemma MarksAreInvisible(m: seq<Dword>, m': seq<Dword>, satp: Dword, priv: int, y: Access, root: nat)
    requires y.Valid() && SameTables(m, m')
    ensures IssResult(m', satp, priv, y) == IssResult(m, satp, priv, y)
    ensures TopResult(m', root, y.ea) == TopResult(m, root, y.ea)
  {
    hide V, R, W, X, U, N, Acc, Dirty, Ppn, SameCore, PageSize, IsLeaf, PhysAddr, WalkFrom, SameTables;
    WalkIgnoresMarks(m, m', RootPpn(satp), y.ea, 2, true);
    WalkIgnoresMarks(m, m', root / TWO12, y.ea, 2, false);
    var w, w' := IssWalk(m, satp, y.ea), IssWalk(m', satp, y.ea);
    if w.Found? {
      CoreFields(w.pte, w'.pte);
      PhysAddrIgnoresMarks(w.pte, w'.pte, w.level, y.ea);
    }
    var t, t' := TopWalk(m, root, y.ea), TopWalk(m', root, y.ea);
    if t.Found? {
      PhysAddrIgnoresMarks(t.pte, t'.pte, t.level, y.ea);
    }
  }

  lemma OnlyMarks(m: seq<Dword>, satp: Dword, priv: int, x: Access, root: nat)
    requires x.Valid()
    ensures SameTables(m, IssMemory(m, satp, priv, x))
    ensures SameTables(m, TopMemory(m, root, x.ea, x.store))
  {
    hide V, R, W, X, U, N, Acc, Dirty, Ppn, PageSize, IsLeaf, PhysAddr, Marked;
    var w, t := IssWalk(m, satp, x.ea), TopWalk(m, root, x.ea);
    if w.Found? {
      MarkSameTables(m, w.slot, x.store);
    }
    if t.Found? {
      MarkSameTables(m, t.slot, x.store);
    }
  }

  /** Whatever page-table pages share, an access through either walker changes what no access translates to. */
  lemma MarkingKeepsTranslations(m: seq<Dword>, satp: Dword, priv: int, x: Access, satp': Dword, priv': int, y: Access,
                                 root: nat, root': nat)
    requires x.Valid() && y.Valid()
    ensures IssResult(IssMemory(m, satp, priv, x), satp', priv', y) == IssResult(m, satp', priv', y)
    ensures TopResult(IssMemory(m, satp, priv, x), root', y.ea) == TopResult(m, root', y.ea)
    ensures IssResult(TopMemory(m, root, x.ea, x.store), satp', priv', y) == IssResult(m, satp', priv', y)
    ensures TopResult(TopMemory(m, root, x.ea, x.store), root', y.ea) == TopResult(m, root', y.ea)
  {
    hide IssResult, TopResult, IssMemory, TopMemory, SameTables;
    OnlyMarks(m, satp, priv, x, root);
    MarksAreInvisible(m, IssMemory(m, satp, priv, x), satp', priv', y, root');
    MarksAreInvisible(m, TopMemory(m, root, x.ea, x.store), satp', priv', y, root');
  }

  lemma MarkedTwice(u: Dword, store: bool)
    ensures Marked(Marked(u, store), store) == Marked(u, store)
  {
    hide Acc, Dirty, SetAcc, SetDirty;
  }

  /** A second translation of the same access writes nothing. */
  lemma SecondAccessWritesNothing(m: seq<Dword>, satp: Dword, priv: int, x: Access, root: nat)
    requires x.Valid()
    ensures var m' := IssMemory(m, satp, priv, x);
            IssMemory(m', satp, priv, x) == m'
    ensures var m' := TopMemory(m, root, x.ea, x.store);
            TopMemory(m', root, x.ea, x.store) == m'
  {
    hide V, R, W, X, U, N, Acc, Dirty, Ppn, PageSize, IsLeaf, PhysAddr, Marked, WalkFrom, IssResult, SameTables;
    var m1, m2 := IssMemory(m, satp, priv, x), TopMemory(m, root, x.ea, x.store);
    OnlyMarks(m, satp, priv, x, root);
    WalkIgnoresMarks(m, m1, RootPpn(satp), x.ea, 2, true);
    WalkIgnoresMarks(m, m2, root / TWO12, x.ea, 2, false);
    MarkingKeepsTranslations(m, satp, priv, x, satp, priv, x, root, root);
    var w, t := IssWalk(m, satp, x.ea), TopWalk(m, root, x.ea);
    FoundAgain(m, satp, priv, x);
    if w.Found? {
      MarkedTwice(w.pte, x.store);
    }
    if t.Found? {
      MarkedTwice(t.pte, x.store);
    }
  }

  lemma FoundAgain(m: seq<Dword>, satp: Dword, priv: int, x: Access)
    requires x.Valid()
    ensures Paged(satp, priv, x) && IssResult(m, satp, priv, x).Pa? ==> IssWalk(m, satp, x.ea).Found?
  {
  }

  /** A strict walk that finds a leaf is the walk without the N assertions. */
  lemma {:induction false} StrictWalk(m: seq<Dword>, page: nat, ea: int, level: nat)
    requires ea >= 0 && level <= 2
    requires WalkFrom(m, page, ea, level, true).Found?
    ensures WalkFrom(m, page, ea, level, false) == WalkFrom(m, page, ea, level, true)
    decreases level
  {
    hide V, N, Ppn, IsLeaf;
    var slot := Slot(page, ea, level);
    if level > 0 && !IsLeaf(m[slot]) {
      StrictWalk(m, Ppn(m[slot]), ea, level - 1);
    }
  }

  /** The two walkers agree: where state_t::translate runs paged to a physical address below 2^32, translate from the
      same root gives that address and leaves the same memory, for leaves of every size. */
  lemma WalkersAgree(m: seq<Dword>, satp: Dword, priv: int, x: Access)
    requires x.Valid() && Paged(satp, priv, x)
    requires IssResult(m, satp, priv, x).Pa? && IssResult(m, satp, priv, x).pa < TWO32
    ensures var root := RootPpn(satp) * 4096;
            && TopResult(m, root, x.ea) == IssResult(m, satp, priv, x)
            && TopMemory(m, root, x.ea, x.store) == IssMemory(m, satp, priv, x)
  {
    hide V, R, W, X, U, N, Acc, Dirty, Ppn, PageSize, IsLeaf, Marked, WalkFrom, Denied;
    StrictWalk(m, RootPpn(satp), x.ea, 2);
    assert (RootPpn(satp) * 4096) / TWO12 == RootPpn(satp);
  }
}
