/** What a translation comes to, in the bits of the entry it ends in: which accesses it grants, which address it gives,
    and which bits it writes (section 4.4 of the RISC-V Privileged Architecture). */
module TranslateOutcome {
  import opened Arith
  import opened Sv39
  import opened Translate

  // ---- The walk, entry by entry ----

  /** The three type bits are zero together exactly in a pointer. */
  lemma TypeBits(u: Dword)
    ensures IsLeaf(u) <==> (u / 2) % 8 != 0
  {
    var h, l := u / 16, u % 16;
    DivUnits(h, l, 2, 8);
    DivUnits(h, l, 4, 4);
    DivUnits(h, l, 8, 2);
    EvenUnits(4 * h, l / 2);
    EvenUnits(2 * h, l / 4);
    EvenUnits(h, l / 8);
    ModUnique(l / 2, u / 2, h, 8);
    NoTypeBit(l);
  }

  lemma NoTypeBit(l: int)
    requires 0 <= l < 16
    ensures l / 2 == 0 <==> (l / 2) % 2 == 0 && (l / 4) % 2 == 0 && (l / 8) % 2 == 0
  {
  }

  /** The walk in the fields of the address and of the entries it meets. */
  lemma WalkByEntries(m: seq<Dword>, root: nat, ea: int, strict: bool)
    requires ea >= 0
    ensures WalkFrom(m, root, ea, 2, strict)
         == var s2 := root * 512 + (ea / 0x4000_0000) % 512;
            if s2 >= |m| then WalkWild
            else if m[s2] % 2 == 0 then Invalid(2)
            else if strict && m[s2] / TWO63 == 1 then WalkAsserts
            else if (m[s2] / 2) % 8 != 0 then Found(s2, m[s2], 2)
            else
              var s1 := (m[s2] / 1024) % TWO44 * 512 + (ea / 0x20_0000) % 512;
              if s1 >= |m| then WalkWild
              else if m[s1] % 2 == 0 then Invalid(1)
              else if strict && m[s1] / TWO63 == 1 then WalkAsserts
              else if (m[s1] / 2) % 8 != 0 then Found(s1, m[s1], 1)
              else
                var s0 := (m[s1] / 1024) % TWO44 * 512 + (ea / 0x1000) % 512;
                if s0 >= |m| then WalkWild
                else if m[s0] % 2 == 0 then Invalid(0)
                else if (m[s0] / 2) % 8 != 0 then Found(s0, m[s0], 0)
                else WalkAsserts
  {
    hide IsLeaf;
    var s2 := Slot(root, ea, 2);
    if s2 < |m| {
      TypeBits(m[s2]);
      var s1 := Slot(Ppn(m[s2]), ea, 1);
      if s1 < |m| {
        TypeBits(m[s1]);
        LastEntry(m, Ppn(m[s1]), ea, strict);
      }
    }
  }

  lemma LastEntry(m: seq<Dword>, page: nat, ea: int, strict: bool)
    requires ea >= 0
    ensures WalkFrom(m, page, ea, 0, strict)
         == var s0 := page * 512 + (ea / 0x1000) % 512;
            if s0 >= |m| then WalkWild
            else if m[s0] % 2 == 0 then Invalid(0)
            else if (m[s0] / 2) % 8 != 0 then Found(s0, m[s0], 0)
            else WalkAsserts
  {
    hide IsLeaf;
    var s0 := Slot(page, ea, 0);
    if s0 < |m| {
      TypeBits(m[s0]);
    }
  }

  // ---- Permissions ----

  /** Where the walk ends in the leaf u, the access is granted exactly when the bits of u allow it: bit 3 for a fetch,
      bit 2 for a store, bit 1 for a load, never bit 2 without bit 1, bit 4 for user mode, and bit 4 clear for a fetch
      in another mode. Anything else is a fault that returns 0. */
  lemma LeafPermissions(m: seq<Dword>, satp: Dword, priv: int, x: Access)
    requires x.Valid() && (x.force || (priv != 3 && priv != 2)) && satp / 0x1000_0000_0000_0000 == 8
    requires SamePage(x.ea, x.sz)
    requires IssWalk(m, satp, x.ea).Found?
    ensures var u, r := IssWalk(m, satp, x.ea).pte, IssResult(m, satp, priv, x);
            && (r.Pa? <==>
                  && (x.fetch ==> (u / 8) % 2 == 1)
                  && (x.store ==> (u / 4) % 2 == 1)
                  && (!x.fetch && !x.store ==> (u / 2) % 2 == 1)
                  && ((u / 4) % 2 == 1 ==> (u / 2) % 2 == 1)
                  && (priv == 0 ==> (u / 16) % 2 == 1)
                  && (x.fetch && priv != 0 ==> (u / 16) % 2 == 0))
            && (!r.Pa? ==> r == Fault(0))
  {
    hide WalkFrom;
  }

  /** The address granted: the frame of the leaf, in the size of its level, and the offset within it. */
  lemma LeafAddress(u: Dword, level: nat, ea: int)
    requires ea >= 0 && level <= 2
    ensures var pa, ppn := PhysAddr(u, level, ea), (u / 1024) % TWO44;
            if level == 2 then pa / 0x4000_0000 == ppn / 0x4_0000 && pa % 0x4000_0000 == ea % 0x4000_0000
            else if level == 1 then pa / 0x20_0000 == ppn / 0x200 && pa % 0x20_0000 == ea % 0x20_0000
            else if u >= TWO63 then pa / 0x1_0000 == ppn / 0x10 && pa % 0x1_0000 == ea % 0x1_0000
            else pa / 0x1000 == ppn && pa % 0x1000 == ea % 0x1000
  {
    var ppn := Ppn(u);
    if level == 2 {
      FrameOf(ppn, ea, 0x4_0000);
    } else if level == 1 {
      FrameOf(ppn, ea, 0x200);
    } else if u >= TWO63 {
      FrameOf(ppn, ea, 0x10);
    } else {
      FrameOf(ppn, ea, 1);
    }
  }

  lemma FrameOf(ppn: int, ea: int, k: int)
    requires ppn >= 0 && ea >= 0 && k > 0
    ensures var base, size := ppn * TWO12, k * TWO12;
            var pa := base - base % size + ea % size;
            pa / size == ppn / k && pa % size == ea % size
  {
    var base, size := ppn * TWO12, k * TWO12;
    var q, r := ppn / k, ppn % k;
    assert ppn == k * q + r;
    assert base == q * size + r * TWO12;
    MulMono(r + 1, k, TWO12);
    ModUnique(r * TWO12, base, q, size);
    ModUnique(ea % size, q * size + ea % size, q, size);
  }

  // ---- The whole answer of state_t::translate ----

  /** An access of up to a page that does not run past the end of its page. */
  lemma WithinPage(ea: int, sz: int)
    requires 0 <= ea < TWO64 && 1 <= sz <= TWO12
    ensures SamePage(ea, sz) <==> ea % TWO12 + sz <= TWO12
  {
    var p, o := ea / TWO12, ea % TWO12;
    var e := ea + sz - 1;
    if o + sz <= TWO12 {
      ModUnique(o + sz - 1, e, p, TWO12);
    } else {
      ModUnique(o + sz - 1 - TWO12, e, p + 1, TWO12);
      WrapPage(e, p + 1);
    }
  }

  lemma WrapPage(e: int, q: int)
    requires 0 < q <= TWO64 / TWO12 && e / TWO12 == q && 0 <= e < TWO64 + TWO12
    ensures (e % TWO64) / TWO12 == if e < TWO64 then q else 0
    ensures e >= TWO64 ==> q == TWO64 / TWO12
  {
    if e >= TWO64 {
      ModUnique(e - TWO64, e, 1, TWO64);
    }
  }

  /** Machine and hypervisor mode and mode field 0 pass addresses through unless forced; a crossing access faults with
      2, an invalid entry with the level it was met at. */
  lemma OtherOutcomes(m: seq<Dword>, satp: Dword, priv: int, x: Access)
    requires x.Valid() && 1 <= x.sz <= TWO12
    ensures var r := IssResult(m, satp, priv, x);
            if !x.force && (priv == 3 || priv == 2 || satp / 0x1000_0000_0000_0000 == 0) then r == Pa(x.ea)
            else if x.ea % TWO12 + x.sz > TWO12 then r == Fault(2)
            else if satp / 0x1000_0000_0000_0000 != 8 then r == AssertFails
            else
              match WalkFrom(m, satp % TWO44, x.ea, 2, true)
              case Invalid(level) => r == Fault(level)
              case WalkAsserts => r == AssertFails
              case WalkWild => r == Wild
              case Found(slot, u, level) => r == Pa(PhysAddr(u, level, x.ea)) || r == Fault(0)
  {
    hide WalkFrom, PhysAddr, Denied, SamePage;
    WithinPage(x.ea, x.sz);
  }

  // ---- What is written ----

  lemma MarkedBits(u: Dword, store: bool)
    ensures var v := Marked(u, store);
            && (v / 64) % 2 == 1
            && ((v / 128) % 2 == 1 <==> store || (u / 128) % 2 == 1)
            && v % 64 == u % 64 && v / 256 == u / 256
  {
    hide SetAcc, SetDirty;
    var a := SetAcc(u);
  }

  /** A granted paged access writes the accessed bit of the leaf, and the dirty bit for a store; every other bit and
      word stays, and any other outcome writes nothing. */
  lemma WritesExactly(m: seq<Dword>, satp: Dword, priv: int, x: Access, k: nat)
    requires x.Valid() && k < |m|
    ensures var m', w := IssMemory(m, satp, priv, x), IssWalk(m, satp, x.ea);
            var unpaged := !x.force && (priv == 3 || priv == 2 || satp / 0x1000_0000_0000_0000 == 0);
            if IssResult(m, satp, priv, x).Pa? && !unpaged && w.Found? && w.slot == k then
              && (m'[k] / 64) % 2 == 1
              && ((m'[k] / 128) % 2 == 1 <==> x.store || (m[k] / 128) % 2 == 1)
              && m'[k] % 64 == m[k] % 64 && m'[k] / 256 == m[k] / 256
            else m'[k] == m[k]
  {
    hide Marked, WalkFrom, PhysAddr, Denied;
    var w := IssWalk(m, satp, x.ea);
    if w.Found? {
      MarkedBits(w.pte, x.store);
    }
  }

  /** The second walker: no permissions, the same marking, addresses of 32 bits, all ones for no translation. */
  lemma TopOutcomes(m: seq<Dword>, root: nat, va: int, store: bool, k: nat)
    requires va >= 0 && k < |m|
    ensures var m', w := TopMemory(m, root, va, store), WalkFrom(m, root / TWO12, va, 2, false);
            && TopResult(m, root, va) == (match w
                                          case Invalid(_) => Fault(-1)
                                          case WalkAsserts => AssertFails
                                          case WalkWild => Wild
                                          case Found(slot, u, level) => Pa(PhysAddr(u, level, va) % 0x1_0000_0000))
            && if w.Found? && w.slot == k then
                 && (m'[k] / 64) % 2 == 1
                 && ((m'[k] / 128) % 2 == 1 <==> store || (m[k] / 128) % 2 == 1)
                 && m'[k] % 64 == m[k] % 64 && m'[k] / 256 == m[k] / 256
               else m'[k] == m[k]
  {
    hide Marked, WalkFrom, PhysAddr;
    var w := TopWalk(m, root, va);
    if w.Found? {
      MarkedBits(w.pte, store);
    }
  }
}
