/** Sv39 page-table entries and the table walk of section 4.4 of the RISC-V Privileged Architecture, over a memory of
    64-bit words. */
module Sv39 {
  import opened Arith

  const TWO12: int := 4096
  const TWO32: int := 0x1_0000_0000
  const TWO39: int := 0x80_0000_0000
  const TWO44: int := 0x1000_0000_0000
  const TWO54: int := 0x40_0000_0000_0000
  const TWO56: int := 0x100_0000_0000_0000
  const TWO63: int := 0x8000_0000_0000_0000
  const TWO64: int := 0x1_0000_0000_0000_0000

  type Dword = x: int | 0 <= x < 0x1_0000_0000_0000_0000

  // ---- The fields of an entry ----

  predicate V(u: Dword) { u % 2 == 1 }
  predicate R(u: Dword) { (u / 2) % 2 == 1 }
  predicate W(u: Dword) { (u / 4) % 2 == 1 }
  predicate X(u: Dword) { (u / 8) % 2 == 1 }
  predicate U(u: Dword) { (u / 16) % 2 == 1 }
  predicate Acc(u: Dword) { (u / 64) % 2 == 1 }
  predicate Dirty(u: Dword) { (u / 128) % 2 == 1 }
  predicate N(u: Dword) { u / TWO63 == 1 }
  predicate IsLeaf(u: Dword) { X(u) || W(u) || R(u) }

  function Ppn(u: Dword): (p: nat)
    ensures p < TWO44
  {
    (u / 1024) % TWO44
  }

  /** Equal but for the accessed and dirty bits. */
  ghost predicate SameCore(u: Dword, v: Dword) {
    u % 64 == v % 64 && u / 256 == v / 256
  }

  /** Dividing by c what is h units of c * k and a rest. */
  lemma DivUnits(h: int, l: int, c: int, k: int)
    requires l >= 0 && c > 0
    ensures ((c * k) * h + l) / c == k * h + l / c
  {
    assert (c * k) * h == c * (k * h);
    assert l == c * (l / c) + l % c;
    Distribute(k * h, l / c, c);
    ModUnique(l % c, (c * k) * h + l, k * h + l / c, c);
  }

  lemma EvenUnits(h: int, l: int)
    ensures (2 * h + l) % 2 == l % 2
  {
  }

  /** The six low bits and the rest, cut again at bits 7 and 8. */
  lemma Quarters(u: Dword)
    ensures var h := u / 64;
            u / 256 == h / 4 && u / 128 == h / 2
  {
    var h, l := u / 64, u % 64;
    ModUnique(64 * (h % 4) + l, u, h / 4, 256);
    ModUnique(64 * (h % 2) + l, u, h / 2, 128);
  }

  lemma Units64(h: int, l: int)
    requires 0 <= l < 64
    ensures (64 * h + l) / 64 == h && (64 * h + l) % 64 == l
  {
  }

  lemma Fours(c: int, r: int)
    requires 0 <= r < 4
    ensures (4 * c + r) / 4 == c && (4 * c + r) / 2 == 2 * c + r / 2
    ensures (4 * c + r) % 2 == r % 2 && (4 * c + r) / 2 % 2 == r / 2
  {
    ModUnique(r, 4 * c + r, c, 4);
    ModUnique(r % 2, 4 * c + r, 2 * c + r / 2, 2);
    ModUnique(r / 2, 2 * c + r / 2, c, 2);
  }

  /** On the part above the low six bits: setting bit 0 or bit 1 leaves what is above them. */
  lemma SetLowTwo(h: int)
    requires 0 <= h
    ensures h % 2 == 0 ==> (h + 1) % 2 == 1 && (h + 1) / 4 == h / 4 && (h + 1) / 2 == h / 2
    ensures (h / 2) % 2 == 0 ==> ((h + 2) / 2) % 2 == 1 && (h + 2) / 4 == h / 4 && (h + 2) % 2 == h % 2
  {
    var c, r := h / 4, h % 4;
    Fours(c, r);
    if r < 3 {
      Fours(c, r + 1);
    }
    if r < 2 {
      Fours(c, r + 2);
    }
  }

  lemma Bound64(h: int)
    requires 0 <= h < TWO64 / 64
    ensures h % 2 == 0 ==> h + 1 < TWO64 / 64
    ensures (h / 2) % 2 == 0 ==> h + 2 < TWO64 / 64
  {
  }

  lemma SetBits(u: Dword)
    ensures !Acc(u) ==> u + 64 < TWO64 && Acc(u + 64) && SameCore(u, u + 64) && (Dirty(u + 64) <==> Dirty(u))
    ensures !Dirty(u) ==> u + 128 < TWO64 && Dirty(u + 128) && SameCore(u, u + 128) && (Acc(u + 128) <==> Acc(u))
  {
    var h, l := u / 64, u % 64;
    Quarters(u);
    SetLowTwo(h);
    Bound64(h);
    if h % 2 == 0 {
      Units64(h + 1, l);
      Quarters(64 * (h + 1) + l);
    }
    if (h / 2) % 2 == 0 {
      Units64(h + 2, l);
      Quarters(64 * (h + 2) + l);
    }
  }

  function SetAcc(u: Dword): (v: Dword)
    ensures Acc(v) && SameCore(u, v) && (Dirty(v) <==> Dirty(u))
    ensures Acc(u) ==> v == u
  {
    SetBits(u);
    if Acc(u) then u else u + 64
  }

  function SetDirty(u: Dword): (v: Dword)
    ensures Dirty(v) && SameCore(u, v) && (Acc(v) <==> Acc(u))
    ensures Dirty(u) ==> v == u
  {
    SetBits(u);
    if Dirty(u) then u else u + 128
  }

  lemma LowField(u: Dword, c: int, k: int)
    requires c > 0 && k >= 0 && c * (2 * k) == 64
    ensures (u / c) % 2 == ((u % 64) / c) % 2
  {
    var h, l := u / 64, u % 64;
    DivUnits(h, l, c, 2 * k);
    assert (2 * k) * h == 2 * (k * h);
    EvenUnits(k * h, l / c);
  }

  lemma HighField(u: Dword)
    ensures u / 1024 == (u / 256) / 4
    ensures u / TWO63 == (u / 256) / (TWO63 / 256)
  {
    var h, l := u / 256, u % 256;
    ModUnique(256 * (h % 4) + l, u, h / 4, 1024);
    ModUnique(256 * (h % (TWO63 / 256)) + l, u, h / (TWO63 / 256), TWO63);
  }

  lemma CoreFields(u: Dword, v: Dword)
    requires SameCore(u, v)
    ensures V(u) == V(v) && R(u) == R(v) && W(u) == W(v) && X(u) == X(v) && U(u) == U(v) && N(u) == N(v)
    ensures IsLeaf(u) == IsLeaf(v) && Ppn(u) == Ppn(v)
  {
    LowField(u, 1, 32);
    LowField(v, 1, 32);
    LowField(u, 2, 16);
    LowField(v, 2, 16);
    LowField(u, 4, 8);
    LowField(v, 4, 8);
    LowField(u, 8, 4);
    LowField(v, 8, 4);
    LowField(u, 16, 2);
    LowField(v, 16, 2);
    HighField(u);
    HighField(v);
  }

  // ---- The walk ----

  /** The index into the table of a level: 9 bits of the address. */
  function Vpn(ea: int, level: nat): (i: nat)
    requires ea >= 0 && level <= 2
    ensures i < 512
  {
    (if level == 2 then ea / 0x4000_0000 else if level == 1 then ea / 0x20_0000 else ea / 0x1000) % 512
  }

  function Slot(page: nat, ea: int, level: nat): nat
    requires ea >= 0 && level <= 2
  {
    page * 512 + Vpn(ea, level)
  }

  /** Where a walk ends: at a leaf, at an invalid entry of some level, at an assertion of the walker, or outside
      memory. */
  datatype Walk =
    | Found(slot: nat, pte: Dword, level: nat)
    | Invalid(at: nat)
    | WalkAsserts
    | WalkWild

  /** Follow the tables from `page` down. `strict` walkers also insist that no entry above level 0 has N set. */
  function WalkFrom(m: seq<Dword>, page: nat, ea: int, level: nat, strict: bool): (w: Walk)
    requires ea >= 0 && level <= 2
    ensures w.Found? ==> w.slot < |m| && m[w.slot] == w.pte && w.level <= level && V(w.pte) && IsLeaf(w.pte)
                         && (strict && N(w.pte) ==> w.level == 0)
    decreases level
  {
    var slot := Slot(page, ea, level);
    if slot >= |m| then WalkWild
    else
      var u := m[slot];
      if !V(u) then Invalid(level)
      else if strict && level > 0 && N(u) then WalkAsserts
      else if IsLeaf(u) then Found(slot, u, level)
      else if level == 0 then WalkAsserts
      else WalkFrom(m, Ppn(u), ea, level - 1, strict)
  }

  /** How many low address bits a leaf leaves alone: 1 GB, 2 MB, 64 KB for NAPOT, 4 KB. */
  function PageSize(pte: Dword, level: nat): (s: int)
    ensures s in {0x4000_0000, 0x20_0000, 0x1_0000, 0x1000}
  {
    if level == 2 then 0x4000_0000 else if level == 1 then 0x20_0000
    else if N(pte) then 0x1_0000 else 0x1000
  }

  /** ((ppn * 4096) & ~m) | (ea & m), where m + 1 is the size of the page. */
  function PhysAddr(pte: Dword, level: nat, ea: int): (pa: int)
    requires ea >= 0
    ensures 0 <= pa < TWO56 && pa % PageSize(pte, level) == ea % PageSize(pte, level)
  {
    var base, size := Ppn(pte) * TWO12, PageSize(pte, level);
    base - base % size + ea % size
  }

  function Marked(pte: Dword, store: bool): Dword {
    if store then SetDirty(SetAcc(pte)) else SetAcc(pte)
  }

  // ---- Memories that differ in accessed and dirty bits only ----

  ghost predicate SameTables(m: seq<Dword>, m': seq<Dword>) {
    |m| == |m'| && forall k :: 0 <= k < |m| ==> SameCore(m[k], m'[k])
  }

  ghost predicate SameWalk(w: Walk, w': Walk) {
    if w.Found? then w'.Found? && w'.slot == w.slot && w'.level == w.level && SameCore(w.pte, w'.pte)
    else w' == w
  }

  lemma {:induction false} WalkIgnoresMarks(m: seq<Dword>, m': seq<Dword>, page: nat, ea: int, level: nat, strict: bool)
    requires ea >= 0 && level <= 2 && SameTables(m, m')
    ensures SameWalk(WalkFrom(m, page, ea, level, strict), WalkFrom(m', page, ea, level, strict))
    decreases level
  {
    var slot := Slot(page, ea, level);
    if slot < |m| {
      CoreFields(m[slot], m'[slot]);
      if level > 0 {
        WalkIgnoresMarks(m, m', Ppn(m[slot]), ea, level - 1, strict);
      }
    }
  }

  lemma MarkSameTables(m: seq<Dword>, slot: nat, store: bool)
    requires slot < |m|
    ensures SameTables(m, m[slot := Marked(m[slot], store)])
  {
  }

  lemma PhysAddrIgnoresMarks(pte: Dword, pte': Dword, level: nat, ea: int)
    requires ea >= 0 && SameCore(pte, pte')
    ensures PhysAddr(pte, level, ea) == PhysAddr(pte', level, ea)
  {
    CoreFields(pte, pte');
  }
}
