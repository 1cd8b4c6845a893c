/** csmith/setup_paging.h: walk and mappages, which build the three-level table that the walkers read. */
module PageTables {
  import opened Arith
  import opened Sv39
  import opened Translate
  import opened TranslateOutcome

  // ---- The shape of a table: which page is the table of what ----

  datatype Node = Root | Mid(i: nat) | Low(i: nat, j: nat)

  type Owner = map<nat, Node>

  /** A pointer to a next-level table, with nothing in its reserved bits. */
  ghost predicate Pointer(u: Dword) {
    V(u) && !IsLeaf(u) && u < TWO54
  }

  /** The entry k of a page that owns node, if valid, points to the page that owns the child k. */
  ghost predicate EntryOk(m: seq<Dword>, own: Owner, page: nat, k: nat)
    requires page in own && k < 512 && (page + 1) * 512 <= |m|
  {
    var u, node := m[page * 512 + k], own[page];
    V(u) && !node.Low? ==>
      Pointer(u) && Ppn(u) in own && own[Ppn(u)] == (if node.Root? then Mid(k) else Low(node.i, k))
  }

  /** The pages reachable as tables form a tree without superpage leaves; `own` names what each page is the table of. */
  ghost predicate Tree(m: seq<Dword>, own: Owner, root: nat) {
    && root in own && own[root] == Root
    && (forall p: nat :: p in own ==> (p + 1) * 512 <= |m|)
    && (forall p: nat, k: nat :: p in own && k < 512 ==> EntryOk(m, own, p, k))
  }

  /** What malloc hands out: whole, aligned pages of the memory, not yet tables, each once. */
  ghost predicate PoolOk(free: seq<nat>, own: Owner, words: nat) {
    && (forall k :: 0 <= k < |free| ==>
          0 < free[k] && (free[k] + 1) * 512 <= words && free[k] < TWO44 && free[k] !in own)
    && (forall j, k :: 0 <= j < k < |free| ==> free[j] != free[k])
  }

  // ---- What a table says about an address ----

  /** The table of the last level for ea, if the path to it is there. */
  ghost function LowTable(m: seq<Dword>, root: nat, ea: int): (r: int)
    requires ea >= 0
  {
    var s2 := Slot(root, ea, 2);
    if s2 >= |m| || !V(m[s2]) then -1
    else
      var s1 := Slot(Ppn(m[s2]), ea, 1);
      if s1 >= |m| || !V(m[s1]) then -1 else Ppn(m[s1])
  }

  /** The last-level entry for ea; 0, an invalid entry, where there is no table for it. */
  ghost function Lookup(m: seq<Dword>, root: nat, ea: int): Dword
    requires ea >= 0
  {
    var p := LowTable(m, root, ea);
    if p < 0 || Slot(p, ea, 0) >= |m| then 0 else m[Slot(p, ea, 0)]
  }

  lemma SlotInjective(p: nat, i: nat, q: nat, j: nat)
    requires i < 512 && j < 512 && p * 512 + i == q * 512 + j
    ensures p == q && i == j
  {
  }

  /** In a tree the path to an address goes from the root through a Mid page to a Low page, and no two addresses with
      different upper indices share one. */
  lemma Path(m: seq<Dword>, own: Owner, root: nat, ea: int)
    requires ea >= 0 && Tree(m, own, root)
    ensures Slot(root, ea, 2) < |m|
    ensures V(m[Slot(root, ea, 2)]) ==>
              var q := Ppn(m[Slot(root, ea, 2)]);
              && Pointer(m[Slot(root, ea, 2)]) && q in own && own[q] == Mid(Vpn(ea, 2)) && Slot(q, ea, 1) < |m|
              && (V(m[Slot(q, ea, 1)]) ==>
                    var r := Ppn(m[Slot(q, ea, 1)]);
                    && Pointer(m[Slot(q, ea, 1)]) && r in own && own[r] == Low(Vpn(ea, 2), Vpn(ea, 1))
                    && Slot(r, ea, 0) < |m| && LowTable(m, root, ea) == r)
  {
    hide V, IsLeaf, Ppn, Pointer, Vpn;
    assert EntryOk(m, own, root, Vpn(ea, 2));
    if V(m[Slot(root, ea, 2)]) {
      var q := Ppn(m[Slot(root, ea, 2)]);
      assert EntryOk(m, own, q, Vpn(ea, 1));
    }
  }

  /** On a tree, the Sv39 walk is decided by the lookup alone. */
  lemma WalkIsLookup(m: seq<Dword>, own: Owner, root: nat, ea: int)
    requires ea >= 0 && Tree(m, own, root)
    ensures var u, w := Lookup(m, root, ea), WalkFrom(m, root, ea, 2, true);
            && (!V(u) ==> w.Invalid?)
            && (V(u) && !IsLeaf(u) ==> w.WalkAsserts?)
            && (V(u) && IsLeaf(u) ==> w.Found? && w.pte == u && w.level == 0)
  {
    hide R, W, X, Ppn, Vpn;
    Path(m, own, root, ea);
    var s2 := Slot(root, ea, 2);
    if V(m[s2]) {
      PointerHasNoN(m[s2]);
      var s1 := Slot(Ppn(m[s2]), ea, 1);
      assert WalkFrom(m, root, ea, 2, true) == WalkFrom(m, Ppn(m[s2]), ea, 1, true);
      if V(m[s1]) {
        PointerHasNoN(m[s1]);
        assert WalkFrom(m, Ppn(m[s2]), ea, 1, true) == WalkFrom(m, Ppn(m[s1]), ea, 0, true);
      }
    }
  }

  lemma PointerHasNoN(u: Dword)
    requires Pointer(u)
    ensures !N(u)
  {
  }

  // ---- Linking a fresh table ----

  function TablePte(page: nat): (u: Dword)
    requires page < TWO44
  {
    page * 1024 + 1
  }

  lemma TablePtePoints(page: nat)
    requires page < TWO44
    ensures Pointer(TablePte(page)) && Ppn(TablePte(page)) == page
    ensures !V(0)
  {
    var u := TablePte(page);
    ModUnique(0, u / 2, page * 256, 2);
    ModUnique(0, u / 4, page * 128, 2);
    ModUnique(0, u / 8, page * 64, 2);
    ModUnique(1, u, page, 1024);
    ModUnique(page, u / 1024, 0, TWO44);
  }

  /** m' is m with the page `next` zeroed and a pointer to it stored at `slot`. */
  ghost predicate Linked(m: seq<Dword>, m': seq<Dword>, slot: nat, next: nat) {
    && |m'| == |m| && slot < |m| && next < TWO44
    && m'[slot] == TablePte(next)
    && (forall k :: 0 <= k < |m| && k != slot ==> m'[k] == if next * 512 <= k < next * 512 + 512 then 0 else m[k])
  }

  ghost function Child(node: Node, k: nat): Node
    requires !node.Low?
  {
    if node.Root? then Mid(k) else Low(node.i, k)
  }

  lemma OtherPage(p: nat, k: nat, q: nat, j: nat)
    requires k < 512 && j < 512 && p != q
    ensures p * 512 + k != q * 512 + j && !(q * 512 <= p * 512 + k < q * 512 + 512)
  {
  }

  lemma LinkTree(m: seq<Dword>, m': seq<Dword>, own: Owner, root: nat, p: nat, k: nat, next: nat)
    requires Tree(m, own, root) && p in own && k < 512 && !own[p].Low?
    requires next !in own && (next + 1) * 512 <= |m| && Linked(m, m', p * 512 + k, next)
    ensures Tree(m', own[next := Child(own[p], k)], root)
  {
    hide V, IsLeaf, Ppn, TablePte, Pointer;
    TablePtePoints(next);
    var own' := own[next := Child(own[p], k)];
    forall q: nat, j: nat | q in own' && j < 512
      ensures EntryOk(m', own', q, j)
    {
      if q == next {
        OtherPage(p, k, next, j);
      } else {
        OtherPage(q, j, next, 0);
        assert EntryOk(m, own, q, j);
        if q * 512 + j == p * 512 + k {
          SlotInjective(q, j, p, k);
        }
      }
    }
  }

  /** A fresh, empty table changes no lookup. */
  lemma LinkLookup(m: seq<Dword>, m': seq<Dword>, own: Owner, root: nat, p: nat, k: nat, next: nat, ea: int)
    requires ea >= 0 && Tree(m, own, root) && p in own && k < 512 && !own[p].Low?
    requires next !in own && (next + 1) * 512 <= |m| && Linked(m, m', p * 512 + k, next)
    requires !V(m[p * 512 + k])
    ensures Lookup(m', root, ea) == Lookup(m, root, ea)
  {
    hide V, IsLeaf, Ppn, TablePte, Pointer, Vpn, Tree, EntryOk;
    TablePtePoints(next);
    Path(m, own, root, ea);
    TreeRoot(m, own, root);
    var s2 := Slot(root, ea, 2);
    SamePlace(m, m', p, k, next, root, Vpn(ea, 2));
    if V(m[s2]) {
      var q := Ppn(m[s2]);
      var s1 := Slot(q, ea, 1);
      SamePlace(m, m', p, k, next, q, Vpn(ea, 1));
      if V(m[s1]) {
        SamePlace(m, m', p, k, next, Ppn(m[s1]), Vpn(ea, 0));
      } else if s1 == p * 512 + k {
        EmptyPage(m, m', p, k, next, Vpn(ea, 0));
      }
    } else if s2 == p * 512 + k {
      EmptyPage(m, m', p, k, next, Vpn(ea, 1));
    }
  }

  lemma TreeRoot(m: seq<Dword>, own: Owner, root: nat)
    requires Tree(m, own, root)
    ensures root in own && own[root] == Root
    ensures forall p: nat :: p in own ==> (p + 1) * 512 <= |m|
  {
  }

  /** A word of a table page other than the fresh one is either the new pointer's or unchanged. */
  lemma SamePlace(m: seq<Dword>, m': seq<Dword>, p: nat, k: nat, next: nat, q: nat, j: nat)
    requires k < 512 && j < 512 && Linked(m, m', p * 512 + k, next) && q * 512 + j < |m| && q != next
    ensures q * 512 + j == p * 512 + k ==> q == p && j == k && m'[q * 512 + j] == TablePte(next)
    ensures q * 512 + j != p * 512 + k ==> m'[q * 512 + j] == m[q * 512 + j]
  {
    hide TablePte;
    OtherPage(q, j, next, 0);
    if q * 512 + j == p * 512 + k {
      SlotInjective(q, j, p, k);
    }
  }

  lemma EmptyPage(m: seq<Dword>, m': seq<Dword>, p: nat, k: nat, next: nat, j: nat)
    requires k < 512 && j < 512 && p != next && (next + 1) * 512 <= |m| && Linked(m, m', p * 512 + k, next)
    ensures next * 512 + j < |m'| && m'[next * 512 + j] == 0
  {
    hide TablePte;
    OtherPage(p, k, next, j);
  }

  // ---- Storing a leaf ----

  /** Equal indices into all three tables: the same page of the 39-bit address space. */
  ghost predicate SameIndices(x: int, y: int)
    requires x >= 0 && y >= 0
  {
    Vpn(x, 2) == Vpn(y, 2) && Vpn(x, 1) == Vpn(y, 1) && Vpn(x, 0) == Vpn(y, 0)
  }

  lemma StoreTree(m: seq<Dword>, own: Owner, root: nat, p: nat, k: nat, u: Dword)
    requires Tree(m, own, root) && p in own && own[p].Low? && k < 512
    ensures p * 512 + k < |m| && Tree(m[p * 512 + k := u], own, root)
  {
    hide V, IsLeaf, Ppn, Pointer;
    var m' := m[p * 512 + k := u];
    forall q: nat, j: nat | q in own && j < 512
      ensures EntryOk(m', own, q, j)
    {
      assert EntryOk(m, own, q, j);
      if q * 512 + j == p * 512 + k {
        SlotInjective(q, j, p, k);
      }
    }
  }

  /** Storing the last-level entry of va changes the lookup of va's own page and of nothing else. */
  lemma StoreLookup(m: seq<Dword>, own: Owner, root: nat, va: int, u: Dword, ea: int)
    requires va >= 0 && ea >= 0 && Tree(m, own, root) && LowTable(m, root, va) >= 0
    ensures Slot(LowTable(m, root, va), va, 0) < |m|
    ensures Lookup(m[Slot(LowTable(m, root, va), va, 0) := u], root, ea)
         == if SameIndices(va, ea) then u else Lookup(m, root, ea)
  {
    hide V, IsLeaf, Ppn, Pointer, Vpn, Tree, EntryOk;
    Path(m, own, root, va);
    Path(m, own, root, ea);
    TreeRoot(m, own, root);
    var r := LowTable(m, root, va);
    var s := Slot(r, va, 0);
    var s2 := Slot(root, ea, 2);
    OtherPage(root, Vpn(ea, 2), r, Vpn(va, 0));
    if V(m[s2]) {
      var q := Ppn(m[s2]);
      var s1 := Slot(q, ea, 1);
      OtherPage(q, Vpn(ea, 1), r, Vpn(va, 0));
      if V(m[s1]) {
        var t := Ppn(m[s1]);
        if Slot(t, ea, 0) == s {
          SlotInjective(t, Vpn(ea, 0), r, Vpn(va, 0));
        }
      }
    }
  }

  // ---- walk and mappages ----

  function Pages(size: int): int {
    size / TWO12
  }

  /** PA2PTE(pa) | perm | PTE_V, with perm among the ten flag bits. */
  function LeafPte(pa: int, perm: int): (u: Dword)
    requires 0 <= pa < TWO64 && 0 <= perm < 1024
  {
    (pa / TWO12) * 1024 + (if perm % 2 == 1 then perm else perm + 1)
  }

  /** ea lies, as a 39-bit address, in the n pages from va. */
  ghost predicate InPages(ea: int, va: int, n: int) {
    va <= ea % TWO39 < va + n * TWO12
  }

  /** The entry that mappages leaves for an address of the range. */
  ghost function MappedPte(ea: int, va: int, pa: int, perm: int): Dword
    requires 0 <= perm < 1024
  {
    LeafPte((pa + ((ea % TWO39 - va) / TWO12) * TWO12) % TWO64, perm)
  }

  /** The first n pages of the range are mapped and every other lookup is as it was in m0. */
  ghost predicate Mapped(m0: seq<Dword>, m: seq<Dword>, root: nat, va: int, n: int, pa: int, perm: int)
    requires 0 <= perm < 1024
  {
    forall ea: int :: ea >= 0 ==>
      Lookup(m, root, ea) == if InPages(ea, va, n) then MappedPte(ea, va, pa, perm) else Lookup(m0, root, ea)
  }

  ghost predicate SameLookups(m: seq<Dword>, m': seq<Dword>, root: nat) {
    forall ea: int :: ea >= 0 ==> Lookup(m', root, ea) == Lookup(m, root, ea)
  }

  lemma LinkAll(m: seq<Dword>, m': seq<Dword>, own: Owner, root: nat, p: nat, k: nat, next: nat)
    requires Tree(m, own, root) && p in own && k < 512 && !own[p].Low?
    requires next !in own && (next + 1) * 512 <= |m| && Linked(m, m', p * 512 + k, next)
    requires !V(m[p * 512 + k])
    ensures Tree(m', own[next := Child(own[p], k)], root)
    ensures SameLookups(m, m', root)
  {
    hide Tree, Linked, Lookup, V;
    LinkTree(m, m', own, root, p, k, next);
    forall ea: int | ea >= 0
      ensures Lookup(m', root, ea) == Lookup(m, root, ea)
    {
      LinkLookup(m, m', own, root, p, k, next, ea);
    }
  }

  lemma PoolShrinks(free: seq<nat>, own: Owner, words: nat, node: Node)
    requires PoolOk(free, own, words) && free != []
    ensures PoolOk(free[1..], own[free[0] := node], words)
  {
  }

  /** The table reached so far on the way to va. */
  ghost predicate OnPath(m: seq<Dword>, own: Owner, root: nat, va: int, page: nat, level: nat)
    requires va >= 0 && level <= 2
  {
    && page in own
    && (level == 2 ==> page == root && own[page] == Root)
    && (level == 1 ==> own[page] == Mid(Vpn(va, 2)) && Slot(root, va, 2) < |m| && V(m[Slot(root, va, 2)])
                       && Ppn(m[Slot(root, va, 2)]) == page)
    && (level == 0 ==> own[page].Low? && LowTable(m, root, va) == page)
  }

  lemma DownOne(m: seq<Dword>, own: Owner, root: nat, va: int, page: nat, level: nat)
    requires va >= 0 && 1 <= level <= 2 && Tree(m, own, root) && OnPath(m, own, root, va, page, level)
    ensures var s := Slot(page, va, level);
            && s < |m|
            && (V(m[s]) ==> Ppn(m[s]) == m[s] / 1024 && OnPath(m, own, root, va, Ppn(m[s]), level - 1))
  {
    hide V, IsLeaf, Vpn, Ppn;
    Path(m, own, root, va);
    var s := Slot(page, va, level);
    if V(m[s]) {
      PointerPage(m[s]);
    }
  }

  lemma PointerPage(u: Dword)
    requires Pointer(u)
    ensures Ppn(u) == u / 1024
  {
    ModUnique(u / 1024, u / 1024, 0, TWO44);
  }

  lemma DownNew(m: seq<Dword>, m': seq<Dword>, own: Owner, root: nat, va: int, page: nat, level: nat, next: nat)
    requires va >= 0 && 1 <= level <= 2 && Tree(m, own, root) && OnPath(m, own, root, va, page, level)
    requires next !in own && (next + 1) * 512 <= |m| && Linked(m, m', page * 512 + Vpn(va, level), next)
    requires var own' := own[next := Child(own[page], Vpn(va, level))];
             Tree(m', own', root)
    ensures OnPath(m', own[next := Child(own[page], Vpn(va, level))], root, va, next, level - 1)
  {
    hide V, IsLeaf, Vpn, Ppn, TablePte, Pointer, EntryOk, Tree;
    TablePtePoints(next);
    TreeRoot(m, own, root);
    var own' := own[next := Child(own[page], Vpn(va, level))];
    if level == 1 {
      OtherPage(root, Vpn(va, 2), page, Vpn(va, 1));
      SamePlace(m, m', page, Vpn(va, 1), next, root, Vpn(va, 2));
      Path(m', own', root, va);
      PointerValid(m'[Slot(page, va, 1)]);
    } else {
      PointerValid(m'[Slot(page, va, 2)]);
    }
  }

  lemma PointerValid(u: Dword)
    ensures Pointer(u) ==> V(u)
  {
  }

  // ---- Which tables are missing ----

  /** The tables that the path to ea lacks: none, the last one, or both. */
  ghost function PathMissing(m: seq<Dword>, root: nat, ea: int): set<Node>
    requires ea >= 0
  {
    var mid, low := Mid(Vpn(ea, 2)), Low(Vpn(ea, 2), Vpn(ea, 1));
    var s2 := Slot(root, ea, 2);
    if s2 >= |m| || !V(m[s2]) then {mid, low}
    else
      var s1 := Slot(Ppn(m[s2]), ea, 1);
      if s1 >= |m| || !V(m[s1]) then {low} else {}
  }

  /** The tables that the paths to the first n pages from va lack. */
  ghost function RangeMissing(m: seq<Dword>, root: nat, va: int, n: nat): set<Node>
    requires va >= 0
  {
    if n == 0 then {} else RangeMissing(m, root, va, n - 1) + PathMissing(m, root, va + (n - 1) * TWO12)
  }

  /** From m0 to m the tables in `made`, and no others, have been linked. */
  ghost predicate Built(m0: seq<Dword>, m: seq<Dword>, root: nat, made: set<Node>) {
    forall ea: int :: ea >= 0 ==> PathMissing(m, root, ea) == PathMissing(m0, root, ea) - made
  }

  lemma BuiltNone(m: seq<Dword>, root: nat)
    ensures Built(m, m, root, {})
  {
    hide PathMissing;
  }

  lemma BuiltThen(m0: seq<Dword>, m: seq<Dword>, m': seq<Dword>, root: nat, made: set<Node>, more: set<Node>)
    requires Built(m0, m, root, made) && Built(m, m', root, more)
    ensures Built(m0, m', root, made + more)
  {
    hide PathMissing;
    forall ea: int | ea >= 0
      ensures PathMissing(m', root, ea) == PathMissing(m0, root, ea) - (made + more)
    {
      assert PathMissing(m, root, ea) == PathMissing(m0, root, ea) - made;
    }
  }

  lemma NothingMissing(m: seq<Dword>, own: Owner, root: nat, ea: int)
    requires ea >= 0 && Tree(m, own, root)
    ensures |PathMissing(m, root, ea)| <= 2
    ensures PathMissing(m, root, ea) == {} <==> LowTable(m, root, ea) >= 0
  {
  }

  lemma {:induction false} RangeBound(m: seq<Dword>, own: Owner, root: nat, va: int, n: nat)
    requires va >= 0 && Tree(m, own, root)
    ensures |RangeMissing(m, root, va, n)| <= 2 * n
  {
    hide Tree, PathMissing, LowTable;
    if n > 0 {
      RangeBound(m, own, root, va, n - 1);
      NothingMissing(m, own, root, va + (n - 1) * TWO12);
      UnionSize(RangeMissing(m, root, va, n - 1), PathMissing(m, root, va + (n - 1) * TWO12));
    }
  }

  lemma UnionSize(a: set<Node>, b: set<Node>)
    ensures |a + b| == |a| + |b - a| && |a + b| <= |a| + |b|
  {
    assert a + b == a + (b - a);
    SubsetSize(b - a, b);
  }

  lemma {:induction false} SubsetSize(a: set<Node>, b: set<Node>)
    requires a <= b
    ensures |a| <= |b|
  {
    assert b == a + (b - a);
  }

  lemma {:induction false} RangeGrows(m: seq<Dword>, root: nat, va: int, n: nat, n': nat)
    requires va >= 0 && n <= n'
    ensures RangeMissing(m, root, va, n) <= RangeMissing(m, root, va, n')
    decreases n'
  {
    hide PathMissing;
    if n < n' {
      RangeGrows(m, root, va, n, n' - 1);
    }
  }

  /** Linking a fresh table on the way to va supplies exactly the one it is. */
  lemma LinkBuilt(m: seq<Dword>, m': seq<Dword>, own: Owner, root: nat, va: int, p: nat, level: nat, next: nat, ea: int)
    requires va >= 0 && ea >= 0 && 1 <= level <= 2 && Tree(m, own, root) && OnPath(m, own, root, va, p, level)
    requires !own[p].Low? && !V(m[Slot(p, va, level)])
    requires next !in own && (next + 1) * 512 <= |m| && Linked(m, m', Slot(p, va, level), next)
    ensures PathMissing(m', root, ea) == PathMissing(m, root, ea) - {Child(own[p], Vpn(va, level))}
  {
    hide V, IsLeaf, Ppn, TablePte, Pointer, Vpn, Tree, EntryOk;
    var k := Vpn(va, level);
    TablePtePoints(next);
    Path(m, own, root, ea);
    TreeRoot(m, own, root);
    var s2 := Slot(root, ea, 2);
    SamePlace(m, m', p, k, next, root, Vpn(ea, 2));
    PointerValid(TablePte(next));
    if V(m[s2]) {
      var q := Ppn(m[s2]);
      SamePlace(m, m', p, k, next, q, Vpn(ea, 1));
    } else if s2 == p * 512 + k {
      EmptyPage(m, m', p, k, next, Vpn(ea, 1));
    }
  }

  /** Storing a last-level entry supplies none. */
  lemma StoreBuilt(m: seq<Dword>, own: Owner, root: nat, p: nat, k: nat, u: Dword)
    requires Tree(m, own, root) && p in own && own[p].Low? && k < 512
    ensures p * 512 + k < |m| && Built(m, m[p * 512 + k := u], root, {})
  {
    hide V, IsLeaf, Ppn, Pointer, Vpn, Tree, EntryOk;
    TreeRoot(m, own, root);
    var m' := m[p * 512 + k := u];
    forall ea: int | ea >= 0
      ensures PathMissing(m', root, ea) == PathMissing(m, root, ea) - {}
    {
      Path(m, own, root, ea);
      OtherPage(root, Vpn(ea, 2), p, k);
      if V(m[Slot(root, ea, 2)]) {
        OtherPage(Ppn(m[Slot(root, ea, 2)]), Vpn(ea, 1), p, k);
      }
    }
  }

  lemma ChildMissing(m: seq<Dword>, own: Owner, root: nat, va: int, page: nat, level: nat)
    requires va >= 0 && 1 <= level <= 2 && Tree(m, own, root) && OnPath(m, own, root, va, page, level)
    requires !own[page].Low? && Slot(page, va, level) < |m| && !V(m[Slot(page, va, level)])
    ensures Child(own[page], Vpn(va, level)) in PathMissing(m, root, va)
  {
    hide V, Ppn, Vpn, Tree;
  }

  /** One more table made of those that a path lacked. */
  lemma MadeOne(miss: set<Node>, made: set<Node>, child: Node)
    requires made <= miss && child in miss - made
    ensures made + {child} <= miss && |made + {child}| == |made| + 1 <= |miss|
  {
    SubsetSize(made + {child}, miss);
  }

  /** Only pages of tables differ, and every table is an old one or a page of the pool. */
  ghost predicate Framed(m0: seq<Dword>, m: seq<Dword>, own0: Owner, own: Owner, pool: seq<nat>) {
    && |m| == |m0|
    && (forall p :: p in own0 ==> p in own)
    && (forall p :: p in own ==> p in own0 || p in pool)
    && (forall k :: 0 <= k < |m| && k / 512 !in own ==> m[k] == m0[k])
  }

  lemma FramedStart(m: seq<Dword>, own: Owner, pool: seq<nat>)
    ensures Framed(m, m, own, own, pool)
  {
  }

  lemma FramedLink(m0: seq<Dword>, m: seq<Dword>, m': seq<Dword>, own0: Owner, own: Owner, pool: seq<nat>,
                   p: nat, k: nat, next: nat, node: Node)
    requires Framed(m0, m, own0, own, pool) && p in own && k < 512 && Linked(m, m', p * 512 + k, next) && next in pool
    ensures Framed(m0, m', own0, own[next := node], pool)
  {
    hide TablePte;
    forall j | 0 <= j < |m'| && j / 512 !in own[next := node]
      ensures m'[j] == m0[j]
    {
      OtherPage(p, k, j / 512, j % 512);
      OtherPage(j / 512, j % 512, next, 0);
    }
  }

  lemma FramedStore(m0: seq<Dword>, m: seq<Dword>, own0: Owner, own: Owner, pool: seq<nat>, p: nat, k: nat, u: Dword)
    requires Framed(m0, m, own0, own, pool) && p in own && k < 512 && p * 512 + k < |m|
    ensures Framed(m0, m[p * 512 + k := u], own0, own, pool)
  {
    forall j | 0 <= j < |m| && j / 512 !in own
      ensures m[p * 512 + k := u][j] == m0[j]
    {
      OtherPage(p, k, j / 512, j % 512);
    }
  }

  lemma FramedThen(m0: seq<Dword>, m: seq<Dword>, m': seq<Dword>, own0: Owner, own: Owner, own': Owner,
                   pool: seq<nat>, rest: seq<nat>)
    requires Framed(m0, m, own0, own, pool) && Framed(m, m', own, own', rest)
    requires forall p :: p in rest ==> p in pool
    ensures Framed(m0, m', own0, own', pool)
  {
  }

  /** The memory of the program and what its allocator has left to give. */
  class Machine {
    const mem: array<Dword>
    var free: seq<nat>

    constructor (mem: array<Dword>, free: seq<nat>)
      ensures this.mem == mem && this.free == free
    {
      this.mem, this.free := mem, free;
    }

    /** malloc and memset of one page, and the store of the pointer to it. */
    method NewTable(slot: nat) returns (page: nat)
      requires slot < mem.Length && free != [] && free[0] < TWO44 && (free[0] + 1) * 512 <= mem.Length
      requires !(free[0] * 512 <= slot < free[0] * 512 + 512)
      modifies mem, this`free
      ensures page == old(free)[0] && free == old(free)[1..]
      ensures Linked(old(mem[..]), mem[..], slot, page)
    {
      hide TablePte;
      page := free[0];
      free := free[1..];
      forall k | 0 <= k < 512 {
        mem[page * 512 + k] := 0;
      }
      mem[slot] := TablePte(page);
    }

    /** walk: the slot of the last-level entry for va, all missing tables made on the way; or -1, exactly when more are
        missing than can be made. */
    method Walk(root: nat, va: int, alloc: bool, ghost own0: Owner) returns (slot: int, ghost own: Owner)
      requires 0 <= va < TWO64
      requires Tree(mem[..], own0, root) && PoolOk(free, own0, mem.Length)
      modifies mem, this`free
      ensures Tree(mem[..], own, root) && PoolOk(free, own, mem.Length)
      ensures Framed(old(mem[..]), mem[..], own0, own, old(free))
      ensures SameLookups(old(mem[..]), mem[..], root)
      ensures slot == -1 || (LowTable(mem[..], root, va) >= 0 && slot == Slot(LowTable(mem[..], root, va), va, 0))
      ensures slot == -1 <==> |PathMissing(old(mem[..]), root, va)| > if alloc then |old(free)| else 0
      ensures slot == -1 ==> LowTable(mem[..], root, va) < 0 && (alloc ==> free == [])
      ensures slot != -1 ==>
                var miss := PathMissing(old(mem[..]), root, va);
                |miss| <= |old(free)| && free == old(free)[|miss|..] && Built(old(mem[..]), mem[..], root, miss)
      ensures !alloc ==> mem[..] == old(mem[..]) && free == old(free)
    {
      hide Tree, PoolOk, SameLookups, Linked, V, Ppn, OnPath, Vpn, LowTable, Child, PathMissing, Built, Framed;
      own := own0;
      ghost var m0, pool0 := mem[..], free;
      ghost var miss, made: set<Node> := PathMissing(m0, root, va), {};
      var pagetable: nat := root;
      StartPath(mem[..], own, root, va);
      SameRefl(mem[..], root);
      BuiltNone(mem[..], root);
      FramedStart(mem[..], own, free);
      var level: nat := 2;
      while level > 0
        invariant level <= 2
        invariant Tree(mem[..], own, root) && PoolOk(free, own, mem.Length)
        invariant Framed(m0, mem[..], own0, own, pool0)
        invariant SameLookups(m0, mem[..], root)
        invariant OnPath(mem[..], own, root, va, pagetable, level)
        invariant made <= miss && Built(m0, mem[..], root, made)
        invariant |made| <= |pool0| && free == pool0[|made|..]
        invariant !alloc ==> mem[..] == m0 && made == {}
      {
        DownOne(mem[..], own, root, va, pagetable, level);
        var pte := Slot(pagetable, va, level);
        if V(mem[pte]) {
          pagetable := mem[pte] / 1024;
        } else {
          ghost var m, k, pool := mem[..], Vpn(va, level), free;
          NodeOnPath(m, own, root, va, pagetable, level);
          ghost var node := own[pagetable];
          StillMissing(m0, m, own, root, va, pagetable, level, made);
          MadeOne(miss, made, Child(node, k));
          if !alloc || free == [] {
            return -1, own;
          }
          PoolFirst(free, own, mem.Length, pagetable, k);
          var page := NewTable(pte);
          LinkAll(m, mem[..], own, root, pagetable, k, page);
          LinkMakes(m0, m, mem[..], own, root, va, pagetable, level, page, made);
          DownNew(m, mem[..], own, root, va, pagetable, level, page);
          PoolShrinks(pool, own, mem.Length, Child(node, k));
          SameTrans(m0, m, mem[..], root);
          FramedLink(m0, m, mem[..], own0, own, pool0, pagetable, k, page, Child(node, k));
          made := made + {Child(node, k)};
          own := own[page := Child(node, k)];
          pagetable := page;
        }
        level := level - 1;
      }
      EndPath(mem[..], own, root, va, pagetable);
      AllMade(m0, mem[..], own, root, va, made);
      slot := Slot(pagetable, va, 0);
    }

    /** mappages: 0, or -1 when walk could not make a table; the first `n` pages are mapped either way, and n is as far
        as the free pages go. */
    method MapPages(root: nat, va: int, size: int, pa0: int, perm: int, ghost own0: Owner)
        returns (r: int, ghost own: Owner, ghost n: int)
      requires 0 <= va && va % TWO12 == 0 && size % TWO12 == 0 && size > 0 && va + size <= TWO39
      requires 0 <= pa0 < TWO64 && 0 <= perm < 1024
      requires Tree(mem[..], own0, root) && PoolOk(free, own0, mem.Length)
      modifies mem, this`free
      ensures Tree(mem[..], own, root) && PoolOk(free, own, mem.Length)
      ensures Framed(old(mem[..]), mem[..], own0, own, old(free))
      ensures Mapped(old(mem[..]), mem[..], root, va, n, pa0, perm)
      ensures (r == 0 && n == Pages(size)) || (r == -1 && 0 <= n < Pages(size))
      ensures r == 0 <==> |RangeMissing(old(mem[..]), root, va, Pages(size))| <= |old(free)|
      ensures |RangeMissing(old(mem[..]), root, va, n)| <= |old(free)|
      ensures r == -1 ==> |RangeMissing(old(mem[..]), root, va, n + 1)| > |old(free)|
      ensures r == 0 ==> free == old(free)[|RangeMissing(old(mem[..]), root, va, n)|..]
      ensures r == -1 ==> free == [] && LowTable(mem[..], root, va + n * TWO12) < 0
      ensures |old(free)| >= 2 * Pages(size) ==> r == 0
    {
      hide Tree, PoolOk, Mapped, SameLookups, LowTable, LeafPte, PathMissing, Built, RangeMissing, Framed;
      ghost var m0, pool0 := mem[..], free;
      var a, last, pa := va, va + size - TWO12, pa0;
      own, n := own0, 0;
      NothingMapped(m0, root, va, pa0, perm);
      BuiltNone(m0, root);
      RangeNone(m0, root, va);
      FramedStart(m0, own, pool0);
      RangeBound(m0, own, root, va, Pages(size));
      while true
        invariant 0 <= n < Pages(size) && a == va + n * TWO12 && pa == (pa0 + n * TWO12) % TWO64
        invariant Tree(mem[..], own, root) && PoolOk(free, own, mem.Length)
        invariant Mapped(m0, mem[..], root, va, n, pa0, perm)
        invariant Built(m0, mem[..], root, RangeMissing(m0, root, va, n))
        invariant Framed(m0, mem[..], own0, own, pool0)
        invariant |RangeMissing(m0, root, va, n)| <= |pool0| && free == pool0[|RangeMissing(m0, root, va, n)|..]
        decreases last - a
      {
        ghost var m, own1, rest := mem[..], own, free;
        NextMissing(m0, m, root, va, n);
        RangeGrows(m0, root, va, n + 1, Pages(size));
        SubsetSize(RangeMissing(m0, root, va, n + 1), RangeMissing(m0, root, va, Pages(size)));
        var pte;
        pte, own := Walk(root, a, true, own);
        FramedThen(m0, m, mem[..], own0, own1, own, pool0, rest);
        MappedThen(m0, m, mem[..], root, va, n, pa0, perm);
        if pte == -1 {
          return -1, own, n;
        }
        StoreMaps(m0, mem[..], own, root, va, n, pa0, perm);
        StoreMakes(m0, m, mem[..], own, root, va, n, LeafPte(pa, perm));
        LowPage(mem[..], own, root, a);
        FramedStore(m0, mem[..], own0, own, pool0, LowTable(mem[..], root, a), Vpn(a, 0), LeafPte(pa, perm));
        mem[pte] := LeafPte(pa, perm);
        n := n + 1;
        if a == last {
          break;
        }
        a := a + TWO12;
        pa := (pa + TWO12) % TWO64;
      }
      r := 0;
    }
  }

  lemma StillMissing(m0: seq<Dword>, m: seq<Dword>, own: Owner, root: nat, va: int, page: nat, level: nat,
                     made: set<Node>)
    requires va >= 0 && 1 <= level <= 2 && Tree(m, own, root) && OnPath(m, own, root, va, page, level)
    requires !own[page].Low? && Slot(page, va, level) < |m| && !V(m[Slot(page, va, level)])
    requires Built(m0, m, root, made)
    ensures Child(own[page], Vpn(va, level)) in PathMissing(m0, root, va) - made
    ensures LowTable(m, root, va) < 0
  {
    hide Tree, OnPath, V, Vpn, PathMissing, LowTable, Child;
    ChildMissing(m, own, root, va, page, level);
    NothingMissing(m, own, root, va);
  }

  lemma LinkMakes(m0: seq<Dword>, m: seq<Dword>, m': seq<Dword>, own: Owner, root: nat, va: int, p: nat, level: nat,
                  next: nat, made: set<Node>)
    requires va >= 0 && 1 <= level <= 2 && Tree(m, own, root) && OnPath(m, own, root, va, p, level)
    requires !own[p].Low? && Slot(p, va, level) < |m| && !V(m[Slot(p, va, level)])
    requires next !in own && (next + 1) * 512 <= |m| && Linked(m, m', Slot(p, va, level), next)
    requires Built(m0, m, root, made)
    ensures Built(m0, m', root, made + {Child(own[p], Vpn(va, level))})
  {
    hide Tree, OnPath, V, Vpn, PathMissing, Linked, Child;
    NodeOnPath(m, own, root, va, p, level);
    var child := {Child(own[p], Vpn(va, level))};
    forall ea: int | ea >= 0
      ensures PathMissing(m', root, ea) == PathMissing(m, root, ea) - child
    {
      LinkBuilt(m, m', own, root, va, p, level, next, ea);
    }
    BuiltThen(m0, m, m', root, made, child);
  }

  /** A path that lacks nothing any more has had all its missing tables made. */
  lemma AllMade(m0: seq<Dword>, m: seq<Dword>, own: Owner, root: nat, va: int, made: set<Node>)
    requires va >= 0 && Tree(m, own, root) && LowTable(m, root, va) >= 0
    requires Built(m0, m, root, made) && made <= PathMissing(m0, root, va)
    ensures made == PathMissing(m0, root, va)
  {
    hide Tree, PathMissing, LowTable;
    NothingMissing(m, own, root, va);
    assert PathMissing(m0, root, va) - made == {};
  }

  lemma RangeNone(m: seq<Dword>, root: nat, va: int)
    requires va >= 0
    ensures RangeMissing(m, root, va, 0) == {}
  {
  }

  /** What the next page of a range lacks comes on top of what the pages before it lacked. */
  lemma NextMissing(m0: seq<Dword>, m: seq<Dword>, root: nat, va: int, n: nat)
    requires va >= 0 && Built(m0, m, root, RangeMissing(m0, root, va, n))
    ensures var more := PathMissing(m, root, va + n * TWO12);
            && RangeMissing(m0, root, va, n + 1) == RangeMissing(m0, root, va, n) + more
            && |RangeMissing(m0, root, va, n + 1)| == |RangeMissing(m0, root, va, n)| + |more|
  {
    hide PathMissing;
    var before, path := RangeMissing(m0, root, va, n), PathMissing(m0, root, va + n * TWO12);
    assert PathMissing(m, root, va + n * TWO12) == path - before;
    UnionSize(before, path);
    assert before + path == before + (path - before);
  }

  lemma StoreMakes(m0: seq<Dword>, m: seq<Dword>, m': seq<Dword>, own: Owner, root: nat, va: int, n: nat, u: Dword)
    requires va >= 0 && Tree(m', own, root) && LowTable(m', root, va + n * TWO12) >= 0
    requires Built(m0, m, root, RangeMissing(m0, root, va, n))
    requires Built(m, m', root, PathMissing(m, root, va + n * TWO12))
    ensures var s := Slot(LowTable(m', root, va + n * TWO12), va + n * TWO12, 0);
            s < |m'| && Built(m0, m'[s := u], root, RangeMissing(m0, root, va, n + 1))
  {
    hide Tree, PathMissing, LowTable, Built, RangeMissing, Vpn;
    var a := va + n * TWO12;
    var p := LowTable(m', root, a);
    LowPage(m', own, root, a);
    StoreBuilt(m', own, root, p, Vpn(a, 0), u);
    NextMissing(m0, m, root, va, n);
    BuiltThen(m0, m, m', root, RangeMissing(m0, root, va, n), PathMissing(m, root, a));
    var made := RangeMissing(m0, root, va, n + 1);
    BuiltThen(m0, m', m'[Slot(p, a, 0) := u], root, made, {});
    assert made + {} == made;
  }

  lemma NothingMapped(m: seq<Dword>, root: nat, va: int, pa: int, perm: int)
    requires 0 <= perm < 1024
    ensures Mapped(m, m, root, va, 0, pa, perm)
  {
  }

  lemma MappedThen(m0: seq<Dword>, m: seq<Dword>, m': seq<Dword>, root: nat, va: int, n: int, pa: int, perm: int)
    requires 0 <= perm < 1024 && Mapped(m0, m, root, va, n, pa, perm) && SameLookups(m, m', root)
    ensures Mapped(m0, m', root, va, n, pa, perm)
  {
    hide Lookup, InPages, MappedPte;
  }

  /** Storing the entry of page n extends the range by exactly that page. */
  lemma StoreMaps(m0: seq<Dword>, m: seq<Dword>, own: Owner, root: nat, va: int, n: int, pa: int, perm: int)
    requires 0 <= perm < 1024 && 0 <= va && va % TWO12 == 0 && n >= 0 && va + n * TWO12 < TWO39
    requires Tree(m, own, root) && LowTable(m, root, va + n * TWO12) >= 0
    requires Mapped(m0, m, root, va, n, pa, perm)
    ensures var s := Slot(LowTable(m, root, va + n * TWO12), va + n * TWO12, 0);
            && s < |m|
            && Tree(m[s := LeafPte((pa + n * TWO12) % TWO64, perm)], own, root)
            && Mapped(m0, m[s := LeafPte((pa + n * TWO12) % TWO64, perm)], root, va, n + 1, pa, perm)
  {
    hide Tree, Lookup, LowTable, LeafPte, SameIndices, Vpn;
    var a, u := va + n * TWO12, LeafPte((pa + n * TWO12) % TWO64, perm);
    LowPage(m, own, root, a);
    StoreTree(m, own, root, LowTable(m, root, a), Vpn(a, 0), u);
    var m' := m[Slot(LowTable(m, root, a), a, 0) := u];
    forall ea: int | ea >= 0
      ensures Lookup(m', root, ea)
           == if InPages(ea, va, n + 1) then MappedPte(ea, va, pa, perm) else Lookup(m0, root, ea)
    {
      StoreLookup(m, own, root, a, u, ea);
      PageOfRange(va, n, ea);
    }
  }

  lemma LowPage(m: seq<Dword>, own: Owner, root: nat, ea: int)
    requires ea >= 0 && Tree(m, own, root) && LowTable(m, root, ea) >= 0
    ensures LowTable(m, root, ea) in own && own[LowTable(m, root, ea)].Low?
  {
    hide V, IsLeaf, Vpn, Ppn;
    Path(m, own, root, ea);
  }

  /** The three indices of an address are the digits of its page number below 2^27. */
  lemma Indices(x: int)
    requires x >= 0
    ensures (x % TWO39) / TWO12 == (Vpn(x, 2) * 512 + Vpn(x, 1)) * 512 + Vpn(x, 0)
  {
    var t := x / TWO12;
    var a, b, c := t % 512, (t / 512) % 512, (t / 512 / 512) % 512;
    ModUnique(t % 512 * TWO12 + x % TWO12, x, t / 512, 0x20_0000);
    ModUnique((t / 512) % 512 * 0x20_0000 + x % 0x20_0000, x, t / 512 / 512, 0x4000_0000);
    ModUnique(((c * 512 + b) * 512 + a) * TWO12 + x % TWO12, x, t / 512 / 512 / 512, TWO39);
    ModUnique(x % TWO12, ((c * 512 + b) * 512 + a) * TWO12 + x % TWO12, (c * 512 + b) * 512 + a, TWO12);
  }

  lemma DigitsUnique(a: nat, b: nat, c: nat, a': nat, b': nat, c': nat)
    requires a < 512 && b < 512 && c < 512 && a' < 512 && b' < 512 && c' < 512
    ensures (c * 512 + b) * 512 + a == (c' * 512 + b') * 512 + a' <==> a == a' && b == b' && c == c'
  {
  }

  lemma PageOfRange(va: int, n: int, ea: int)
    requires 0 <= va && va % TWO12 == 0 && n >= 0 && va + n * TWO12 < TWO39 && ea >= 0
    ensures SameIndices(va + n * TWO12, ea) <==> InPages(ea, va, n + 1) && !InPages(ea, va, n)
    ensures SameIndices(va + n * TWO12, ea) ==> (ea % TWO39 - va) / TWO12 == n
    ensures InPages(ea, va, n) ==> InPages(ea, va, n + 1)
  {
    hide Vpn;
    var a := va + n * TWO12;
    Indices(a);
    Indices(ea);
    DigitsUnique(Vpn(a, 0), Vpn(a, 1), Vpn(a, 2), Vpn(ea, 0), Vpn(ea, 1), Vpn(ea, 2));
    ModUnique(a, a, 0, TWO39);
  }

  lemma PoolFirst(free: seq<nat>, own: Owner, words: nat, page: nat, k: nat)
    requires PoolOk(free, own, words) && free != [] && page in own && k < 512
    ensures free[0] < TWO44 && (free[0] + 1) * 512 <= words && free[0] !in own
    ensures !(free[0] * 512 <= page * 512 + k < free[0] * 512 + 512)
  {
    OtherPage(page, k, free[0], 0);
  }

  lemma NodeOnPath(m: seq<Dword>, own: Owner, root: nat, va: int, page: nat, level: nat)
    requires va >= 0 && 1 <= level <= 2 && OnPath(m, own, root, va, page, level)
    ensures page in own && !own[page].Low?
  {
  }

  lemma SameTrans(m: seq<Dword>, m': seq<Dword>, m'': seq<Dword>, root: nat)
    requires SameLookups(m, m', root) && SameLookups(m', m'', root)
    ensures SameLookups(m, m'', root)
  {
    hide Lookup;
  }

  lemma EndPath(m: seq<Dword>, own: Owner, root: nat, va: int, page: nat)
    requires va >= 0 && OnPath(m, own, root, va, page, 0)
    ensures LowTable(m, root, va) == page
  {
  }

  lemma StartPath(m: seq<Dword>, own: Owner, root: nat, va: int)
    requires va >= 0 && Tree(m, own, root)
    ensures OnPath(m, own, root, va, root, 2)
  {
  }

  lemma SameRefl(m: seq<Dword>, root: nat)
    ensures SameLookups(m, m, root)
  {
  }

  // ---- What mappages means to the walker ----

  /** The flag bits of the entries that mappages writes. */
  function Flags(perm: int): Dword
    requires 0 <= perm < 1024
  {
    if perm % 2 == 1 then perm else perm + 1
  }

  lemma LeafFlag(h: nat, f: Dword, c: int, k: int)
    requires c > 0 && k >= 0 && c * (2 * k) == 1024 && f < 1024 && 1024 * h + f < TWO64
    ensures ((1024 * h + f) / c) % 2 == (f / c) % 2
  {
    DivUnits(h, f, c, 2 * k);
    assert (2 * k) * h == 2 * (k * h);
    EvenUnits(k * h, f / c);
  }

  lemma LeafFields(pa: int, perm: int)
    requires 0 <= pa < TWO56 && 0 <= perm < 1024
    ensures var u, f := LeafPte(pa, perm), Flags(perm);
            && V(u) && !N(u) && Ppn(u) == pa / TWO12
            && R(u) == R(f) && W(u) == W(f) && X(u) == X(f) && U(u) == U(f)
  {
    var h, f := pa / TWO12, Flags(perm);
    LeafFlag(h, f, 1, 512);
    LeafFlag(h, f, 2, 256);
    LeafFlag(h, f, 4, 128);
    LeafFlag(h, f, 8, 64);
    LeafFlag(h, f, 16, 32);
    ModUnique(f, 1024 * h + f, h, 1024);
    ModUnique(h, h, 0, TWO44);
  }

  /** The entry that is stored: the page number above the ten flag bits, which are those of perm with bit 0 set. */
  lemma LeafWord(pa: int, perm: int)
    requires 0 <= pa < TWO56 && 0 <= perm < 1024
    ensures var u := LeafPte(pa, perm); u / 1024 == pa / TWO12 && u % 2 == 1 && (u % 1024) / 2 == perm / 2
  {
    var f := Flags(perm);
    ModUnique(f, 1024 * (pa / TWO12) + f, pa / TWO12, 1024);
    LeafFlag(pa / TWO12, f, 1, 512);
  }

  lemma PageArithmetic(pa: int, va: int, x: int)
    requires 0 <= pa && 0 <= va && va % TWO12 == 0 && va <= x
    ensures var j := (x - va) / TWO12;
            && ((pa + j * TWO12) / TWO12) * TWO12 + x % TWO12 == (pa - pa % TWO12) + (x - va)
            && j * TWO12 <= x - va
  {
    var j := (x - va) / TWO12;
    ModUnique(pa % TWO12, pa + j * TWO12, pa / TWO12 + j, TWO12);
    ModUnique(x % TWO12, x - va, x / TWO12 - va / TWO12, TWO12);
  }

  lemma LowBits(ea: int)
    requires ea >= 0
    ensures (ea % TWO39) % TWO12 == ea % TWO12
  {
    ModUnique(ea % TWO12, ea % TWO39, ea / TWO12 - (ea / TWO39) * (TWO39 / TWO12), TWO12);
  }

  /** The entry's type and user bits are the bits of perm. */
  lemma FlagBits(perm: int)
    requires 0 <= perm < 1024
    ensures var f := Flags(perm);
            && R(f) == ((perm / 2) % 2 == 1) && W(f) == ((perm / 4) % 2 == 1)
            && X(f) == ((perm / 8) % 2 == 1) && U(f) == ((perm / 16) % 2 == 1)
            && (IsLeaf(f) <==> (perm / 2) % 8 != 0)
  {
    var f := Flags(perm);
    Doubled(perm / 2, f % 2);
    Doubled(perm / 2, perm % 2);
    TypeBits(f);
  }

  lemma Doubled(h: nat, b: nat)
    requires b < 2
    ensures var f := 2 * h + b; f / 2 == h && f / 4 == h / 2 && f / 8 == h / 4 && f / 16 == h / 8
  {
  }

  /** Every address of a mapped range translates to pa (its page) plus its offset in the range, exactly when the bits of
      perm allow the access: bit 3 for a fetch, bit 2 for a store, bit 1 for a load, never bit 2 without bit 1, bit 4
      for user mode and bit 4 clear for a fetch in another. With none of bits 1 to 3 the entry is no leaf, and the
      walker's assertion fails. */
  lemma MappedTranslates(m0: seq<Dword>, m: seq<Dword>, own: Owner, satp: Dword, priv: int, va: int, n: int, pa: int,
                         perm: int, x: Access)
    requires x.Valid() && Mode(satp) == 8 && (x.force || (priv != 3 && priv != 2)) && SamePage(x.ea, x.sz)
    requires 0 <= va && va % TWO12 == 0 && 0 <= pa && pa + n * TWO12 <= TWO56 && 0 <= perm < 1024
    requires Tree(m, own, RootPpn(satp)) && Mapped(m0, m, RootPpn(satp), va, n, pa, perm)
    requires InPages(x.ea, va, n)
    ensures IssResult(m, satp, priv, x)
         == if (perm / 2) % 8 == 0 then AssertFails
            else if && (x.fetch ==> (perm / 8) % 2 == 1)
                    && (x.store ==> (perm / 4) % 2 == 1)
                    && (!x.fetch && !x.store ==> (perm / 2) % 2 == 1)
                    && ((perm / 4) % 2 == 1 ==> (perm / 2) % 2 == 1)
                    && (priv == 0 ==> (perm / 16) % 2 == 1)
                    && (x.fetch && priv != 0 ==> (perm / 16) % 2 == 0)
            then Pa((pa - pa % TWO12) + (x.ea % TWO39 - va))
            else Fault(0)
  {
    hide Tree, R, W, X, U, V, N, IsLeaf, Ppn, LeafPte, Flags, Lookup, WalkFrom, PhysAddr;
    MappedOutcome(m0, m, own, satp, priv, va, n, pa, perm, x);
    FlagBits(perm);
  }

  lemma MappedOutcome(m0: seq<Dword>, m: seq<Dword>, own: Owner, satp: Dword, priv: int, va: int, n: int, pa: int,
                      perm: int, x: Access)
    requires x.Valid() && Mode(satp) == 8 && Paged(satp, priv, x) && SamePage(x.ea, x.sz)
    requires 0 <= va && va % TWO12 == 0 && 0 <= pa && pa + n * TWO12 <= TWO56 && 0 <= perm < 1024
    requires Tree(m, own, RootPpn(satp)) && Mapped(m0, m, RootPpn(satp), va, n, pa, perm)
    requires InPages(x.ea, va, n)
    ensures IssResult(m, satp, priv, x)
         == if !IsLeaf(Flags(perm)) then AssertFails
            else if Denied(Flags(perm), x.store, x.fetch, priv) then Fault(0)
            else Pa((pa - pa % TWO12) + (x.ea % TWO39 - va))
  {
    hide Tree, R, W, X, U, V, N, Ppn, LeafPte, Flags, Lookup, WalkFrom, PhysAddr;
    var y := x.ea % TWO39;
    var j := (y - va) / TWO12;
    PageArithmetic(pa, va, y);
    ModUnique(pa + j * TWO12, pa + j * TWO12, 0, TWO64);
    WalkIsLookup(m, own, RootPpn(satp), x.ea);
    LeafFields(pa + j * TWO12, perm);
    LowBits(x.ea);
    if IsLeaf(Flags(perm)) {
      PhysOfPage(LeafPte(pa + j * TWO12, perm), x.ea);
    }
  }

  lemma PhysOfPage(u: Dword, ea: int)
    requires ea >= 0 && !N(u)
    ensures PhysAddr(u, 0, ea) == Ppn(u) * TWO12 + ea % TWO12
  {
    hide Ppn, N;
    ModUnique(0, Ppn(u) * TWO12, Ppn(u), TWO12);
  }

  /** Every address outside the range translates after mappages exactly when it did before, and to the same place. */
  lemma OthersKeepTranslation(m0: seq<Dword>, own0: Owner, m: seq<Dword>, own: Owner, satp: Dword, priv: int, va: int,
                              n: int, pa: int, perm: int, x: Access)
    requires x.Valid() && 0 <= perm < 1024
    requires Tree(m0, own0, RootPpn(satp)) && Tree(m, own, RootPpn(satp))
    requires Mapped(m0, m, RootPpn(satp), va, n, pa, perm)
    requires !InPages(x.ea, va, n)
    ensures IssResult(m, satp, priv, x).Pa? <==> IssResult(m0, satp, priv, x).Pa?
    ensures IssResult(m, satp, priv, x).Pa? ==> IssResult(m, satp, priv, x) == IssResult(m0, satp, priv, x)
  {
    hide Tree, R, W, X, U, V, N, Ppn, LeafPte, Flags, Lookup, WalkFrom, PhysAddr, IsLeaf, InPages, MappedPte, Denied;
    assert Lookup(m, RootPpn(satp), x.ea) == Lookup(m0, RootPpn(satp), x.ea);
    WalkIsLookup(m, own, RootPpn(satp), x.ea);
    WalkIsLookup(m0, own0, RootPpn(satp), x.ea);
  }

  /** The zeroed page that main starts from is a tree, and maps nothing. */
  lemma EmptyRoot(m: seq<Dword>, root: nat, ea: int)
    requires ea >= 0 && (root + 1) * 512 <= |m|
    requires forall k :: root * 512 <= k < root * 512 + 512 ==> m[k] == 0
    ensures Tree(m, map[root := Root], root) && Lookup(m, root, ea) == 0
  {
    hide Vpn;
    assert m[Slot(root, ea, 2)] == 0;
  }
}
