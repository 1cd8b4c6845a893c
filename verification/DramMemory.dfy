/** What the requests of the co-simulation loop do to memory byte by byte, and what a load therefore answers in a
    run. */
module DramMemory {
  import opened DramQueue
  import opened Options

  // ---- Words and bytes ----

  /** Byte p of a line, the lowest byte of each word first. */
  function LineByte(d: Line, p: nat): bv8
    requires p < 16
  {
    var w := d[p / 4];
    if p % 4 == 0 then (w & 0xff) as bv8
    else if p % 4 == 1 then ((w >> 8) & 0xff) as bv8
    else if p % 4 == 2 then ((w >> 16) & 0xff) as bv8
    else (w >> 24) as bv8
  }

  /** Where byte p of the line at addr lies: each word wraps at 32 bits on its own. */
  function Place(addr: nat, p: nat): nat
    requires p < 16
  {
    (addr + 4 * (p / 4)) % 0x1_0000_0000 + p % 4
  }

  lemma PlaceAligned(addr: nat, p: nat)
    requires addr % 16 == 0 && addr < 0x1_0000_0000 && p < 16
    ensures Place(addr, p) == addr + p
  {
    var k := p / 4;
    assert addr + 4 * k < 0x1_0000_0000;
  }

  lemma JoinedBytes(a: bv8, b: bv8, c: bv8, d: bv8)
    ensures var w := (a as bv32) | (b as bv32 << 8) | (c as bv32 << 16) | (d as bv32 << 24);
            && (w & 0xff) as bv8 == a && ((w >> 8) & 0xff) as bv8 == b
            && ((w >> 16) & 0xff) as bv8 == c && ((w >> 24) & 0xff) as bv8 == d
  {
  }

  lemma TopByte(w: bv32)
    ensures ((w >> 24) & 0xff) as bv8 == (w >> 24) as bv8
  {
  }

  lemma StoredByte(d: Line, p: nat)
    requires p < 16
    ensures ByteOf(d[p / 4], p % 4) == LineByte(d, p)
  {
    TopByte(d[p / 4]);
  }

  function Joined(a: bv8, b: bv8, c: bv8, d: bv8): bv32 {
    (a as bv32) | (b as bv32 << 8) | (c as bv32 << 16) | (d as bv32 << 24)
  }

  lemma JoinedByte(a: bv8, b: bv8, c: bv8, d: bv8, k: nat)
    requires k < 4
    ensures ByteOf(Joined(a, b, c, d), k) == if k == 0 then a else if k == 1 then b else if k == 2 then c else d
  {
    JoinedBytes(a, b, c, d);
  }

  lemma WordByte(m: Memory, ea: nat, k: nat)
    requires k < 4
    ensures ByteOf(WordAt(m, ea), k) == m(ea + k)
  {
    hide ByteOf;
    assert WordAt(m, ea) == Joined(m(ea), m(ea + 1), m(ea + 2), m(ea + 3));
    JoinedByte(m(ea), m(ea + 1), m(ea + 2), m(ea + 3), k);
  }

  /** Byte p of the line read is the byte of memory at its place. */
  lemma LineRead(m: Memory, addr: nat, p: nat)
    requires p < 16
    ensures LineByte(LineAt(m, addr), p) == m(Place(addr, p))
  {
    hide WordAt, ByteOf, LineByte;
    WordByte(m, Ea(addr, p / 4), p % 4);
    StoredByte(LineAt(m, addr), p);
  }

  // ---- Writing a line ----

  lemma WordPlaces(addr: nat, i: nat, j: nat)
    requires i < 4 && j < 4 && i != j
    ensures Ea(addr, i) + 4 <= Ea(addr, j) || Ea(addr, j) + 4 <= Ea(addr, i)
  {
    var n := ADDRESSES;
    var x, y := addr + 4 * i, addr + 4 * j;
    assert x % n == x - n * (x / n) && y % n == y - n * (y / n);
  }

  /** Byte p of the first i words of a line written is where a reader of the line looks for it. */
  lemma {:induction false} WordsWritten(m: Memory, addr: nat, d: Line, i: nat, p: nat)
    requires i <= 4 && p < 4 * i
    ensures WithLine(m, addr, d, i)(Place(addr, p)) == LineByte(d, p)
  {
    hide ByteOf, Ea;
    assert Place(addr, p) == Ea(addr, p / 4) + p % 4 by {
      PlaceIs(addr, p);
    }
    if p / 4 == i - 1 {
      StoredByte(d, p);
    } else {
      WordPlaces(addr, i - 1, p / 4);
      WordsWritten(m, addr, d, i - 1, p);
    }
  }

  lemma PlaceIs(addr: nat, p: nat)
    requires p < 16
    ensures Place(addr, p) == Ea(addr, p / 4) + p % 4
  {
  }

  lemma {:induction false} WordsKept(m: Memory, addr: nat, d: Line, i: nat, q: nat)
    requires i <= 4
    requires forall p :: 0 <= p < 16 ==> Place(addr, p) != q
    ensures WithLine(m, addr, d, i)(q) == m(q)
  {
    hide ByteOf, Ea;
    if i > 0 {
      WordsKept(m, addr, d, i - 1, q);
      var ea := Ea(addr, i - 1);
      if ea <= q < ea + 4 {
        PlaceIs(addr, 4 * (i - 1) + q - ea);
      }
    }
  }

  /** Writing a line puts byte p of the data at its place and changes no other byte of memory. */
  lemma LineWritten(m: Memory, addr: nat, d: Line, p: nat, q: nat)
    requires p < 16
    ensures WithLine(m, addr, d, 4)(Place(addr, p)) == LineByte(d, p)
    ensures (forall k :: 0 <= k < 16 ==> Place(addr, k) != q) ==> WithLine(m, addr, d, 4)(q) == m(q)
  {
    hide Place, WithLine;
    WordsWritten(m, addr, d, 4, p);
    if forall k :: 0 <= k < 16 ==> Place(addr, k) != q {
      WordsKept(m, addr, d, 4, q);
    }
  }

  /** The same for a line that starts at a multiple of 16. */
  lemma AlignedLine(m: Memory, addr: nat, d: Line, p: nat, q: nat)
    requires addr % 16 == 0 && addr < 0x1_0000_0000 && p < 16
    ensures LineByte(LineAt(m, addr), p) == m(addr + p)
    ensures WithLine(m, addr, d, 4)(addr + p) == LineByte(d, p)
    ensures !(addr <= q < addr + 16) ==> WithLine(m, addr, d, 4)(q) == m(q)
  {
    hide LineByte, LineAt, WithLine, Place;
    LineRead(m, addr, p);
    LineWritten(m, addr, d, p, q);
    PlaceAligned(addr, p);
    if !(addr <= q < addr + 16) {
      forall k: nat | k < 16 ensures Place(addr, k) != q {
        PlaceAligned(addr, k);
      }
    }
  }

  lemma WordFromBytes(v: bv32, w: bv32)
    requires ByteOf(v, 0) == ByteOf(w, 0) && ByteOf(v, 1) == ByteOf(w, 1)
    requires ByteOf(v, 2) == ByteOf(w, 2) && ByteOf(v, 3) == ByteOf(w, 3)
    ensures v == w
  {
  }

  lemma LineByteOf(d: Line, i: nat, k: nat)
    requires i < 4 && k < 4
    ensures LineByte(d, 4 * i + k) == ByteOf(d[i], k)
  {
    hide LineByte, ByteOf;
    StoredByte(d, 4 * i + k);
  }

  /** The sixteen bytes determine the line. */
  lemma LineFromBytes(c: Line, d: Line)
    requires forall p :: 0 <= p < 16 ==> LineByte(c, p) == LineByte(d, p)
    ensures c == d
  {
    hide LineByte, ByteOf;
    forall i | 0 <= i < 4 ensures c[i] == d[i] {
      forall k: nat | k < 4 ensures ByteOf(c[i], k) == ByteOf(d[i], k) {
        LineByteOf(c, i, k);
        LineByteOf(d, i, k);
      }
      WordFromBytes(c[i], d[i]);
    }
  }

  // ---- The last store to a byte ----

  /** The requests so far leave at q what the last store that reaches q puts there, or what was there at first. */
  ghost predicate Leaves(m: Memory, rs: seq<Request>, q: nat, b: bv8) {
    || ((forall j :: 0 <= j < |rs| ==> !Reaches(rs[j], q)) && b == m(q))
    || exists j: nat, p: nat :: j < |rs| && p < 16 && LeftBy(rs, j, p, q, b)
  }

  ghost predicate Reaches(r: Request, q: nat) { r.isStore && exists p: nat :: p < 16 && Place(r.addr, p) == q }

  /** Request j is a store, byte p of its data is b and goes to q, and no later store reaches q. */
  ghost predicate LeftBy(rs: seq<Request>, j: nat, p: nat, q: nat, b: bv8)
    requires j < |rs| && p < 16
  {
    && rs[j].isStore && Place(rs[j].addr, p) == q && LineByte(rs[j].data, p) == b
    && forall k :: j < k < |rs| ==> !Reaches(rs[k], q)
  }

  /** Carrying out requests leaves every byte of memory as the last store that reaches it put it. */
  lemma {:induction false} ExecuteLeaves(m: Memory, rs: seq<Request>, q: nat)
    ensures Leaves(m, rs, q, Execute(m, rs).0(q))
  {
    hide WithLine, LineAt, Place, LineByte;
    if rs != [] {
      var n := |rs| - 1;
      var r, before := rs[n], Execute(m, rs[..n]).0;
      ExecuteLeaves(m, rs[..n], q);
      if Reaches(r, q) {
        var p: nat :| p < 16 && Place(r.addr, p) == q;
        LineWritten(before, r.addr, r.data, p, q);
        assert LeftBy(rs, n, p, q, Execute(m, rs).0(q));
      } else {
        if r.isStore {
          LineWritten(before, r.addr, r.data, 0, q);
        }
        LeavesMore(m, rs, q, before(q));
      }
    }
  }

  lemma LeavesMore(m: Memory, rs: seq<Request>, q: nat, b: bv8)
    requires rs != [] && Leaves(m, rs[..|rs| - 1], q, b) && !Reaches(rs[|rs| - 1], q)
    ensures Leaves(m, rs, q, b)
  {
    hide Place, LineByte, Reaches;
    var before := rs[..|rs| - 1];
    if j: nat, p: nat :| j < |before| && p < 16 && LeftBy(before, j, p, q, b) {
      assert LeftBy(rs, j, p, q, b);
    }
  }

  /** There is only one such byte. */
  lemma LeavesUnique(m: Memory, rs: seq<Request>, q: nat, a: bv8, b: bv8)
    requires Leaves(m, rs, q, a) && Leaves(m, rs, q, b)
    ensures a == b
  {
    hide Place, LineByte;
    if j: nat, p: nat :| j < |rs| && p < 16 && LeftBy(rs, j, p, q, a) {
      assert Reaches(rs[j], q);
      var k: nat, o: nat :| k < |rs| && o < 16 && LeftBy(rs, k, o, q, b);
      assert Reaches(rs[k], q);
      assert j == k;
      PlacesDiffer(rs[j].addr, p, o);
    }
  }

  lemma PlacesDiffer(addr: nat, p: nat, o: nat)
    requires p < 16 && o < 16 && Place(addr, p) == Place(addr, o)
    ensures p == o
  {
    hide Ea, Place;
    PlaceIs(addr, p);
    PlaceIs(addr, o);
    if p / 4 != o / 4 {
      WordPlaces(addr, p / 4, o / 4);
      assert false;
    }
  }

  // ---- What a load answers ----

  lemma {:induction false} ReplyAt(m: Memory, rs: seq<Request>, i: nat)
    requires i < |rs|
    ensures |Execute(m, rs).1| == |rs|
    ensures Execute(m, rs).1[i] == Answer(Execute(m, rs[..i]).0, rs[i]).1
  {
    hide Answer;
    var n := |rs| - 1;
    RepliesLength(m, rs[..n]);
    if i < n {
      ReplyAt(m, rs[..n], i);
      assert rs[..n][..i] == rs[..i];
    }
  }

  lemma {:induction false} RepliesLength(m: Memory, rs: seq<Request>)
    ensures |Execute(m, rs).1| == |rs|
  {
    hide Answer;
    if rs != [] {
      RepliesLength(m, rs[..|rs| - 1]);
    }
  }

  /** In every run: the reply to a request has its kind and tag, a load is aligned, and each byte it returns is what the
      last store accepted before it left there, or the initial memory. */
  lemma LoadsSeeStores(c: Config, cycle: nat, mem: Memory, ls: seq<Lines>, i: nat, p: nat)
    requires LatenciesIn(c, ls) && Run(c, cycle, mem, ls).Some?
    requires i < |Run(c, cycle, mem, ls).value.1.answered| && p < 16
    ensures var h := Run(c, cycle, mem, ls).value.1;
            && |h.answered| <= |h.accepted|
            && var a, req := h.answered[i], h.accepted[i].req;
            && a.reply.tag == req.tag
            && (a.reply.Store? <==> req.isStore)
            && (!req.isStore ==>
                  && req.addr % 16 == 0
                  && Leaves(mem, Accepteds(h.accepted)[..i], Place(req.addr, p), LineByte(a.reply.data, p)))
  {
    hide Leaves, LineByte, Place, Run, QueueOk, LineAt, WithLine;
    EveryRun(c, cycle, mem, ls);
    var (s, h) := Run(c, cycle, mem, ls).value;
    var rs := Requests(h.answered);
    assert Accepteds(h.accepted)[..i] == rs[..i];
    ReplyAt(mem, rs, i);
    var before := Execute(mem, rs[..i]).0;
    assert h.answered[i].reply == Replies(h.answered)[i] == Answer(before, rs[i]).1;
    LineRead(before, rs[i].addr, p);
    ExecuteLeaves(mem, rs[..i], Place(rs[i].addr, p));
  }

  /** In every run memory holds, byte by byte, what the last store answered put there. */
  lemma MemoryHolds(c: Config, cycle: nat, mem: Memory, ls: seq<Lines>, q: nat)
    requires LatenciesIn(c, ls) && Run(c, cycle, mem, ls).Some?
    ensures var (s, h) := Run(c, cycle, mem, ls).value;
            |h.answered| <= |h.accepted| && Leaves(mem, Accepteds(h.accepted)[..|h.answered|], q, s.mem(q))
  {
    hide Leaves, Run, Execute;
    RunsInOrder(c, cycle, mem, ls);
    var h := Run(c, cycle, mem, ls).value.1;
    ExecuteLeaves(mem, Accepteds(h.accepted)[..|h.answered|], q);
  }

  lemma SameLine(a: nat, o: nat, b: nat, p: nat)
    requires a % 16 == 0 && b % 16 == 0 && o < 16 && p < 16 && a + o == b + p
    ensures a == b
  {
  }

  lemma ReachesAligned(r: Request, addr: nat, p: nat)
    requires addr % 16 == 0 && p < 16
    requires r.isStore ==> r.addr % 16 == 0
    ensures Reaches(r, addr + p) <==> r.isStore && r.addr == addr
  {
    hide Place;
    if r.isStore {
      PlaceAligned(r.addr, p);
      if o: nat :| o < 16 && Place(r.addr, o) == addr + p {
        PlaceAligned(r.addr, o);
        SameLine(r.addr, o, addr, p);
      }
    }
  }

  /** A store to the line at addr. */
  predicate StoresTo(r: Request, addr: nat) { r.isStore && r.addr == addr }

  /** In every run whose stores are aligned: a load answers with the data of the last store to its line accepted before
      it, and with the initial memory when there is none. */
  lemma LoadsSeeLines(c: Config, cycle: nat, mem: Memory, ls: seq<Lines>, i: nat, j: nat)
    requires LatenciesIn(c, ls) && Run(c, cycle, mem, ls).Some?
    requires var h := Run(c, cycle, mem, ls).value.1;
             && i < |h.answered| <= |h.accepted| && !h.accepted[i].req.isStore
             && forall k :: 0 <= k < i ==> h.accepted[k].req.isStore ==> h.accepted[k].req.addr % 16 == 0
    ensures var h := Run(c, cycle, mem, ls).value.1; var addr, reply := h.accepted[i].req.addr, h.answered[i].reply;
            && reply.Load?
            && (j < i && StoresTo(h.accepted[j].req, addr)
                && (forall k :: j < k < i ==> !StoresTo(h.accepted[k].req, addr)) ==>
                  reply.data == h.accepted[j].req.data)
            && ((forall k :: 0 <= k < i ==> !StoresTo(h.accepted[k].req, addr)) ==>
                  forall p :: 0 <= p < 16 ==> LineByte(reply.data, p) == mem(addr + p))
  {
    hide Run, Leaves, Reaches, Place, LineByte;
    var h := Run(c, cycle, mem, ls).value.1;
    var addr, reply := h.accepted[i].req.addr, h.answered[i].reply;
    var rs := Accepteds(h.accepted)[..i];
    LoadsSeeStores(c, cycle, mem, ls, i, 0);
    forall p: nat | p < 16
      ensures Leaves(mem, rs, addr + p, LineByte(reply.data, p))
      ensures forall k :: 0 <= k < i ==> (Reaches(rs[k], addr + p) <==> StoresTo(h.accepted[k].req, addr))
    {
      LoadsSeeStores(c, cycle, mem, ls, i, p);
      PlaceAligned(addr, p);
      forall k | 0 <= k < i ensures Reaches(rs[k], addr + p) <==> StoresTo(h.accepted[k].req, addr) {
        ReachesAligned(rs[k], addr, p);
      }
    }
    if forall k :: 0 <= k < i ==> !StoresTo(h.accepted[k].req, addr) {
      forall p: nat | p < 16 ensures LineByte(reply.data, p) == mem(addr + p) {
        LeavesFirst(mem, rs, addr + p, LineByte(reply.data, p));
      }
    } else if j < i && StoresTo(h.accepted[j].req, addr)
              && forall k :: j < k < i ==> !StoresTo(h.accepted[k].req, addr)
    {
      forall p: nat | p < 16 ensures LineByte(reply.data, p) == LineByte(rs[j].data, p) {
        PlaceAligned(addr, p);
        LeavesStored(mem, rs, j, p, LineByte(reply.data, p));
      }
      LineFromBytes(reply.data, rs[j].data);
    }
  }

  lemma LeavesFirst(m: Memory, rs: seq<Request>, q: nat, b: bv8)
    requires Leaves(m, rs, q, b)
    requires forall k :: 0 <= k < |rs| ==> !Reaches(rs[k], q)
    ensures b == m(q)
  {
    hide Place, LineByte;
    hide LeftBy;
    forall j: nat, p: nat | j < |rs| && p < 16 ensures !LeftBy(rs, j, p, q, b) {
      LeftReaches(rs, j, p, q, b);
    }
  }

  lemma LeftReaches(rs: seq<Request>, j: nat, p: nat, q: nat, b: bv8)
    requires j < |rs| && p < 16
    ensures LeftBy(rs, j, p, q, b) ==> Reaches(rs[j], q)
  {
    hide Place, LineByte;
  }

  lemma LeavesStored(m: Memory, rs: seq<Request>, j: nat, p: nat, b: bv8)
    requires j < |rs| && p < 16 && rs[j].isStore
    requires Leaves(m, rs, Place(rs[j].addr, p), b)
    requires forall k :: j < k < |rs| ==> !Reaches(rs[k], Place(rs[j].addr, p))
    ensures b == LineByte(rs[j].data, p)
  {
    hide Place, LineByte, Reaches;
    var q := Place(rs[j].addr, p);
    assert LeftBy(rs, j, p, q, LineByte(rs[j].data, p));
    LeavesUnique(m, rs, q, b, LineByte(rs[j].data, p));
  }

  // ---- What is accepted ----

  function Max(a: int, b: int): int { if a < b then b else a }

  /** The i-th accepted request is that of the request lines of its cycle, which were valid, later than the one before,
      and with the latency drawn, or the cycle after the one before when that comes later. */
  predicate AcceptedFrom(cycle: nat, ls: seq<Lines>, xs: seq<Accepted>, i: nat)
    requires i < |xs|
  {
    var a, after := xs[i], if i == 0 then 0 else xs[i - 1].req.replyCycle + 1;
    && cycle <= a.at < cycle + |ls| && (i > 0 ==> xs[i - 1].at < a.at)
    && var l := ls[a.at - cycle];
       l.valid && a.req == Request(l.isStore, l.addr, l.tag, Max(a.at + l.lat, after), l.data)
  }

  lemma {:induction false} AcceptedAre(c: Config, cycle: nat, mem: Memory, ls: seq<Lines>)
    requires Run(c, cycle, mem, ls).Some?
    ensures var (s, h) := Run(c, cycle, mem, ls).value;
            && s.cycle == cycle + |ls|
            && s.lastRc == (if h.accepted == [] then -1 else h.accepted[|h.accepted| - 1].req.replyCycle)
            && forall i :: 0 <= i < |h.accepted| ==> AcceptedFrom(cycle, ls, h.accepted, i)
  {
    hide Answerable, Answer;
    if ls != [] {
      var n := |ls| - 1;
      AcceptedAre(c, cycle, mem, ls[..n]);
      var (s, h) := Run(c, cycle, mem, ls[..n]).value;
      var xs := Record(h, Tick(s, ls[n], c.mlp).value).accepted;
      forall i | 0 <= i < |xs| ensures AcceptedFrom(cycle, ls, xs, i) {
        if i < |h.accepted| {
          assert AcceptedFrom(cycle, ls[..n], h.accepted, i);
        } else if i > 0 {
          assert AcceptedFrom(cycle, ls[..n], h.accepted, i - 1);
        }
      }
    }
  }

  /** A turn fails exactly when the front, the request just accepted included, is due and is a load that is not aligned;
      otherwise the lines are granted exactly when they are valid and there is room. */
  lemma TurnOutcomes(s: State, l: Lines, mlp: nat)
    ensures var t := Tick(s, l, mlp); var accepts := l.valid && |s.queue| < mlp;
            var rc := Max(s.cycle + l.lat, s.lastRc + 1);
            && (t.None? <==>
                  if s.queue != [] then
                    s.queue[0].replyCycle == s.cycle && !s.queue[0].isStore && s.queue[0].addr % 16 != 0
                  else accepts && rc == s.cycle && !l.isStore && l.addr % 16 != 0)
            && (t.Some? ==> (t.value.granted.Some? <==> accepts))
  {
    hide Answer;
  }
}
