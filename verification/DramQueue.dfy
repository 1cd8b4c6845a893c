/** The DRAM of the co-simulation loop in top.cc: a queue of requests, each given a random latency on acceptance and a
    reply cycle that is clamped to come after the one before it. */
module DramQueue {
  import opened Options

  // ---- Memory ----

  type Memory = nat -> bv8

  const ADDRESSES: nat := 0x1_0000_0000

  function ByteOf(w: bv32, k: nat): bv8
    requires k < 4
  {
    if k == 0 then (w & 0xff) as bv8
    else if k == 1 then ((w >> 8) & 0xff) as bv8
    else if k == 2 then ((w >> 16) & 0xff) as bv8
    else ((w >> 24) & 0xff) as bv8
  }

  function WordAt(m: Memory, ea: nat): bv32 {
    (m(ea) as bv32) | (m(ea + 1) as bv32 << 8) | (m(ea + 2) as bv32 << 16) | (m(ea + 3) as bv32 << 24)
  }

  function WithWord(m: Memory, ea: nat, w: bv32): Memory {
    (p: nat) => if ea <= p < ea + 4 then ByteOf(w, p - ea) else m(p)
  }

  type Line = s: seq<bv32> | |s| == 4 witness [0, 0, 0, 0]

  /** The address of word i of a line, wrapping at 32 bits. */
  function Ea(addr: nat, i: nat): nat { (addr + 4 * i) % ADDRESSES }

  function LineAt(m: Memory, addr: nat): Line { seq(4, i requires 0 <= i < 4 => WordAt(m, Ea(addr, i))) }

  /** The first i words of a line written in order. */
  function WithLine(m: Memory, addr: nat, data: Line, i: nat): Memory
    requires i <= 4
  {
    if i == 0 then m else WithWord(WithLine(m, addr, data, i - 1), Ea(addr, i - 1), data[i - 1])
  }

  // ---- One turn of the loop ----

  /** Addresses and tags are 32 bits wide. */
  type Word = x: nat | x < 0x1_0000_0000

  datatype Request = Request(isStore: bool, addr: Word, tag: Word, replyCycle: int, data: Line)

  /** What answering a request puts on the response lines; a store returns no data. */
  datatype Reply = Load(tag: Word, data: Line) | Store(tag: Word)

  /** The request lines of one cycle, and the latency drawn for it. */
  datatype Lines = Lines(valid: bool, isStore: bool, addr: Word, tag: Word, data: Line, lat: int)

  datatype State = State(queue: seq<Request>, cycle: nat, lastRc: int, mem: Memory)

  /** A request with the cycle it was accepted in, and an answer with the cycle it was given in. */
  datatype Accepted = Accepted(req: Request, at: nat)
  datatype Answered = Answered(req: Request, reply: Reply, at: nat)

  datatype Turn = Turn(next: State, granted: Option<Accepted>, answered: Option<Answered>)

  /** The clamp that keeps reply cycles in request order. */
  function ReplyCycle(cycle: nat, lat: int, lastRc: int): int {
    if cycle + lat <= lastRc then lastRc + 1 else cycle + lat
  }

  predicate Accepts(s: State, l: Lines, mlp: nat) { l.valid && |s.queue| < mlp }

  function Accept(s: State, l: Lines): State {
    var rc := ReplyCycle(s.cycle, l.lat, s.lastRc);
    s.(queue := s.queue + [Request(l.isStore, l.addr, l.tag, rc, l.data)], lastRc := rc)
  }

  predicate Due(s: State) { s.queue != [] && s.queue[0].replyCycle == s.cycle }

  /** The load of a line that is not 16-byte aligned fails an assertion. */
  predicate Answerable(r: Request) { r.isStore || r.addr % 16 == 0 }

  function Answer(m: Memory, r: Request): (Memory, Reply) {
    if r.isStore then (WithLine(m, r.addr, r.data, 4), Store(r.tag)) else (m, Load(r.tag, LineAt(m, r.addr)))
  }

  /** Accept, then answer the front when it is due; None for the failed assertion. */
  function Tick(s: State, l: Lines, mlp: nat): Option<Turn> {
    var t := if Accepts(s, l, mlp) then Accept(s, l) else s;
    var granted := if Accepts(s, l, mlp) then Some(Accepted(t.queue[|s.queue|], s.cycle)) else None;
    if !Due(t) then Some(Turn(t.(cycle := t.cycle + 1), granted, None))
    else if !Answerable(t.queue[0]) then None
    else
      var (m, r) := Answer(t.mem, t.queue[0]);
      Some(Turn(t.(queue := t.queue[1..], mem := m, cycle := t.cycle + 1), granted,
                Some(Answered(t.queue[0], r, s.cycle))))
  }

  /** The loop's variables, updated in place. */
  class Dram {
    var queue: seq<Request>
    var cycle: nat
    var lastRc: int
    var mem: Memory
    const mlp: nat

    constructor (cycle: nat, mem: Memory, mlp: nat)
      ensures Value() == State([], cycle, -1, mem) && this.mlp == mlp
    {
      queue, this.cycle, lastRc, this.mem, this.mlp := [], cycle, -1, mem, mlp;
    }

    function Value(): State
      reads this
    {
      State(queue, cycle, lastRc, mem)
    }

    method ReadLine(addr: nat) returns (data: Line)
      ensures data == LineAt(mem, addr)
    {
      data := [0, 0, 0, 0];
      for i := 0 to 4
        invariant forall k :: 0 <= k < i ==> data[k] == WordAt(mem, Ea(addr, k))
      {
        data := data[i := WordAt(mem, Ea(addr, i))];
      }
    }

    method WriteLine(addr: nat, data: Line)
      modifies this`mem
      ensures mem == WithLine(old(mem), addr, data, 4)
    {
      for i := 0 to 4
        invariant mem == WithLine(old(mem), addr, data, i)
      {
        mem := WithWord(mem, Ea(addr, i), data[i]);
      }
    }

    /** One turn of the main loop; failed is the assertion. */
    method Advance(l: Lines)
      returns (failed: bool, granted: Option<Accepted>, answered: Option<Answered>)
      modifies this
      ensures failed <==> Tick(old(Value()), l, mlp).None?
      ensures !failed ==> Tick(old(Value()), l, mlp) == Some(Turn(Value(), granted, answered))
    {
      hide LineAt, WithLine, Answerable;
      granted, answered, failed := None, None, false;
      if l.valid && |queue| < mlp {
        var rc := cycle + l.lat;
        if rc <= lastRc {
          rc := lastRc + 1;
        }
        lastRc := rc;
        queue := queue + [Request(l.isStore, l.addr, l.tag, rc, l.data)];
        granted := Some(Accepted(queue[|queue| - 1], cycle));
      }
      if queue != [] && queue[0].replyCycle == cycle {
        var req := queue[0];
        if !Answerable(req) {
          failed := true;
          return;
        }
        if !req.isStore {
          var data := ReadLine(req.addr);
          answered := Some(Answered(req, Load(req.tag, data), cycle));
        } else {
          WriteLine(req.addr, req.data);
          answered := Some(Answered(req, Store(req.tag), cycle));
        }
        queue := queue[1..];
      }
      cycle := cycle + 1;
    }
  }

  // ---- Runs ----

  /** Latencies lie in [lmin, lmax]; at most mlp requests are queued. */
  datatype Config = Config(mlp: nat, lmin: nat, lmax: nat)

  datatype History = History(accepted: seq<Accepted>, answered: seq<Answered>)

  function Push<T>(s: seq<T>, x: Option<T>): seq<T> { if x.Some? then s + [x.value] else s }

  function Record(h: History, t: Turn): History {
    History(Push(h.accepted, t.granted), Push(h.answered, t.answered))
  }

  /** A run over the given request lines, from an empty queue; None when an assertion fails on the way. */
  function Run(c: Config, cycle: nat, mem: Memory, ls: seq<Lines>): Option<(State, History)> {
    if ls == [] then Some((State([], cycle, -1, mem), History([], [])))
    else
      match Run(c, cycle, mem, ls[..|ls| - 1])
      case None => None
      case Some((s, h)) =>
        match Tick(s, ls[|ls| - 1], c.mlp)
        case None => None
        case Some(t) => Some((t.next, Record(h, t)))
  }

  predicate LatenciesIn(c: Config, ls: seq<Lines>) {
    c.lmin <= c.lmax && forall i :: 0 <= i < |ls| ==> c.lmin <= ls[i].lat <= c.lmax
  }

  predicate Increasing(q: seq<Request>) {
    forall i, j :: 0 <= i < j < |q| ==> q[i].replyCycle < q[j].replyCycle
  }

  predicate NotOverdue(q: seq<Request>, cycle: nat) {
    forall i :: 0 <= i < |q| ==> cycle <= q[i].replyCycle
  }

  /** The queue at the head of the loop. */
  predicate QueueOk(c: Config, s: State) {
    && Increasing(s.queue) && NotOverdue(s.queue, s.cycle) && |s.queue| <= c.mlp
    && (s.queue != [] ==> s.queue[|s.queue| - 1].replyCycle == s.lastRc)
    && -1 <= s.lastRc < s.cycle + c.lmax
  }

  predicate OnTime(c: Config, a: Accepted) {
    a.at + c.lmin <= a.req.replyCycle <= a.at + c.lmax
  }

  /** What was accepted is what was answered, when it was due, followed by what is queued. */
  predicate HistoryOk(c: Config, queue: seq<Request>, now: nat, h: History) {
    && |h.accepted| == |h.answered| + |queue|
    && (forall i :: 0 <= i < |h.answered| ==>
          && h.answered[i].req == h.accepted[i].req && Answerable(h.answered[i].req)
          && h.answered[i].at == h.accepted[i].req.replyCycle < now)
    && (forall i :: 0 <= i < |queue| ==> queue[i] == h.accepted[|h.answered| + i].req)
    && (forall i :: 0 <= i < |h.accepted| ==> OnTime(c, h.accepted[i]) && h.accepted[i].at < now)
  }

  lemma AcceptOk(c: Config, s: State, l: Lines)
    requires QueueOk(c, s) && c.lmin <= l.lat <= c.lmax && Accepts(s, l, c.mlp)
    ensures var t := Accept(s, l);
            && Increasing(t.queue) && NotOverdue(t.queue, t.cycle) && |t.queue| <= c.mlp
            && t.queue[|s.queue|].replyCycle == t.lastRc <= t.cycle + c.lmax
            && OnTime(c, Accepted(t.queue[|s.queue|], s.cycle))
  {
  }

  lemma TickQueue(c: Config, s: State, l: Lines)
    requires QueueOk(c, s) && c.lmin <= l.lat <= c.lmax
    requires Tick(s, l, c.mlp).Some?
    ensures QueueOk(c, Tick(s, l, c.mlp).value.next)
  {
    if Accepts(s, l, c.mlp) {
      AcceptOk(c, s, l);
    }
  }

  lemma AcceptHistory(c: Config, queue: seq<Request>, now: nat, h: History, a: Accepted)
    requires HistoryOk(c, queue, now, h) && OnTime(c, a) && a.at == now
    ensures HistoryOk(c, queue + [a.req], now + 1, History(h.accepted + [a], h.answered))
  {
  }

  lemma AnswerHistory(c: Config, queue: seq<Request>, now: nat, h: History, r: Reply)
    requires queue != [] && queue[0].replyCycle < now && Answerable(queue[0]) && HistoryOk(c, queue, now, h)
    ensures HistoryOk(c, queue[1..], now,
                      History(h.accepted, h.answered + [Answered(queue[0], r, queue[0].replyCycle)]))
  {
  }

  lemma TickHistory(c: Config, s: State, h: History, l: Lines)
    requires QueueOk(c, s) && HistoryOk(c, s.queue, s.cycle, h) && c.lmin <= l.lat <= c.lmax
    requires Tick(s, l, c.mlp).Some?
    ensures var t := Tick(s, l, c.mlp).value; HistoryOk(c, t.next.queue, t.next.cycle, Record(h, t))
  {
    hide HistoryOk, QueueOk, OnTime;
    var t := Tick(s, l, c.mlp).value;
    var queue, h1 := s.queue, h;
    if Accepts(s, l, c.mlp) {
      AcceptOk(c, s, l);
      AcceptHistory(c, s.queue, s.cycle, h, t.granted.value);
      queue, h1 := Accept(s, l).queue, History(h.accepted + [t.granted.value], h.answered);
    } else {
      Later(c, s.queue, s.cycle, h);
    }
    if t.answered.Some? {
      AnswerHistory(c, queue, s.cycle + 1, h1, t.answered.value.reply);
    }
  }

  lemma Later(c: Config, queue: seq<Request>, now: nat, h: History)
    requires HistoryOk(c, queue, now, h)
    ensures HistoryOk(c, queue, now + 1, h)
  {
  }

  // ---- Execution in order ----

  /** The requests carried out one after the other, at once. */
  function Execute(m: Memory, rs: seq<Request>): (Memory, seq<Reply>) {
    if rs == [] then (m, [])
    else
      var (before, out) := Execute(m, rs[..|rs| - 1]);
      var (after, r) := Answer(before, rs[|rs| - 1]);
      (after, out + [r])
  }

  function Requests(xs: seq<Answered>): seq<Request> { seq(|xs|, i requires 0 <= i < |xs| => xs[i].req) }
  function Replies(xs: seq<Answered>): seq<Reply> { seq(|xs|, i requires 0 <= i < |xs| => xs[i].reply) }
  function Accepteds(xs: seq<Accepted>): seq<Request> { seq(|xs|, i requires 0 <= i < |xs| => xs[i].req) }

  lemma TickExecutes(mem: Memory, s: State, h: History, l: Lines, mlp: nat)
    requires Tick(s, l, mlp).Some?
    requires Execute(mem, Requests(h.answered)) == (s.mem, Replies(h.answered))
    ensures var t := Tick(s, l, mlp).value; var k := Record(h, t);
            Execute(mem, Requests(k.answered)) == (t.next.mem, Replies(k.answered))
  {
    hide Answerable, ReplyCycle, Answer;
    var t := Tick(s, l, mlp).value;
    var k := Record(h, t);
    if t.answered.Some? {
      var rs := Requests(k.answered);
      assert rs[..|rs| - 1] == Requests(h.answered);
      assert Replies(k.answered) == Replies(h.answered) + [t.answered.value.reply];
    }
  }

  /** The invariant of every run. */
  ghost predicate RunOk(c: Config, mem: Memory, s: State, h: History) {
    && QueueOk(c, s)
    && HistoryOk(c, s.queue, s.cycle, h)
    && Execute(mem, Requests(h.answered)) == (s.mem, Replies(h.answered))
  }

  lemma {:induction false} EveryRun(c: Config, cycle: nat, mem: Memory, ls: seq<Lines>)
    requires LatenciesIn(c, ls)
    requires Run(c, cycle, mem, ls).Some?
    ensures var (s, h) := Run(c, cycle, mem, ls).value; RunOk(c, mem, s, h) && s.cycle == cycle + |ls|
  {
    if ls == [] {
      assert Requests([]) == [] && Replies([]) == [];
    } else {
      hide QueueOk, HistoryOk, Execute;
      EveryRun(c, cycle, mem, ls[..|ls| - 1]);
      var (s, h) := Run(c, cycle, mem, ls[..|ls| - 1]).value;
      TickQueue(c, s, ls[|ls| - 1]);
      TickHistory(c, s, h, ls[|ls| - 1]);
      TickExecutes(mem, s, h, ls[|ls| - 1], c.mlp);
    }
  }

  // ---- What the runs keep ----

  lemma {:induction false} SpreadOut(q: seq<Request>, low: int, i: nat)
    requires Increasing(q) && i < |q| && low <= q[0].replyCycle
    ensures low + i <= q[i].replyCycle
  {
    if i > 0 {
      SpreadOut(q, low, i - 1);
    }
  }

  /** In every run: reply cycles in the queue strictly increase and none is overdue, and even right after a request is
      accepted no more than min(mlp, lmax + 1) are queued. */
  lemma QueueBounds(c: Config, cycle: nat, mem: Memory, ls: seq<Lines>, l: Lines)
    requires LatenciesIn(c, ls) && c.lmin <= l.lat <= c.lmax
    requires Run(c, cycle, mem, ls).Some?
    ensures var (s, h) := Run(c, cycle, mem, ls).value;
            && Increasing(s.queue) && NotOverdue(s.queue, s.cycle)
            && |s.queue| <= c.mlp && |s.queue| <= c.lmax
            && (Accepts(s, l, c.mlp) ==>
                  var q := Accept(s, l).queue;
                  |q| <= c.mlp && |q| <= c.lmax + 1 && Increasing(q) && NotOverdue(q, s.cycle))
  {
    hide Execute, HistoryOk, Run;
    EveryRun(c, cycle, mem, ls);
    var (s, h) := Run(c, cycle, mem, ls).value;
    if s.queue != [] {
      SpreadOut(s.queue, s.cycle, |s.queue| - 1);
    }
    if Accepts(s, l, c.mlp) {
      AcceptOk(c, s, l);
      var q := Accept(s, l).queue;
      SpreadOut(q, s.cycle, |q| - 1);
    }
  }

  /** In every run: a request is answered at most once, in the order of acceptance, at its reply cycle, between lmin and
      lmax cycles after acceptance; and it has been answered exactly when its reply cycle has passed. */
  lemma AnsweredOnceInOrder(c: Config, cycle: nat, mem: Memory, ls: seq<Lines>, i: nat)
    requires LatenciesIn(c, ls)
    requires Run(c, cycle, mem, ls).Some?
    ensures var (s, h) := Run(c, cycle, mem, ls).value;
            && |h.answered| <= |h.accepted|
            && (i < |h.answered| ==>
                  && h.answered[i].req == h.accepted[i].req
                  && h.answered[i].at == h.accepted[i].req.replyCycle
                  && h.accepted[i].at + c.lmin <= h.answered[i].at <= h.accepted[i].at + c.lmax)
            && (i < |h.accepted| ==> (i < |h.answered| <==> h.accepted[i].req.replyCycle < s.cycle))
            && (i < |h.accepted| && h.accepted[i].at + c.lmax < s.cycle ==> i < |h.answered|)
  {
    hide Execute, Run, Increasing;
    EveryRun(c, cycle, mem, ls);
    var (s, h) := Run(c, cycle, mem, ls).value;
    if |h.answered| <= i < |h.accepted| {
      assert s.queue[i - |h.answered|] == h.accepted[i].req;
    }
  }

  /** In every run: memory and the replies are those of carrying out the accepted requests one after the other. */
  lemma RunsInOrder(c: Config, cycle: nat, mem: Memory, ls: seq<Lines>)
    requires LatenciesIn(c, ls)
    requires Run(c, cycle, mem, ls).Some?
    ensures var (s, h) := Run(c, cycle, mem, ls).value;
            && |h.answered| <= |h.accepted|
            && Execute(mem, Accepteds(h.accepted)[..|h.answered|]) == (s.mem, Replies(h.answered))
  {
    hide Execute, Run, QueueOk;
    EveryRun(c, cycle, mem, ls);
    var (s, h) := Run(c, cycle, mem, ls).value;
    assert Requests(h.answered) == Accepteds(h.accepted)[..|h.answered|];
  }

  /** Why lmin may not be negative: a request queued with a reply cycle in the past is at the front of an empty queue,
      is never answered, and neither is any request after it. */
  lemma {:induction false} OverdueBlocks(s: State, ls: seq<Lines>, mlp: nat)
    requires s.queue != [] && s.queue[0].replyCycle < s.cycle
    ensures var r := Ticks(s, ls, mlp);
            r.Some? && r.value.queue != [] && r.value.queue[0] == s.queue[0] && r.value.mem == s.mem
    decreases ls
  {
    if ls != [] {
      var t := Tick(s, ls[0], mlp).value;
      OverdueBlocks(t.next, ls[1..], mlp);
    }
  }

  /** The states alone, turn by turn. */
  function Ticks(s: State, ls: seq<Lines>, mlp: nat): Option<State>
    decreases ls
  {
    if ls == [] then Some(s)
    else
      match Tick(s, ls[0], mlp)
      case None => None
      case Some(t) => Ticks(t.next, ls[1..], mlp)
  }

  /** A request that meets an empty queue blocks it exactly when its latency is negative and no earlier reply cycle
      lifts it to the present. */
  lemma BlocksIffOverdue(s: State, l: Lines, mlp: nat)
    requires s.queue == [] && Accepts(s, l, mlp) && Tick(s, l, mlp).Some?
    ensures var t := Tick(s, l, mlp).value;
            (t.next.queue != [] && t.next.queue[0].replyCycle < t.next.cycle) <==> l.lat < 0 && s.lastRc + 1 < s.cycle
  {
  }
}
