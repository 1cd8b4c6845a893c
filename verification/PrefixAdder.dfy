/** scripts/gen_ppa.py: a parallel-prefix adder for 2^lg_bits bits. */
module PrefixAdder {
  import opened Arith
  import opened Netlist
  import opened Options
  import opened WireNames

  // ---- Generate and propagate of a group of bits ----

  ghost function Group(k: Kind, a: seq<bool>, b: seq<bool>, hi: nat, lo: nat): bool
    requires |a| == |b| && lo <= hi < |a|
    decreases hi
  {
    var p, g := a[hi] != b[hi], a[hi] && b[hi];
    if hi == lo then (if k.Propagate? then p else g)
    else if k.Propagate? then p && Group(k, a, b, hi - 1, lo)
    else g || (p && Group(k, a, b, hi - 1, lo))
  }

  /** The prefix operator: two adjacent groups combine. */
  lemma {:induction false} Combine(a: seq<bool>, b: seq<bool>, hi: nat, mid: nat, lo: nat)
    requires |a| == |b| && lo < mid <= hi < |a|
    ensures Group(Propagate, a, b, hi, lo) == (Group(Propagate, a, b, hi, mid) && Group(Propagate, a, b, mid - 1, lo))
    ensures Group(Generate, a, b, hi, lo)
         == ((Group(Generate, a, b, mid - 1, lo) && Group(Propagate, a, b, hi, mid)) || Group(Generate, a, b, hi, mid))
    decreases hi
  {
    if hi == mid {
    } else {
      Combine(a, b, hi - 1, mid, lo);
    }
  }

  lemma {:induction false} GroupIsCarry(a: seq<bool>, b: seq<bool>, hi: nat)
    requires |a| == |b| && hi < |a|
    ensures Group(Generate, a, b, hi, 0) == Carry(a, b, hi + 1)
  {
    if hi == 0 {
      assert !Carry(a, b, 0);
    } else {
      GroupIsCarry(a, b, hi - 1);
    }
  }

  // ---- The network as lists of lines ----

  /** The lowest bit that the signal at i covers after l levels. */
  function Lo(i: nat, l: nat): (lo: nat)
    ensures lo <= i
  {
    if i + 1 >= Pow2(l) then i + 1 - Pow2(l) else 0
  }

  function At(k: Kind, i: nat, l: nat): string {
    Name(k, i, Lo(i, l))
  }

  /** The two lines for bit i of the first level. */
  function FirstLines(i: nat): seq<Line> {
    [Wire(At(Propagate, i, 0), Xor(A(i), B(i))), Wire(At(Generate, i, 0), And(A(i), B(i)))]
  }

  /** The two lines for bit i of level l + 1, if that level has any. */
  function LevelLines(l: nat, i: nat): seq<Line> {
    var d := Pow2(l);
    if i < d then []
    else
      [Wire(At(Propagate, i, l + 1), And(Ref(At(Propagate, i, l)), Ref(At(Propagate, i - d, l)))),
       Wire(At(Generate, i, l + 1),
            Or(And(Ref(At(Generate, i - d, l)), Ref(At(Propagate, i, l))), Ref(At(Generate, i, l))))]
  }

  function SumLines(lg: nat, i: nat): seq<Line> {
    if i == 0 then [Assign(0, Ref(At(Propagate, 0, 0)))]
    else [Assign(i, Xor(Ref(At(Propagate, i, 0)), Ref(At(Generate, i - 1, lg))))]
  }

  /** The first i bits of the first level. */
  function First(i: nat): seq<Line> {
    if i == 0 then [] else First(i - 1) + FirstLines(i - 1)
  }

  /** Everything up to the first i bits of level l + 1. */
  function Network(bits: nat, l: nat, i: nat): seq<Line>
    decreases l, i
  {
    if i > 0 then Network(bits, l, i - 1) + LevelLines(l, i - 1)
    else if l > 0 then Network(bits, l - 1, bits)
    else First(bits)
  }

  function Sums(bits: nat, lg: nat, i: nat): seq<Line> {
    if i == 0 then Network(bits, lg, 0) else Sums(bits, lg, i - 1) + SumLines(lg, i - 1)
  }

  /** The lines between the port declarations and `endmodule`. */
  function Ppa(lg: nat): seq<Line> {
    Sums(Pow2(lg), lg, Pow2(lg))
  }

  // ---- The generator ----

  lemma JoinedNames(k: Kind, i: nat, l: nat)
    ensures i < Pow2(l) ==> At(k, i, l + 1) == At(k, i, l)
    ensures i >= Pow2(l) ==> At(k, i, l) + "_" + At(k, i - Pow2(l), l) == At(k, i, l + 1)
  {
    if i >= Pow2(l) {
      JoinNames(k, i, Lo(i, l), Lo(i - Pow2(l), l));
    }
  }

  lemma FirstStep(i: nat)
    ensures At(Propagate, i, 0) == "pp_" + Dec(i) && At(Generate, i, 0) == "gg_" + Dec(i)
    ensures First(i + 1)
         == First(i) + [Wire(At(Propagate, i, 0), Xor(A(i), B(i)))] + [Wire(At(Generate, i, 0), And(A(i), B(i)))]
  {
    hide Dec;
    assert Lo(i, 0) == i;
  }

  lemma LevelStep(bits: nat, l: nat, i: nat)
    ensures i < Pow2(l) ==> Network(bits, l, i + 1) == Network(bits, l, i)
    ensures i >= Pow2(l) ==>
              Network(bits, l, i + 1)
              == Network(bits, l, i)
                 + [Wire(At(Propagate, i, l + 1), And(Ref(At(Propagate, i, l)), Ref(At(Propagate, i - Pow2(l), l))))]
                 + [Wire(At(Generate, i, l + 1),
                         Or(And(Ref(At(Generate, i - Pow2(l), l)), Ref(At(Propagate, i, l))), Ref(At(Generate, i, l))))]
  {
    hide At, Pow2;
    assert Network(bits, l, i + 1) == Network(bits, l, i) + LevelLines(l, i);
  }

  lemma NetworkStarts(bits: nat, l: nat)
    ensures Network(bits, 0, 0) == First(bits)
    ensures Network(bits, l + 1, 0) == Network(bits, l, bits)
  {
  }

  lemma SumStep(bits: nat, lg: nat, i: nat)
    ensures Sums(bits, lg, 0) == Network(bits, lg, 0)
    ensures Sums(bits, lg, i + 1) == Sums(bits, lg, i) + SumLines(lg, i)
  {
  }

  /** write_rtl: the names are built by joining, as the generator does, and the lines come out in its order. */
  method WriteRtl(lgBits: nat) returns (o: seq<Line>)
    ensures o == Ppa(lgBits)
  {
    hide Name, Dec, Lo, At, First, Network, LevelLines, Sums, Pow2;
    var bits := Pow2(lgBits);
    FirstEmpty();
    o := [];
    var gg: seq<string>, pp: seq<string> := [], [];
    for i := 0 to bits
      invariant |pp| == |gg| == i
      invariant forall k :: 0 <= k < i ==> pp[k] == At(Propagate, k, 0) && gg[k] == At(Generate, k, 0)
      invariant o == First(i)
    {
      FirstStep(i);
      var n := "pp_" + Dec(i);
      var g := "gg_" + Dec(i);
      pp := pp + [n];
      gg := gg + [g];
      o := o + [Wire(n, Xor(A(i), B(i)))];
      o := o + [Wire(g, And(A(i), B(i)))];
    }
    var p := pp;
    NetworkStarts(bits, 0);
    for l := 0 to lgBits
      invariant |pp| == |gg| == bits
      invariant forall k :: 0 <= k < bits ==> pp[k] == At(Propagate, k, l) && gg[k] == At(Generate, k, l)
      invariant o == Network(bits, l, 0)
    {
      var d := Pow2(l);
      var tpp: seq<string>, tgg: seq<string> := [], [];
      for i := 0 to bits
        invariant |tpp| == |tgg| == i
        invariant forall k :: 0 <= k < i ==> tpp[k] == At(Propagate, k, l + 1) && tgg[k] == At(Generate, k, l + 1)
        invariant o == Network(bits, l, i)
      {
        JoinedNames(Propagate, i, l);
        JoinedNames(Generate, i, l);
        LevelStep(bits, l, i);
        var n := pp[i];
        var g := gg[i];
        if i - d > -1 {
          n := n + "_" + pp[i - d];
          g := g + "_" + gg[i - d];
          o := o + [Wire(n, And(Ref(pp[i]), Ref(pp[i - d])))];
          o := o + [Wire(g, Or(And(Ref(gg[i - d]), Ref(pp[i])), Ref(gg[i])))];
        }
        tpp := tpp + [n];
        tgg := tgg + [g];
      }
      pp := tpp;
      gg := tgg;
      NetworkStarts(bits, l);
    }
    SumStep(bits, lgBits, 0);
    o := o + [Assign(0, Ref(p[0]))];
    for i := 1 to bits
      invariant o == Sums(bits, lgBits, i)
    {
      SumStep(bits, lgBits, i);
      o := o + [Assign(i, Xor(Ref(p[i]), Ref(gg[i - 1])))];
    }
  }

  lemma FirstEmpty()
    ensures First(0) == []
  {
  }

  // ---- What the network computes ----

  /** After l levels and the first i bits of the next, the signal at k covers this many levels. */
  function Depth(l: nat, i: nat, k: nat): nat {
    if k < i then l + 1 else l
  }

  ghost predicate Signal(w: map<string, bool>, a: seq<bool>, b: seq<bool>, k: nat, l: nat)
    requires |a| == |b| && k < |a|
  {
    && At(Propagate, k, l) in w && w[At(Propagate, k, l)] == Group(Propagate, a, b, k, Lo(k, l))
    && At(Generate, k, l) in w && w[At(Generate, k, l)] == Group(Generate, a, b, k, Lo(k, l))
  }

  ghost predicate Settled(w: map<string, bool>, a: seq<bool>, b: seq<bool>, l: nat, i: nat, k: nat)
    requires |a| == |b| && k < |a|
  {
    Signal(w, a, b, k, Depth(l, i, k))
  }

  /** name belongs to a span of bits no wider than what its top bit covers by now. */
  ghost predicate Known(name: string, bits: nat, l: nat, i: nat) {
    exists k: Kind, hi: nat, lo: nat :: lo <= hi < bits && lo >= Lo(hi, Depth(l, i, hi)) && name == Name(k, hi, lo)
  }

  /** The state of an evaluation of Network(bits, l, i): the signal at each bit is the generate or propagate of the
      group of bits max(0, k - 2^l + 1)..k. */
  ghost predicate Levelled(st: State, a: seq<bool>, b: seq<bool>, l: nat, i: nat)
    requires |a| == |b|
  {
    && st.outs == map[]
    && (forall k :: 0 <= k < |a| ==> Signal(st.wires, a, b, k, l))
    && (forall k :: 0 <= k < |a| ==> Settled(st.wires, a, b, l, i, k))
    && (forall k :: 0 <= k < |a| ==> Signal(st.wires, a, b, k, 0))
    && (forall n :: n in st.wires ==> Known(n, |a|, l, i))
  }

  lemma LoShrinks(i: nat, l: nat)
    ensures Lo(i, l + 1) <= Lo(i, l)
    ensures i < Pow2(l) ==> Lo(i, l) == Lo(i, l + 1) == 0
    ensures i >= Pow2(l) ==> Lo(i, l + 1) < Lo(i, l) && Lo(i, l) == i - Pow2(l) + 1
                             && Lo(i, l + 1) == Lo(i - Pow2(l), l)
  {
  }

  /** A wider span at bit i is a new name. */
  lemma Fresh(k: Kind, bits: nat, l: nat, i: nat)
    requires Pow2(l) <= i < bits
    ensures !Known(At(k, i, l + 1), bits, l, i)
  {
    hide Name;
    LoShrinks(i, l);
    if Known(At(k, i, l + 1), bits, l, i) {
      var k': Kind, hi: nat, lo: nat :| lo <= hi < bits && lo >= Lo(hi, Depth(l, i, hi))
                                        && At(k, i, l + 1) == Name(k', hi, lo);
      NameInjective(k, i, Lo(i, l + 1), k', hi, lo);
    }
  }

  lemma KindsDiffer(i: nat, l: nat)
    ensures At(Propagate, i, l) != At(Generate, i, l)
  {
    hide Name;
    if At(Propagate, i, l) == At(Generate, i, l) {
      NameInjective(Propagate, i, Lo(i, l), Generate, i, Lo(i, l));
    }
  }

  lemma KnownGrows(name: string, bits: nat, l: nat, i: nat)
    ensures Known(name, bits, l, i) ==> Known(name, bits, l, i + 1)
    ensures Known(name, bits, l, bits) ==> Known(name, bits, l + 1, 0)
  {
    hide Name;
    if Known(name, bits, l, i) {
      var k: Kind, hi: nat, lo: nat :| lo <= hi < bits && lo >= Lo(hi, Depth(l, i, hi)) && name == Name(k, hi, lo);
      LoShrinks(hi, l);
      assert lo >= Lo(hi, Depth(l, i + 1, hi));
    }
  }

  lemma NewKnown(k: Kind, bits: nat, l: nat, i: nat)
    requires i < bits
    ensures Known(At(k, i, l + 1), bits, l, i + 1)
  {
    hide Name;
    assert Lo(i, l + 1) >= Lo(i, Depth(l, i + 1, i));
  }

  /** The values of the two new signals, by the prefix operator. */
  lemma NewSignals(w: map<string, bool>, a: seq<bool>, b: seq<bool>, i: nat, l: nat)
    requires |a| == |b| && Pow2(l) <= i < |a|
    requires Signal(w, a, b, i, l) && Signal(w, a, b, i - Pow2(l), l)
    ensures var j := i - Pow2(l);
            && Eval(And(Ref(At(Propagate, i, l)), Ref(At(Propagate, j, l))), a, b, w)
               == Some(Group(Propagate, a, b, i, Lo(i, l + 1)))
            && Eval(Or(And(Ref(At(Generate, j, l)), Ref(At(Propagate, i, l))), Ref(At(Generate, i, l))), a, b, w)
               == Some(Group(Generate, a, b, i, Lo(i, l + 1)))
  {
    hide At, Group;
    LoShrinks(i, l);
    Combine(a, b, i, Lo(i, l), Lo(i, l + 1));
    var j := i - Pow2(l);
    var both := And(Ref(At(Generate, j, l)), Ref(At(Propagate, i, l)));
    assert Eval(both, a, b, w) == Some(Group(Generate, a, b, j, Lo(j, l)) && Group(Propagate, a, b, i, Lo(i, l)));
    assert Eval(Ref(At(Generate, i, l)), a, b, w) == Some(Group(Generate, a, b, i, Lo(i, l)));
  }

  lemma SignalKept(w: map<string, bool>, n: string, v: bool, a: seq<bool>, b: seq<bool>, k: nat, l: nat)
    requires |a| == |b| && k < |a| && Signal(w, a, b, k, l) && n !in w
    ensures Signal(w[n := v], a, b, k, l)
  {
  }

  /** Two fresh wires in a row. */
  lemma RunTwo(lines: seq<Line>, n: string, e: Expr, n': string, e': Expr, a: seq<bool>, b: seq<bool>,
               st: State, v: bool, v': bool)
    requires Run(lines, a, b) == Some(st)
    requires n !in st.wires && n' !in st.wires && n != n'
    requires Eval(e, a, b, st.wires) == Some(v)
    requires Eval(e', a, b, st.wires[n := v]) == Some(v')
    ensures Run(lines + [Wire(n, e)] + [Wire(n', e')], a, b) == Some(st.(wires := st.wires[n := v][n' := v']))
  {
    hide Eval;
    RunSnoc(lines, Wire(n, e), a, b);
    RunSnoc(lines + [Wire(n, e)], Wire(n', e'), a, b);
  }

  lemma LevelledGrow(st: State, a: seq<bool>, b: seq<bool>, l: nat, i: nat, v: bool, v': bool) returns (st': State)
    requires |a| == |b| && Pow2(l) <= i < |a| && Levelled(st, a, b, l, i)
    requires v == Group(Propagate, a, b, i, Lo(i, l + 1)) && v' == Group(Generate, a, b, i, Lo(i, l + 1))
    ensures st' == st.(wires := st.wires[At(Propagate, i, l + 1) := v][At(Generate, i, l + 1) := v'])
    ensures Levelled(st', a, b, l, i + 1)
  {
    hide At, Group, Known;
    Fresh(Propagate, |a|, l, i);
    Fresh(Generate, |a|, l, i);
    KindsDiffer(i, l + 1);
    var n, n' := At(Propagate, i, l + 1), At(Generate, i, l + 1);
    st' := st.(wires := st.wires[n := v][n' := v']);
    forall k, m | 0 <= k < |a| && Signal(st.wires, a, b, k, m)
      ensures Signal(st'.wires, a, b, k, m)
    {
      SignalKept(st.wires, n, v, a, b, k, m);
      SignalKept(st.wires[n := v], n', v', a, b, k, m);
    }
    assert Signal(st'.wires, a, b, i, l + 1);
    var next := i + 1;
    forall k | 0 <= k < |a|
      ensures Settled(st'.wires, a, b, l, next, k)
    {
      assert Settled(st.wires, a, b, l, i, k);
    }
    forall x | x in st'.wires
      ensures Known(x, |a|, l, i + 1)
    {
      KnownGrows(x, |a|, l, i);
      NewKnown(Propagate, |a|, l, i);
      NewKnown(Generate, |a|, l, i);
    }
  }

  lemma LevelledSkip(st: State, a: seq<bool>, b: seq<bool>, l: nat, i: nat)
    requires |a| == |b| && i < |a| && i < Pow2(l) && Levelled(st, a, b, l, i)
    ensures Levelled(st, a, b, l, i + 1)
  {
    hide Group, Known;
    LoShrinks(i, l);
    assert Signal(st.wires, a, b, i, l);
    var next := i + 1;
    forall k | 0 <= k < |a|
      ensures Settled(st.wires, a, b, l, next, k)
    {
      assert Settled(st.wires, a, b, l, i, k);
    }
    forall x | x in st.wires
      ensures Known(x, |a|, l, i + 1)
    {
      KnownGrows(x, |a|, l, i);
    }
  }

  lemma LevelledNext(st: State, a: seq<bool>, b: seq<bool>, l: nat)
    requires |a| == |b| && Levelled(st, a, b, l, |a|)
    ensures Levelled(st, a, b, l + 1, 0)
  {
    hide Group, Known, At;
    var next := l + 1;
    forall k | 0 <= k < |a|
      ensures Signal(st.wires, a, b, k, next) && Settled(st.wires, a, b, next, 0, k)
    {
      assert Settled(st.wires, a, b, l, |a|, k);
    }
    forall x | x in st.wires
      ensures Known(x, |a|, l + 1, 0)
    {
      KnownGrows(x, |a|, l, 0);
    }
  }

  // ---- The whole network ----

  ghost predicate FirstKnown(name: string, i: nat) {
    exists k: Kind, hi: nat :: hi < i && name == At(k, hi, 0)
  }

  ghost predicate FirstState(st: State, a: seq<bool>, b: seq<bool>, i: nat)
    requires |a| == |b| && i <= |a|
  {
    && st.outs == map[]
    && (forall k :: 0 <= k < i ==> Signal(st.wires, a, b, k, 0))
    && (forall n :: n in st.wires ==> FirstKnown(n, i))
  }

  lemma FirstFresh(k: Kind, i: nat)
    ensures !FirstKnown(At(k, i, 0), i)
  {
    hide Name;
    if FirstKnown(At(k, i, 0), i) {
      var k': Kind, hi: nat :| hi < i && At(k, i, 0) == At(k', hi, 0);
      NameInjective(k, i, Lo(i, 0), k', hi, Lo(hi, 0));
    }
  }

  lemma FirstKnownGrows(name: string, i: nat)
    ensures FirstKnown(name, i) ==> FirstKnown(name, i + 1)
    ensures FirstKnown(At(Propagate, i, 0), i + 1) && FirstKnown(At(Generate, i, 0), i + 1)
  {
    hide At;
  }

  lemma {:induction false} FirstRuns(a: seq<bool>, b: seq<bool>, i: nat) returns (st: State)
    requires |a| == |b| && i <= |a|
    ensures Run(First(i), a, b) == Some(st) && FirstState(st, a, b, i)
  {
    if i == 0 {
      st := State(map[], map[]);
    } else {
      hide At, Run, Eval, FirstKnown, First;
      var j := i - 1;
      st := FirstRuns(a, b, j);
      FirstFresh(Propagate, j);
      FirstFresh(Generate, j);
      KindsDiffer(j, 0);
      FirstStep(j);
      FirstEvals(st.wires, a, b, j);
      var n, n' := At(Propagate, j, 0), At(Generate, j, 0);
      FirstEvals(st.wires[n := a[j] != b[j]], a, b, j);
      RunTwo(First(j), n, Xor(A(j), B(j)), n', And(A(j), B(j)), a, b, st, a[j] != b[j], a[j] && b[j]);
      var w := st.wires;
      st := st.(wires := w[n := a[j] != b[j]][n' := a[j] && b[j]]);
      FirstGrow(w, a, b, j);
    }
  }

  lemma FirstEvals(w: map<string, bool>, a: seq<bool>, b: seq<bool>, j: nat)
    requires |a| == |b| && j < |a|
    ensures Eval(Xor(A(j), B(j)), a, b, w) == Some(a[j] != b[j])
    ensures Eval(And(A(j), B(j)), a, b, w) == Some(a[j] && b[j])
  {
  }

  lemma FirstGrow(w: map<string, bool>, a: seq<bool>, b: seq<bool>, j: nat)
    requires |a| == |b| && j < |a| && FirstState(State(w, map[]), a, b, j)
    requires At(Propagate, j, 0) !in w && At(Generate, j, 0) !in w && At(Propagate, j, 0) != At(Generate, j, 0)
    ensures FirstState(State(w[At(Propagate, j, 0) := a[j] != b[j]][At(Generate, j, 0) := a[j] && b[j]], map[]),
                       a, b, j + 1)
  {
    hide At, FirstKnown;
    assert Lo(j, 0) == j;
    var n, n' := At(Propagate, j, 0), At(Generate, j, 0);
    var w' := w[n := a[j] != b[j]][n' := a[j] && b[j]];
    forall k | 0 <= k < j
      ensures Signal(w', a, b, k, 0)
    {
      SignalKept(w, n, a[j] != b[j], a, b, k, 0);
      SignalKept(w[n := a[j] != b[j]], n', a[j] && b[j], a, b, k, 0);
    }
    forall n | n in w' ensures FirstKnown(n, j + 1) {
      FirstKnownGrows(n, j);
    }
  }

  lemma FirstIsLevel0(st: State, a: seq<bool>, b: seq<bool>)
    requires |a| == |b| && FirstState(st, a, b, |a|)
    ensures Levelled(st, a, b, 0, 0)
  {
    hide At, Group;
    forall n | n in st.wires
      ensures Known(n, |a|, 0, 0)
    {
      var k: Kind, hi: nat :| hi < |a| && n == At(k, hi, 0);
      assert n == Name(k, hi, Lo(hi, 0)) by { UnfoldAt(k, hi, 0); }
    }
    forall k | 0 <= k < |a|
      ensures Settled(st.wires, a, b, 0, 0, k)
    {
      assert Signal(st.wires, a, b, k, 0);
    }
  }

  lemma UnfoldAt(k: Kind, i: nat, l: nat)
    ensures At(k, i, l) == Name(k, i, Lo(i, l))
  {
  }

  /** Every level keeps the group invariant. */
  lemma {:induction false} NetworkRuns(a: seq<bool>, b: seq<bool>, l: nat, i: nat) returns (st: State)
    requires |a| == |b| && i <= |a|
    ensures Run(Network(|a|, l, i), a, b) == Some(st) && Levelled(st, a, b, l, i)
    decreases l, i
  {
    hide Levelled, At, Group, Run;
    if i > 0 {
      var j := i - 1;
      st := NetworkRuns(a, b, l, j);
      LevelStep(|a|, l, j);
      if j < Pow2(l) {
        LevelledSkip(st, a, b, l, j);
      } else {
        st := LevelRuns(a, b, l, j, st);
      }
    } else if l > 0 {
      st := NetworkRuns(a, b, l - 1, |a|);
      LevelledNext(st, a, b, l - 1);
    } else {
      st := FirstRuns(a, b, |a|);
      FirstIsLevel0(st, a, b);
    }
  }

  lemma SignalsThere(st: State, a: seq<bool>, b: seq<bool>, l: nat, i: nat)
    requires |a| == |b| && Levelled(st, a, b, l, i)
    ensures forall k :: 0 <= k < |a| ==> Signal(st.wires, a, b, k, l)
    ensures forall n :: n in st.wires ==> Known(n, |a|, l, i)
  {
    hide Signal, Settled, Known;
  }

  lemma LevelRuns(a: seq<bool>, b: seq<bool>, l: nat, j: nat, st: State) returns (st': State)
    requires |a| == |b| && Pow2(l) <= j < |a|
    requires Run(Network(|a|, l, j), a, b) == Some(st) && Levelled(st, a, b, l, j)
    ensures Run(Network(|a|, l, j + 1), a, b) == Some(st') && Levelled(st', a, b, l, j + 1)
  {
    hide At, Group, Run, Eval, Network, Levelled, Signal, Known, Lo, LevelLines;
    var n, n' := At(Propagate, j, l + 1), At(Generate, j, l + 1);
    var e := And(Ref(At(Propagate, j, l)), Ref(At(Propagate, j - Pow2(l), l)));
    var e' := Or(And(Ref(At(Generate, j - Pow2(l), l)), Ref(At(Propagate, j, l))), Ref(At(Generate, j, l)));
    LevelStep(|a|, l, j);
    SignalsThere(st, a, b, l, j);
    Fresh(Propagate, |a|, l, j);
    Fresh(Generate, |a|, l, j);
    KindsDiffer(j, l + 1);
    var v, v' := Group(Propagate, a, b, j, Lo(j, l + 1)), Group(Generate, a, b, j, Lo(j, l + 1));
    NewSignals(st.wires, a, b, j, l);
    SignalKept(st.wires, n, v, a, b, j, l);
    SignalKept(st.wires, n, v, a, b, j - Pow2(l), l);
    NewSignals(st.wires[n := v], a, b, j, l);
    RunTwo(Network(|a|, l, j), n, e, n', e', a, b, st, v, v');
    st' := LevelledGrow(st, a, b, l, j, v, v');
  }

  ghost predicate Summed(st: State, a: seq<bool>, b: seq<bool>, i: nat)
    requires |a| == |b| && i <= |a|
  {
    && (forall k :: k in st.outs <==> 0 <= k < i)
    && (forall k :: 0 <= k < i ==> st.outs[k] == SumBits(a, b)[k])
  }

  lemma SumLine(w: map<string, bool>, a: seq<bool>, b: seq<bool>, lg: nat, i: nat)
    requires |a| == |b| == Pow2(lg) && i < |a|
    requires Signal(w, a, b, i, 0) && (i > 0 ==> Signal(w, a, b, i - 1, lg))
    ensures Eval(SumLines(lg, i)[0].e, a, b, w) == Some(SumBits(a, b)[i])
  {
    hide At;
    assert Lo(i, 0) == i;
    if i == 0 {
      assert !Carry(a, b, 0);
    } else {
      assert Lo(i - 1, lg) == 0;
      GroupIsCarry(a, b, i - 1);
      assert Eval(Ref(At(Propagate, i, 0)), a, b, w) == Some(a[i] != b[i]);
      assert Eval(Ref(At(Generate, i - 1, lg)), a, b, w) == Some(Carry(a, b, i));
    }
  }

  lemma {:induction false} SumsRun(a: seq<bool>, b: seq<bool>, lg: nat, i: nat) returns (st: State)
    requires |a| == |b| == Pow2(lg) && i <= |a|
    ensures Run(Sums(|a|, lg, i), a, b) == Some(st) && Summed(st, a, b, i)
    ensures forall k :: 0 <= k < |a| ==> Signal(st.wires, a, b, k, lg) && Signal(st.wires, a, b, k, 0)
  {
    hide At, Group, Run, Eval, Signal, SumBits, Carry;
    SumBitsLength(a, b);
    if i == 0 {
      st := NetworkRuns(a, b, lg, 0);
    } else {
      var j := i - 1;
      st := SumsRun(a, b, lg, j);
      SumStep(|a|, lg, j);
      SumLine(st.wires, a, b, lg, j);
      var line := SumLines(lg, j)[0];
      RunSnoc(Sums(|a|, lg, j), line, a, b);
      st := st.(outs := st.outs[j := SumBits(a, b)[j]]);
    }
  }

  /** For every width 2^lg and every pair of inputs, the emitted network outputs the textbook sum. */
  lemma PpaSums(lg: nat, a: seq<bool>, b: seq<bool>)
    requires |a| == |b| == Pow2(lg)
    ensures Output(Ppa(lg), a, b) == Some(SumBits(a, b))
  {
    hide Run, SumBits, Signal, Sums;
    var st := SumsRun(a, b, lg, |a|);
    SumBitsLength(a, b);
    assert seq(|a|, k requires 0 <= k < |a| => st.outs[k]) == SumBits(a, b);
  }

  lemma SumBitsLength(a: seq<bool>, b: seq<bool>)
    requires |a| == |b|
    ensures |SumBits(a, b)| == |a|
  {
  }

  /** ... which is the sum of the two numbers modulo 2^(2^lg). */
  lemma PpaAdds(lg: nat, a: seq<bool>, b: seq<bool>)
    requires |a| == |b| == Pow2(lg)
    ensures Output(Ppa(lg), a, b).Some?
    ensures NatOf(Output(Ppa(lg), a, b).value) == (NatOf(a) + NatOf(b)) % Pow2(Pow2(lg))
  {
    hide Output, Ppa, SumBits;
    PpaSums(lg, a, b);
    SumBitsAdd(a, b);
  }

  /** Each wire is declared once, before its uses; each output is driven once. */
  lemma PpaWellFormed(lg: nat)
    ensures WellFormed(Ppa(lg), Pow2(lg))
    ensures forall k :: k in Assigned(Ppa(lg)) <==> 0 <= k < Pow2(lg)
  {
    hide Run, SumBits, Signal, Sums, WellFormed, Assigned;
    var z := seq(Pow2(lg), _ => false);
    var st := SumsRun(z, z, lg, Pow2(lg));
    RunsIffWellFormed(Ppa(lg), z, z);
    assert st.outs.Keys == Assigned(Ppa(lg));
  }
}
