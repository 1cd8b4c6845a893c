/** scripts/gen_rca.py: the ripple-carry adder, and its agreement with the prefix adder. */
module RippleAdder {
  import opened Arith
  import opened Netlist
  import opened Options
  import WireNames
  import PrefixAdder

  /** 'wC' + str(i). */
  function WC(i: nat): string {
    "wC" + WireNames.Dec(i)
  }

  lemma WCInjective(i: nat, j: nat)
    ensures WC(i) == WC(j) <==> i == j
  {
    hide WireNames.Dec;
    if WC(i) == WC(j) {
      assert WC(i)[2..] == WireNames.Dec(i) && WC(j)[2..] == WireNames.Dec(j);
      WireNames.ValueOfDec(i);
      WireNames.ValueOfDec(j);
    }
  }

  /** The lines for bit i. */
  function Stage(bits: nat, i: nat): seq<Line> {
    if i == 0 then [Assign(0, Xor(A(0), B(0))), Wire(WC(0), And(A(0), B(0)))]
    else
      [Assign(i, Xor(Xor(A(i), B(i)), Ref(WC(i - 1))))]
      + if i != bits - 1 then [Wire(WC(i), Or(And(A(i), B(i)), And(Ref(WC(i - 1)), Xor(A(i), B(i)))))] else []
  }

  function Stages(bits: nat, i: nat): seq<Line> {
    if i == 0 then [] else Stages(bits, i - 1) + Stage(bits, i - 1)
  }

  function Rca(bits: nat): seq<Line>
    requires bits >= 1
  {
    Stages(bits, bits)
  }

  lemma StageStep(bits: nat, i: nat)
    ensures Stages(bits, 1) == [Assign(0, Xor(A(0), B(0)))] + [Wire(WC(0), And(A(0), B(0)))]
    ensures i >= 1 ==>
              Stages(bits, i + 1)
              == Stages(bits, i)
                 + [Assign(i, Xor(Xor(A(i), B(i)), Ref(WC(i - 1))))]
                 + (if i != bits - 1
                    then [Wire(WC(i), Or(And(A(i), B(i)), And(Ref(WC(i - 1)), Xor(A(i), B(i)))))] else [])
  {
    hide WC;
    assert Stages(bits, 1) == Stages(bits, 0) + Stage(bits, 0);
    assert Stages(bits, i + 1) == Stages(bits, i) + Stage(bits, i);
  }

  /** write_rtl. The generator refers to bit 0 unconditionally, so a width is at least 1. */
  method WriteRtl(bits: nat) returns (o: seq<Line>)
    requires bits >= 1
    ensures o == Rca(bits)
  {
    hide Stages, WC;
    StageStep(bits, 0);
    o := [Assign(0, Xor(A(0), B(0)))];
    o := o + [Wire(WC(0), And(A(0), B(0)))];
    for i := 1 to bits
      invariant o == Stages(bits, i)
    {
      StageStep(bits, i);
      o := o + [Assign(i, Xor(Xor(A(i), B(i)), Ref(WC(i - 1))))];
      if i != bits - 1 {
        o := o + [Wire(WC(i), Or(And(A(i), B(i)), And(Ref(WC(i - 1)), Xor(A(i), B(i)))))];
      }
    }
  }

  /** After i bits: their sums are out, and the last carry is on its wire unless it was the last bit. */
  ghost predicate Rippled(st: State, a: seq<bool>, b: seq<bool>, i: nat)
    requires |a| == |b| && 1 <= i <= |a|
  {
    && (forall k :: k in st.outs <==> 0 <= k < i)
    && (forall k :: 0 <= k < i ==> st.outs[k] == SumBits(a, b)[k])
    && (i < |a| || i == 1 ==> WC(i - 1) in st.wires && st.wires[WC(i - 1)] == Carry(a, b, i))
    && (forall n :: n in st.wires ==> exists k: nat :: k < i && n == WC(k))
  }

  lemma StageValues(w: map<string, bool>, a: seq<bool>, b: seq<bool>, i: nat)
    requires |a| == |b| && 1 <= i < |a|
    requires WC(i - 1) in w && w[WC(i - 1)] == Carry(a, b, i)
    ensures Eval(Xor(Xor(A(i), B(i)), Ref(WC(i - 1))), a, b, w) == Some(SumBits(a, b)[i])
    ensures Eval(Or(And(A(i), B(i)), And(Ref(WC(i - 1)), Xor(A(i), B(i)))), a, b, w) == Some(Carry(a, b, i + 1))
  {
    hide WC;
    var x := Xor(A(i), B(i));
    assert Eval(x, a, b, w) == Some(a[i] != b[i]);
    var g, p := And(A(i), B(i)), And(Ref(WC(i - 1)), x);
    assert Eval(g, a, b, w) == Some(a[i] && b[i]);
    assert Eval(p, a, b, w) == Some(Carry(a, b, i) && (a[i] != b[i]));
  }

  lemma FirstStage(a: seq<bool>, b: seq<bool>) returns (st: State)
    requires |a| == |b| >= 1
    ensures Run(Stages(|a|, 1), a, b) == Some(st) && Rippled(st, a, b, 1)
  {
    hide WC;
    StageStep(|a|, 0);
    var first := Assign(0, Xor(A(0), B(0)));
    var carry := Wire(WC(0), And(A(0), B(0)));
    assert !Carry(a, b, 0);
    assert Eval(first.e, a, b, map[]) == Some(SumBits(a, b)[0]);
    assert Eval(carry.e, a, b, map[]) == Some(Carry(a, b, 1));
    RunSnoc([], first, a, b);
    assert [] + [first] == [first];
    RunSnoc([first], carry, a, b);
    st := State(map[WC(0) := Carry(a, b, 1)], map[0 := SumBits(a, b)[0]]);
  }

  lemma {:induction false} StagesRun(a: seq<bool>, b: seq<bool>, i: nat) returns (st: State)
    requires |a| == |b| && 1 <= i <= |a|
    ensures Run(Stages(|a|, i), a, b) == Some(st) && Rippled(st, a, b, i)
  {
    hide WC, Run, Eval, Stages, SumBits, Carry;
    if i == 1 {
      st := FirstStage(a, b);
    } else {
      var j := i - 1;
      st := StagesRun(a, b, j);
      StageStep(|a|, j);
      StageValues(st.wires, a, b, j);
      var line := Assign(j, Xor(Xor(A(j), B(j)), Ref(WC(j - 1))));
      RunSnoc(Stages(|a|, j), line, a, b);
      SumLength(a, b);
      st := st.(outs := st.outs[j := SumBits(a, b)[j]]);
      if j != |a| - 1 {
        var carry := Wire(WC(j), Or(And(A(j), B(j)), And(Ref(WC(j - 1)), Xor(A(j), B(j)))));
        RunSnoc(Stages(|a|, j) + [line], carry, a, b);
        forall k: nat | k < j ensures WC(k) != WC(j) { WCInjective(k, j); }
        st := st.(wires := st.wires[WC(j) := Carry(a, b, j + 1)]);
      } else {
        assert Stages(|a|, j) + [line] + [] == Stages(|a|, j) + [line];
      }
    }
  }

  lemma SumLength(a: seq<bool>, b: seq<bool>)
    requires |a| == |b|
    ensures |SumBits(a, b)| == |a|
  {
  }

  /** The ripple-carry circuit outputs the textbook sum. */
  lemma RcaSums(a: seq<bool>, b: seq<bool>)
    requires |a| == |b| >= 1
    ensures Output(Rca(|a|), a, b) == Some(SumBits(a, b))
  {
    hide Run, SumBits, Stages;
    var st := StagesRun(a, b, |a|);
    SumLength(a, b);
    assert seq(|a|, k requires 0 <= k < |a| => st.outs[k]) == SumBits(a, b);
  }

  /** The prefix adder and the ripple-carry adder of the same width agree on every input. */
  lemma AddersAgree(lg: nat, a: seq<bool>, b: seq<bool>)
    requires |a| == |b| == Pow2(lg)
    ensures Output(PrefixAdder.Ppa(lg), a, b) == Output(Rca(Pow2(lg)), a, b)
    ensures Output(PrefixAdder.Ppa(lg), a, b).Some?
  {
    hide Output, SumBits;
    PrefixAdder.PpaSums(lg, a, b);
    RcaSums(a, b);
  }

  lemma RcaWellFormed(bits: nat)
    requires bits >= 1
    ensures WellFormed(Rca(bits), bits)
    ensures forall k :: k in Assigned(Rca(bits)) <==> 0 <= k < bits
  {
    hide Run, SumBits, Stages, WellFormed, Assigned;
    var z := seq(bits, _ => false);
    var st := StagesRun(z, z, bits);
    RunsIffWellFormed(Rca(bits), z, z);
    assert st.outs.Keys == Assigned(Rca(bits));
  }
}
