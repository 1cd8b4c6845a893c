/** Gate-level netlists as the adder generators write them: wires declared by name, outputs assigned by index,
    an evaluator, and what it means for the lines to be well formed. */
module Netlist {
  import opened Arith
  import opened Options

  datatype Expr =
    | A(i: nat)
    | B(i: nat)
    | Ref(name: string)
    | Xor(l: Expr, r: Expr)
    | And(l: Expr, r: Expr)
    | Or(l: Expr, r: Expr)

  datatype Line =
    | Wire(name: string, e: Expr)
    | Assign(i: nat, e: Expr)

  datatype State = State(wires: map<string, bool>, outs: map<nat, bool>)

  /** The value of an expression; None for a wire not yet declared or an input bit that does not exist. */
  function Eval(e: Expr, a: seq<bool>, b: seq<bool>, wires: map<string, bool>): Option<bool> {
    match e
    case A(i) => if i < |a| then Some(a[i]) else None
    case B(i) => if i < |b| then Some(b[i]) else None
    case Ref(n) => if n in wires then Some(wires[n]) else None
    case Xor(l, r) =>
      var x, y := Eval(l, a, b, wires), Eval(r, a, b, wires);
      if x.Some? && y.Some? then Some(x.value != y.value) else None
    case And(l, r) =>
      var x, y := Eval(l, a, b, wires), Eval(r, a, b, wires);
      if x.Some? && y.Some? then Some(x.value && y.value) else None
    case Or(l, r) =>
      var x, y := Eval(l, a, b, wires), Eval(r, a, b, wires);
      if x.Some? && y.Some? then Some(x.value || y.value) else None
  }

  /** One more line; None when it declares a wire or assigns an output a second time. */
  function Step(st: State, line: Line, a: seq<bool>, b: seq<bool>): Option<State> {
    var v := Eval(line.e, a, b, st.wires);
    if v.None? then None
    else
      match line
      case Wire(n, _) => if n in st.wires then None else Some(st.(wires := st.wires[n := v.value]))
      case Assign(i, _) =>
        if i in st.outs || i >= |a| then None else Some(st.(outs := st.outs[i := v.value]))
  }

  function Run(lines: seq<Line>, a: seq<bool>, b: seq<bool>): Option<State> {
    if lines == [] then Some(State(map[], map[]))
    else
      var prev := Run(lines[..|lines| - 1], a, b);
      if prev.None? then None else Step(prev.value, lines[|lines| - 1], a, b)
  }

  lemma RunSnoc(lines: seq<Line>, line: Line, a: seq<bool>, b: seq<bool>)
    ensures Run(lines + [line], a, b)
         == (var prev := Run(lines, a, b); if prev.None? then None else Step(prev.value, line, a, b))
  {
    assert (lines + [line])[..|lines|] == lines;
  }

  // ---- Well-formedness, independent of any input value ----

  function Declared(lines: seq<Line>): set<string> {
    set k | 0 <= k < |lines| && lines[k].Wire? :: lines[k].name
  }

  function Assigned(lines: seq<Line>): set<nat> {
    set k | 0 <= k < |lines| && lines[k].Assign? :: lines[k].i
  }

  predicate Uses(e: Expr, declared: set<string>, bits: nat) {
    match e
    case A(i) => i < bits
    case B(i) => i < bits
    case Ref(n) => n in declared
    case Xor(l, r) => Uses(l, declared, bits) && Uses(r, declared, bits)
    case And(l, r) => Uses(l, declared, bits) && Uses(r, declared, bits)
    case Or(l, r) => Uses(l, declared, bits) && Uses(r, declared, bits)
  }

  /** Every line uses only wires declared before it, declares a new one, or drives an output not driven yet. */
  ghost predicate WellFormed(lines: seq<Line>, bits: nat) {
    forall k :: 0 <= k < |lines| ==> LineOk(lines, k, bits)
  }

  ghost predicate LineOk(lines: seq<Line>, k: nat, bits: nat)
    requires k < |lines|
  {
    && Uses(lines[k].e, Declared(lines[..k]), bits)
    && (lines[k].Wire? ==> lines[k].name !in Declared(lines[..k]))
    && (lines[k].Assign? ==> lines[k].i !in Assigned(lines[..k]) && lines[k].i < bits)
  }

  lemma {:induction false} EvalDefined(e: Expr, a: seq<bool>, b: seq<bool>, wires: map<string, bool>)
    requires |a| == |b|
    ensures Eval(e, a, b, wires).Some? <==> Uses(e, wires.Keys, |a|)
  {
    match e
    case A(i) =>
    case B(i) =>
    case Ref(n) =>
    case Xor(l, r) => EvalDefined(l, a, b, wires); EvalDefined(r, a, b, wires);
    case And(l, r) => EvalDefined(l, a, b, wires); EvalDefined(r, a, b, wires);
    case Or(l, r) => EvalDefined(l, a, b, wires); EvalDefined(r, a, b, wires);
  }

  lemma DeclaredSnoc(lines: seq<Line>)
    requires lines != []
    ensures var n := |lines| - 1;
            && Declared(lines) == Declared(lines[..n]) + (if lines[n].Wire? then {lines[n].name} else {})
            && Assigned(lines) == Assigned(lines[..n]) + (if lines[n].Assign? then {lines[n].i} else {})
  {
    var n := |lines| - 1;
    var init := lines[..n];
    assert forall k :: 0 <= k < n ==> init[k] == lines[k];
    assert Declared(lines) == Declared(init) + (if lines[n].Wire? then {lines[n].name} else {}) by {
      forall x | x in Declared(init) ensures x in Declared(lines) {
        var k :| 0 <= k < n && init[k].Wire? && init[k].name == x;
        assert lines[k].Wire? && lines[k].name == x;
      }
    }
    assert Assigned(lines) == Assigned(init) + (if lines[n].Assign? then {lines[n].i} else {}) by {
      forall x | x in Assigned(init) ensures x in Assigned(lines) {
        var k :| 0 <= k < n && init[k].Assign? && init[k].i == x;
        assert lines[k].Assign? && lines[k].i == x;
      }
    }
  }

  lemma WellFormedSnoc(lines: seq<Line>, bits: nat)
    requires lines != []
    ensures WellFormed(lines, bits) <==>
            WellFormed(lines[..|lines| - 1], bits) && LineOk(lines, |lines| - 1, bits)
  {
    var n := |lines| - 1;
    forall k | 0 <= k < n
      ensures LineOk(lines[..n], k, bits) <==> LineOk(lines, k, bits)
    {
      assert lines[..n][..k] == lines[..k];
    }
  }

  /** A netlist evaluates, on any inputs at all, exactly when it is well formed. */
  lemma {:induction false} RunsIffWellFormed(lines: seq<Line>, a: seq<bool>, b: seq<bool>)
    requires |a| == |b|
    ensures Run(lines, a, b).Some? <==> WellFormed(lines, |a|)
    ensures Run(lines, a, b).Some? ==>
              Run(lines, a, b).value.wires.Keys == Declared(lines)
              && Run(lines, a, b).value.outs.Keys == Assigned(lines)
  {
    if lines == [] {
    } else {
      var n := |lines| - 1;
      RunsIffWellFormed(lines[..n], a, b);
      WellFormedSnoc(lines, |a|);
      DeclaredSnoc(lines);
      var prev := Run(lines[..n], a, b);
      if prev.Some? {
        EvalDefined(lines[n].e, a, b, prev.value.wires);
      }
    }
  }

  // ---- Binary numbers ----

  /** The number whose bit k is s[k]. */
  function NatOf(s: seq<bool>): (v: int)
    ensures 0 <= v < Pow2(|s|)
  {
    if s == [] then 0
    else NatOf(s[..|s| - 1]) + if s[|s| - 1] then Pow2(|s| - 1) else 0
  }

  /** The outputs of a run, once every bit has been driven. */
  function Output(lines: seq<Line>, a: seq<bool>, b: seq<bool>): Option<seq<bool>> {
    var r := Run(lines, a, b);
    if r.Some? && forall k :: 0 <= k < |a| ==> k in r.value.outs
    then Some(seq(|a|, k requires 0 <= k < |a| => r.value.outs[k]))
    else None
  }

  // ---- The specification of an adder: carries by the textbook recurrence ----

  function Carry(a: seq<bool>, b: seq<bool>, i: nat): bool
    requires |a| == |b| && i <= |a|
  {
    if i == 0 then false
    else (a[i - 1] && b[i - 1]) || ((a[i - 1] != b[i - 1]) && Carry(a, b, i - 1))
  }

  function SumBits(a: seq<bool>, b: seq<bool>): seq<bool>
    requires |a| == |b|
  {
    seq(|a|, i requires 0 <= i < |a| => (a[i] != b[i]) != Carry(a, b, i))
  }

  lemma {:induction false} SumPrefix(a: seq<bool>, b: seq<bool>, i: nat)
    requires |a| == |b| && i <= |a|
    ensures NatOf(SumBits(a, b)[..i]) + (if Carry(a, b, i) then Pow2(i) else 0) == NatOf(a[..i]) + NatOf(b[..i])
  {
    if i == 0 {
    } else {
      SumPrefix(a, b, i - 1);
      var s := SumBits(a, b);
      assert s[..i][..i - 1] == s[..i - 1] && a[..i][..i - 1] == a[..i - 1] && b[..i][..i - 1] == b[..i - 1];
    }
  }

  /** The recurrence adds: the sum bits are the sum of the two numbers modulo 2^bits. */
  lemma SumBitsAdd(a: seq<bool>, b: seq<bool>)
    requires |a| == |b|
    ensures NatOf(SumBits(a, b)) == (NatOf(a) + NatOf(b)) % Pow2(|a|)
  {
    var s, n := SumBits(a, b), |a|;
    SumPrefix(a, b, n);
    assert s[..n] == s && a[..n] == a && b[..n] == b;
    ModUnique(NatOf(s), NatOf(a) + NatOf(b), if Carry(a, b, n) then 1 else 0, Pow2(n));
  }
}
