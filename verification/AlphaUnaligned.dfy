/** The idioms that the byte instructions exist for: unaligned loads and stores built from aligned quadwords
    (section 4.6 of the Alpha Architecture Handbook). */
module AlphaUnaligned {
  import opened AlphaBytes
  import opened AlphaMachine
  import opened Options

  // ---- Addresses ----

  /** Byte k from a lies in the quadword after that of a. */
  predicate Crosses(a: bv64, k: bv64) { Offset(a) + k >= 8 }

  /** n - 1, the offset of the last byte. */
  function Last(n: Size): bv64 {
    match n case Word => 1 case Long => 3 case Quad => 7
  }

  lemma StaysQuadBits(a: bv64, k: bv64)
    requires k < 8 && (a & 7) + k < 8
    ensures (a + k) & !7 == a & !7
  {
  }

  lemma StaysQuad(a: bv64, k: bv64)
    requires k < 8 && !Crosses(a, k)
    ensures Aligned(Plus(a, k)) == Aligned(a)
  {
    StaysQuadBits(a, k);
    assert Plus(a, k) == a + k;
    assert Aligned(a + k) == (a + k) & !7;
  }

  lemma StaysOffset(a: bv64, k: bv64)
    requires k < 8 && !Crosses(a, k)
    ensures Offset(Plus(a, k)) == Offset(a) + k
  {
  }

  lemma CrossesQuadBits(a: bv64, k: bv64)
    requires k < 8 && (a & 7) + k >= 8
    ensures (a + k) & !7 == (a & !7) + 8
  {
  }

  lemma CrossesQuad(a: bv64, k: bv64)
    requires k < 8 && Crosses(a, k)
    ensures Aligned(Plus(a, k)) == Plus(Aligned(a), 8)
  {
    CrossesQuadBits(a, k);
    assert Plus(a, k) == a + k;
    assert Aligned(a + k) == (a + k) & !7;
    assert Plus(Aligned(a), 8) == (a & !7) + 8;
  }

  lemma CrossesOffset(a: bv64, k: bv64)
    requires k < 8 && Crosses(a, k)
    ensures Offset(Plus(a, k)) == Offset(a) + k - 8
  {
  }

  lemma CrossesLater(a: bv64, k: bv64, l: bv64)
    requires k <= l < 8 && Crosses(a, k)
    ensures Crosses(a, l)
  {
  }

  lemma LastIs(n: Size)
    ensures Bytes(n) == Last(n) + 1 && Last(n) < 8
  {
  }

  lemma SameQuad(n: Size, a: bv64, k: bv64)
    requires k <= Last(n)
    ensures Aligned(Plus(a, k)) == if Crosses(a, k) then Aligned(Plus(a, Last(n))) else Aligned(a)
    ensures !Crosses(a, Last(n)) ==> Aligned(Plus(a, Last(n))) == Aligned(a)
  {
    hide Aligned, Plus, Crosses, Last;
    LastIs(n);
    if Crosses(a, k) {
      CrossesLater(a, k, Last(n));
      CrossesQuad(a, k);
      CrossesQuad(a, Last(n));
    } else {
      StaysQuad(a, k);
    }
    if !Crosses(a, Last(n)) {
      StaysQuad(a, Last(n));
    }
  }

  // ---- Translation ----

  lemma KsegAligned(p: bv64)
    ensures (p & !7) >= 0xffff_fc00_0000_0000 <==> p >= 0xffff_fc00_0000_0000
  {
  }

  lemma KsegQuad(p: bv64)
    ensures (p - 0xffff_fc00_0000_0000) & !7 == (p & !7) - 0xffff_fc00_0000_0000
  {
  }

  lemma KsegMinus(p: bv64)
    ensures Aligned(p - KSEG) == Aligned(p) - KSEG
  {
    KsegQuad(p);
    assert Aligned(p - KSEG) == (p - KSEG) & !7;
    assert Aligned(p) == p & !7;
  }

  lemma InKseg(p: bv64)
    ensures Aligned(p) >= KSEG <==> p >= KSEG
  {
    KsegAligned(p);
    assert Aligned(p) == p & !7;
  }

  lemma XlateAligned(sys: bool, p: bv64)
    ensures Aligned(Xlate(sys, p)) == Xlate(sys, Aligned(p))
  {
    hide Aligned;
    InKseg(p);
    if sys && p >= KSEG {
      KsegMinus(p);
    }
  }

  lemma XlateOffset(sys: bool, p: bv64)
    ensures Offset(Xlate(sys, p)) == Offset(p)
  {
    if sys && p >= KSEG {} else {}
  }

  lemma XlateNext(sys: bool, q: bv64)
    ensures Xlate(sys, Plus(q, 8)) != Xlate(sys, q)
  {
    assert Plus(q, 8) == q + 8;
  }

  // ---- Bytes in memory ----

  /** The quadwords that the two aligned accesses touch. */
  function LowQuad(sys: bool, a: bv64): bv64 { Xlate(sys, Aligned(a)) }
  function HighQuad(n: Size, sys: bool, a: bv64): bv64 { Xlate(sys, Aligned(Plus(a, Last(n)))) }

  lemma ByteFrom(n: Size, m: Memory, sys: bool, a: bv64, k: bv64)
    requires k <= Last(n)
    ensures ByteAt(m, Xlate(sys, Plus(a, k)))
         == Byte(m(if Crosses(a, k) then HighQuad(n, sys, a) else LowQuad(sys, a)), Offset(Plus(a, k)))
    ensures !Crosses(a, Last(n)) ==> HighQuad(n, sys, a) == LowQuad(sys, a)
  {
    hide Aligned, Plus, Crosses, Xlate, Byte, Offset, Last;
    SameQuad(n, a, k);
    XlateAligned(sys, Plus(a, k));
    XlateOffset(sys, Plus(a, k));
  }

  lemma LoadedByte(n: Size, m: Memory, sys: bool, a: bv64, k: bv64)
    requires k < 8
    ensures var lo, hi := m(LowQuad(sys, a)), m(HighQuad(n, sys, a));
            Byte(Extl(n, lo, Offset(a)) | Exth(n, hi, Offset(a)), k)
            == if k <= Last(n) then ByteAt(m, Xlate(sys, Plus(a, k))) else 0
  {
    hide Aligned, Plus, Xlate, Byte, ByteAt, Offset, Last, Extl, Exth, Extracted, LowQuad, HighQuad;
    var bn := Offset(a);
    var lo, hi := m(LowQuad(sys, a)), m(HighQuad(n, sys, a));
    LastIs(n);
    ByteFrom(n, m, sys, a, if k <= Last(n) then k else 0);
    ExtractIs(n, lo, hi, bn);
    ExtractedByte(n, lo, hi, bn, k);
    if k <= Last(n) {
      if Crosses(a, k) {
        CrossesOffset(a, k);
      } else {
        StaysOffset(a, k);
      }
    }
  }

  /** Memory after the high and then the low quadword are rewritten. */
  function Stored(n: Size, m: Memory, sys: bool, a: bv64, v: bv64): Memory {
    var lq, hq := LowQuad(sys, a), HighQuad(n, sys, a);
    var bn := Offset(a);
    StoreQuad(StoreQuad(m, hq, Or(Insh(n, v, bn), Mskh(n, m(hq), bn))), lq, Or(Insl(n, v, bn), Mskl(n, m(lq), bn)))
  }

  /** The quadwords afterwards, byte by byte. */
  function NewByte(n: Size, m: Memory, sys: bool, a: bv64, v: bv64, q: bv64, j: bv64): bv8
    requires j < 8
  {
    if q == LowQuad(sys, a) then LowPart(n, m(q), v, Offset(a), j)
    else if q == HighQuad(n, sys, a) then HighPart(n, m(q), v, Offset(a), j)
    else Byte(m(q), j)
  }

  lemma Commutes(x: bv64, y: bv64)
    ensures Or(x, y) == y | x
  {
  }

  lemma StoredIs(n: Size, m: Memory, sys: bool, a: bv64, v: bv64, q: bv64, j: bv64)
    requires j < 8
    ensures Byte(Stored(n, m, sys, a, v)(q), j) == NewByte(n, m, sys, a, v, q, j)
  {
    hide Byte, Or, Offset, Insl, Insh, Mskl, Mskh, LowQuad, HighQuad, LowPart, HighPart;
    var lq, hq := LowQuad(sys, a), HighQuad(n, sys, a);
    var bn := Offset(a);
    LowByte(n, m(lq), v, bn, j);
    HighByte(n, m(hq), v, bn, j);
    Commutes(Insl(n, v, bn), Mskl(n, m(lq), bn));
    Commutes(Insh(n, v, bn), Mskh(n, m(hq), bn));
  }

  lemma SamePlace(p: bv64, r: bv64)
    requires Aligned(p) == Aligned(r) && Offset(p) == Offset(r)
    ensures p == r
  {
  }

  lemma HighDiffers(n: Size, sys: bool, a: bv64, k: bv64)
    requires k <= Last(n) && Crosses(a, k)
    ensures HighQuad(n, sys, a) != LowQuad(sys, a)
  {
    hide Aligned, Plus, Crosses, Xlate, Last;
    LastIs(n);
    CrossesLater(a, k, Last(n));
    CrossesQuad(a, Last(n));
    XlateNext(sys, Aligned(a));
  }

  lemma InLow(bn: bv64, k: bv64, n: Size)
    requires bn < 8 && k <= Last(n) && bn + k < 8
    ensures bn <= bn + k && bn + k - bn == k && k < Bytes(n)
  {
  }

  lemma InHigh(bn: bv64, k: bv64, n: Size)
    requires bn < 8 && k <= Last(n) && bn + k >= 8
    ensures (bn + k - 8) + 8 < bn + Bytes(n) && (bn + k - 8) + 8 - bn == k
  {
  }

  /** The n bytes at a become the low n bytes of v, lowest first. */
  lemma StoredByte(n: Size, m: Memory, sys: bool, a: bv64, v: bv64, k: bv64)
    requires k <= Last(n)
    ensures ByteAt(Stored(n, m, sys, a, v), Xlate(sys, Plus(a, k))) == Byte(v, k)
  {
    hide Aligned, Plus, Xlate, Byte, Offset, Last, Bytes, LowQuad, HighQuad, Stored;
    LastIs(n);
    var bn := Offset(a);
    ByteFrom(n, m, sys, a, k);
    ByteFrom(n, Stored(n, m, sys, a, v), sys, a, k);
    if Crosses(a, k) {
      HighDiffers(n, sys, a, k);
      CrossesOffset(a, k);
      InHigh(bn, k, n);
      StoredIs(n, m, sys, a, v, HighQuad(n, sys, a), bn + k - 8);
    } else {
      StaysOffset(a, k);
      InLow(bn, k, n);
      StoredIs(n, m, sys, a, v, LowQuad(sys, a), bn + k);
    }
  }

  lemma LowIndex(n: Size, bn: bv64, j: bv64)
    requires bn < 8 && bn <= j < 8 && j - bn < Bytes(n)
    ensures j - bn <= Last(n) && bn + (j - bn) < 8 && bn + (j - bn) == j
  {
  }

  lemma HighIndex(n: Size, bn: bv64, j: bv64)
    requires bn < 8 && j < 8 && j + 8 < bn + Bytes(n)
    ensures j + 8 - bn <= Last(n) && bn + (j + 8 - bn) >= 8 && bn + (j + 8 - bn) - 8 == j
  {
  }

  /** A byte of the low quadword that changes is one of the n bytes at a ... */
  lemma LowCovered(n: Size, sys: bool, a: bv64, p: bv64, k: bv64)
    requires k <= Last(n) && !Crosses(a, k) && Aligned(p) == LowQuad(sys, a) && Offset(p) == Offset(a) + k
    ensures p == Xlate(sys, Plus(a, k))
  {
    hide Aligned, Plus, Crosses, Xlate, Offset, Last;
    var r := Xlate(sys, Plus(a, k));
    LastIs(n);
    SameQuad(n, a, k);
    StaysOffset(a, k);
    XlateAligned(sys, Plus(a, k));
    XlateOffset(sys, Plus(a, k));
    SamePlace(p, r);
  }

  /** ... and so is one of the high quadword. */
  lemma HighCovered(n: Size, sys: bool, a: bv64, p: bv64, k: bv64)
    requires k <= Last(n) && Crosses(a, k) && Aligned(p) == HighQuad(n, sys, a) && Offset(p) == Offset(a) + k - 8
    ensures p == Xlate(sys, Plus(a, k))
  {
    hide Aligned, Plus, Crosses, Xlate, Offset, Last;
    var r := Xlate(sys, Plus(a, k));
    LastIs(n);
    SameQuad(n, a, k);
    CrossesOffset(a, k);
    XlateAligned(sys, Plus(a, k));
    XlateOffset(sys, Plus(a, k));
    SamePlace(p, r);
  }

  ghost predicate Outside(n: Size, sys: bool, a: bv64, p: bv64) {
    forall k :: k <= Last(n) ==> p != Xlate(sys, Plus(a, k))
  }

  lemma LowKept(n: Size, x: bv64, sys: bool, a: bv64, v: bv64, p: bv64)
    requires Outside(n, sys, a, p) && Aligned(p) == LowQuad(sys, a)
    ensures LowPart(n, x, v, Offset(a), Offset(p)) == Byte(x, Offset(p))
  {
    hide Aligned, Plus, Xlate, Byte, Offset, Last, Bytes, LowQuad;
    var bn, j := Offset(a), Offset(p);
    if bn <= j && j - bn < Bytes(n) {
      LowIndex(n, bn, j);
      LowCovered(n, sys, a, p, j - bn);
    }
  }

  lemma HighKept(n: Size, x: bv64, sys: bool, a: bv64, v: bv64, p: bv64)
    requires Outside(n, sys, a, p) && Aligned(p) == HighQuad(n, sys, a)
    ensures HighPart(n, x, v, Offset(a), Offset(p)) == Byte(x, Offset(p))
  {
    hide Aligned, Plus, Xlate, Byte, Offset, Last, Bytes, HighQuad;
    var bn, j := Offset(a), Offset(p);
    if j + 8 < bn + Bytes(n) {
      HighIndex(n, bn, j);
      HighCovered(n, sys, a, p, j + 8 - bn);
    }
  }

  /** No other byte of memory changes. */
  lemma OtherByte(n: Size, m: Memory, sys: bool, a: bv64, v: bv64, p: bv64)
    requires Outside(n, sys, a, p)
    ensures ByteAt(Stored(n, m, sys, a, v), p) == ByteAt(m, p)
  {
    hide Aligned, Byte, Offset, LowQuad, HighQuad, Stored, LowPart, HighPart, Outside;
    var q := Aligned(p);
    StoredIs(n, m, sys, a, v, q, Offset(p));
    if q == LowQuad(sys, a) {
      LowKept(n, m(q), sys, a, v, p);
    } else if q == HighQuad(n, sys, a) {
      HighKept(n, m(q), sys, a, v, p);
    }
  }

  // ---- The programs ----

  datatype ByteOp = ExtLow | ExtHigh | InsLow | InsHigh | MskLow | MskHigh

  /** The function codes of the INTS group. */
  function Code(op: ByteOp, n: Size): nat {
    match op
    case ExtLow => (match n case Word => 0x16 case Long => 0x26 case Quad => 0x36)
    case ExtHigh => (match n case Word => 0x5a case Long => 0x6a case Quad => 0x7a)
    case InsLow => (match n case Word => 0x1b case Long => 0x2b case Quad => 0x3b)
    case InsHigh => (match n case Word => 0x57 case Long => 0x67 case Quad => 0x77)
    case MskLow => (match n case Word => 0x12 case Long => 0x22 case Quad => 0x32)
    case MskHigh => (match n case Word => 0x52 case Long => 0x62 case Quad => 0x72)
  }

  function Apply(op: ByteOp, n: Size, rav: bv64, bn: bv64): bv64
    requires bn < 8
  {
    match op
    case ExtLow => Extl(n, rav, bn)
    case ExtHigh => Exth(n, rav, bn)
    case InsLow => Insl(n, rav, bn)
    case InsHigh => Insh(n, rav, bn)
    case MskLow => Mskl(n, rav, bn)
    case MskHigh => Mskh(n, rav, bn)
  }

  /** extql alone has no mask. */
  lemma DownIsExtlQuad(rav: bv64, bn: bv64)
    requires bn < 8
    ensures Down(rav, bn) == Extl(Quad, rav, bn)
  {
    hide Down;
  }

  lemma ExtLowDecoded(n: Size, rav: bv64, rbv: bv64)
    ensures Ints(Code(ExtLow, n), rav, rbv) == Some(Apply(ExtLow, n, rav, Offset(rbv)))
  {
    hide Extl, Exth, Insl, Insh, Mskl, Mskh, Offset, Down, Mskb, Extb, Insb, Zap, Zapnot, Srl, Sll, Sra;
    DownIsExtlQuad(rav, Offset(rbv));
    match n case Word => case Long => case Quad =>
  }

  lemma ExtHighDecoded(n: Size, rav: bv64, rbv: bv64)
    ensures Ints(Code(ExtHigh, n), rav, rbv) == Some(Apply(ExtHigh, n, rav, Offset(rbv)))
  {
    hide Extl, Exth, Insl, Insh, Mskl, Mskh, Offset, Down, Mskb, Extb, Insb, Zap, Zapnot, Srl, Sll, Sra;
    match n case Word => case Long => case Quad =>
  }

  lemma InsLowDecoded(n: Size, rav: bv64, rbv: bv64)
    ensures Ints(Code(InsLow, n), rav, rbv) == Some(Apply(InsLow, n, rav, Offset(rbv)))
  {
    hide Extl, Exth, Insl, Insh, Mskl, Mskh, Offset, Down, Mskb, Extb, Insb, Zap, Zapnot, Srl, Sll, Sra;
    match n case Word => case Long => case Quad =>
  }

  lemma InsHighDecoded(n: Size, rav: bv64, rbv: bv64)
    ensures Ints(Code(InsHigh, n), rav, rbv) == Some(Apply(InsHigh, n, rav, Offset(rbv)))
  {
    hide Extl, Exth, Insl, Insh, Mskl, Mskh, Offset, Down, Mskb, Extb, Insb, Zap, Zapnot, Srl, Sll, Sra;
    match n case Word => case Long => case Quad =>
  }

  lemma MskLowDecoded(n: Size, rav: bv64, rbv: bv64)
    ensures Ints(Code(MskLow, n), rav, rbv) == Some(Apply(MskLow, n, rav, Offset(rbv)))
  {
    hide Extl, Exth, Insl, Insh, Mskl, Mskh, Offset, Down, Mskb, Extb, Insb, Zap, Zapnot, Srl, Sll, Sra;
    match n case Word => case Long => case Quad =>
  }

  lemma MskHighDecoded(n: Size, rav: bv64, rbv: bv64)
    ensures Ints(Code(MskHigh, n), rav, rbv) == Some(Apply(MskHigh, n, rav, Offset(rbv)))
  {
    hide Extl, Exth, Insl, Insh, Mskl, Mskh, Offset, Down, Mskb, Extb, Insb, Zap, Zapnot, Srl, Sll, Sra;
    match n case Word => case Long => case Quad =>
  }

  lemma Decoded(op: ByteOp, n: Size, rav: bv64, rbv: bv64)
    ensures Ints(Code(op, n), rav, rbv) == Some(Apply(op, n, rav, Offset(rbv)))
  {
    hide Ints, Code, Apply, Offset;
    match op
    case ExtLow => ExtLowDecoded(n, rav, rbv);
    case ExtHigh => ExtHighDecoded(n, rav, rbv);
    case InsLow => InsLowDecoded(n, rav, rbv);
    case InsHigh => InsHighDecoded(n, rav, rbv);
    case MskLow => MskLowDecoded(n, rav, rbv);
    case MskHigh => MskHighDecoded(n, rav, rbv);
  }

  /** ldq_u t1,0(b); ldq_u t2,n-1(b); extxl t1,b,t1; extxh t2,b,t2; bis t1,t2,t1 */
  function LoadProgram(n: Size, b: Register, t1: Register, t2: Register): Program {
    Then(LdqU(t1, b, 0),
    Then(LdqU(t2, b, Last(n)),
    Then(IntS(Code(ExtLow, n), t1, InReg(b), t1),
    Then(IntS(Code(ExtHigh, n), t2, InReg(b), t2),
    Then(Bis(t1, InReg(t2), t1), Done)))))
  }

  function After(c: Core, r: Register, x: bv64): Core { c.(gpr := ClearZero(c.gpr[r := x])) }

  lemma PlusZero(a: bv64)
    ensures Plus(a, 0) == a
  {
  }

  lemma LoadQuads(n: Size, b: Register, t: Register, c: Core, sys: bool)
    ensures Follows(LdqU(t, b, 0), c, After(c, t, c.mem(LowQuad(sys, c.gpr[b]))), sys)
    ensures Follows(LdqU(t, b, Last(n)), c, After(c, t, c.mem(HighQuad(n, sys, c.gpr[b]))), sys)
  {
    hide Aligned, Xlate, Last, Plus;
    PlusZero(c.gpr[b]);
  }

  lemma ByteInsn(op: ByteOp, n: Size, ra: Register, b: Register, rc: Register, c: Core, sys: bool)
    ensures Follows(IntS(Code(op, n), ra, InReg(b), rc), c,
                    After(c, rc, Apply(op, n, c.gpr[ra], Offset(c.gpr[b]))), sys)
  {
    hide Ints, Offset, Apply, Code;
    Decoded(op, n, c.gpr[ra], c.gpr[b]);
  }

  lemma OrInsn(ra: Register, rb: Register, rc: Register, c: Core, sys: bool)
    ensures Follows(Bis(ra, InReg(rb), rc), c, After(c, rc, Or(c.gpr[ra], c.gpr[rb])), sys)
  {
    hide Or;
  }

  lemma Reads(c: Core, r: Register, x: bv64)
    requires r != 31
    ensures After(c, r, x).mem == c.mem
    ensures After(c, r, x).gpr[r] == x
    ensures forall s: Register :: s != 31 && s != r ==> After(c, r, x).gpr[s] == c.gpr[s]
  {
  }

  function Loaded(n: Size, m: Memory, sys: bool, a: bv64): bv64 {
    Or(Extl(n, m(LowQuad(sys, a)), Offset(a)), Exth(n, m(HighQuad(n, sys, a)), Offset(a)))
  }

  lemma LoadRuns(n: Size, b: Register, t1: Register, t2: Register, c: Core, sys: bool)
    requires b != t1 && b != t2 && t1 != t2 && b != 31 && t1 != 31 && t2 != 31
    ensures var r := Execute(LoadProgram(n, b, t1, t2), c, sys);
            r.Some? && r.value.mem == c.mem && r.value.gpr[t1] == Loaded(n, c.mem, sys, c.gpr[b])
  {
    hide Last, LowQuad, HighQuad, Offset, Extl, Exth, Or, Follows, Execute, Code, After;
    var a := c.gpr[b];
    var lo, hi := c.mem(LowQuad(sys, a)), c.mem(HighQuad(n, sys, a));
    var x, y := Extl(n, lo, Offset(a)), Exth(n, hi, Offset(a));
    var c1 := After(c, t1, lo);
    var c2 := After(c1, t2, hi);
    var c3 := After(c2, t1, x);
    var c4 := After(c3, t2, y);
    var c5 := After(c4, t1, Or(x, y));
    LoadQuads(n, b, t1, c, sys);
    Reads(c, t1, lo);
    LoadQuads(n, b, t2, c1, sys);
    Reads(c1, t2, hi);
    ByteInsn(ExtLow, n, t1, b, t1, c2, sys);
    Reads(c2, t1, x);
    ByteInsn(ExtHigh, n, t2, b, t2, c3, sys);
    Reads(c3, t2, y);
    OrInsn(t1, t2, t1, c4, sys);
    Reads(c4, t1, Or(x, y));
    var p5 := Then(Bis(t1, InReg(t2), t1), Done);
    var p4 := Then(IntS(Code(ExtHigh, n), t2, InReg(b), t2), p5);
    var p3 := Then(IntS(Code(ExtLow, n), t1, InReg(b), t1), p4);
    var p2 := Then(LdqU(t2, b, Last(n)), p3);
    ExecuteThen(LdqU(t1, b, 0), p2, c, c1, sys);
    ExecuteThen(p2.first, p3, c1, c2, sys);
    ExecuteThen(p3.first, p4, c2, c3, sys);
    ExecuteThen(p4.first, p5, c3, c4, sys);
    ExecuteThen(p5.first, Done, c4, c5, sys);
    ExecuteDone(c5, sys);
  }

  lemma ExecuteDone(c: Core, sys: bool)
    ensures Execute(Done, c, sys) == Some(c)
  {
  }

  lemma LastBound(n: Size, k: bv64)
    ensures k < Bytes(n) <==> k <= Last(n)
  {
  }

  lemma LoadedOr(n: Size, m: Memory, sys: bool, a: bv64)
    ensures Loaded(n, m, sys, a)
         == Extl(n, m(LowQuad(sys, a)), Offset(a)) | Exth(n, m(HighQuad(n, sys, a)), Offset(a))
  {
    hide LowQuad, HighQuad, Offset, Extl, Exth;
  }

  /** The unaligned load: the register holds the n bytes at the address in b, lowest first, and zeros above. */
  lemma UnalignedLoad(n: Size, b: Register, t1: Register, t2: Register, c: Core, sys: bool, k: bv64)
    requires b != t1 && b != t2 && t1 != t2 && b != 31 && t1 != 31 && t2 != 31
    requires k < 8
    ensures var r := Execute(LoadProgram(n, b, t1, t2), c, sys);
            && r.Some?
            && r.value.mem == c.mem
            && Byte(r.value.gpr[t1], k) == if k < Bytes(n) then ByteAt(c.mem, Xlate(sys, Plus(c.gpr[b], k))) else 0
  {
    hide Plus, Xlate, Byte, ByteAt, Last, Bytes, LowQuad, HighQuad, Offset, Extl, Exth, Execute, LoadProgram, Loaded;
    LoadRuns(n, b, t1, t2, c, sys);
    LoadedOr(n, c.mem, sys, c.gpr[b]);
    LoadedByte(n, c.mem, sys, c.gpr[b], k);
    LastBound(n, k);
  }

  /** ldq_u t1,n-1(b); ldq_u t2,0(b); insxh v,b,t3; insxl v,b,t4; mskxh t1,b,t1; mskxl t2,b,t2; bis t3,t1,t1;
      bis t4,t2,t2; stq_u t1,n-1(b); stq_u t2,0(b): the high quadword first, so that the low one wins when they are the
      same. */
  function StoreProgram(n: Size, v: Register, b: Register,
                        t1: Register, t2: Register, t3: Register, t4: Register): Program {
    Then(LdqU(t1, b, Last(n)),
    Then(LdqU(t2, b, 0),
    Then(IntS(Code(InsHigh, n), v, InReg(b), t3),
    Then(IntS(Code(InsLow, n), v, InReg(b), t4),
    Then(IntS(Code(MskHigh, n), t1, InReg(b), t1),
    MergeProgram(n, b, t1, t2, t3, t4))))))
  }

  function MergeProgram(n: Size, b: Register, t1: Register, t2: Register, t3: Register, t4: Register): Program {
    Then(IntS(Code(MskLow, n), t2, InReg(b), t2),
    Then(Bis(t3, InReg(t1), t1),
    Then(Bis(t4, InReg(t2), t2),
    Then(StqU(t1, b, Last(n)),
    Then(StqU(t2, b, 0), Done)))))
  }

  predicate StoreRegisters(v: Register, b: Register, t1: Register, t2: Register, t3: Register, t4: Register) {
    && b != 31 && v != 31 && t1 != 31 && t2 != 31 && t3 != 31 && t4 != 31
    && b !in [t1, t2, t3, t4] && v !in [t1, t2, t3, t4]
    && t1 !in [t2, t3, t4] && t2 !in [t3, t4] && t3 != t4
  }

  function Put(c: Core, q: bv64, x: bv64): Core {
    c.(mem := StoreQuad(c.mem, q, x), gpr := ClearZero(c.gpr))
  }

  lemma PutReads(c: Core, q: bv64, x: bv64)
    ensures Put(c, q, x).mem == StoreQuad(c.mem, q, x)
    ensures forall s: Register :: s != 31 ==> Put(c, q, x).gpr[s] == c.gpr[s]
  {
  }

  lemma StoreQuads(n: Size, b: Register, t: Register, c: Core, sys: bool)
    ensures Follows(StqU(t, b, 0), c, Put(c, LowQuad(sys, c.gpr[b]), c.gpr[t]), sys)
    ensures Follows(StqU(t, b, Last(n)), c, Put(c, HighQuad(n, sys, c.gpr[b]), c.gpr[t]), sys)
  {
    hide Aligned, Xlate, Last, Plus, StoreQuad;
    PlusZero(c.gpr[b]);
  }

  lemma MergeRuns(n: Size, b: Register, t1: Register, t2: Register, t3: Register, t4: Register, c: Core, sys: bool)
    requires StoreRegisters(b, b, t1, t2, t3, t4)
    ensures var r := Execute(MergeProgram(n, b, t1, t2, t3, t4), c, sys);
            && r.Some?
            && var a := c.gpr[b];
               r.value.mem == StoreQuad(StoreQuad(c.mem, HighQuad(n, sys, a), Or(c.gpr[t3], c.gpr[t1])),
                                        LowQuad(sys, a), Or(c.gpr[t4], Mskl(n, c.gpr[t2], Offset(a))))
  {
    hide Last, LowQuad, HighQuad, Offset, Mskl, Or, Follows, Execute, Code, After, Put, StoreQuad;
    var a := c.gpr[b];
    var lm := Mskl(n, c.gpr[t2], Offset(a));
    var hi, lo := Or(c.gpr[t3], c.gpr[t1]), Or(c.gpr[t4], lm);
    var c1 := After(c, t2, lm);
    var c2 := After(c1, t1, hi);
    var c3 := After(c2, t2, lo);
    var c4 := Put(c3, HighQuad(n, sys, a), hi);
    var c5 := Put(c4, LowQuad(sys, a), lo);
    ByteInsn(MskLow, n, t2, b, t2, c, sys);
    Reads(c, t2, lm);
    OrInsn(t3, t1, t1, c1, sys);
    Reads(c1, t1, hi);
    OrInsn(t4, t2, t2, c2, sys);
    Reads(c2, t2, lo);
    StoreQuads(n, b, t1, c3, sys);
    PutReads(c3, HighQuad(n, sys, a), hi);
    StoreQuads(n, b, t2, c4, sys);
    PutReads(c4, LowQuad(sys, a), lo);
    var p5 := Then(StqU(t2, b, 0), Done);
    var p4 := Then(StqU(t1, b, Last(n)), p5);
    var p3 := Then(Bis(t4, InReg(t2), t2), p4);
    var p2 := Then(Bis(t3, InReg(t1), t1), p3);
    ExecuteThen(IntS(Code(MskLow, n), t2, InReg(b), t2), p2, c, c1, sys);
    ExecuteThen(p2.first, p3, c1, c2, sys);
    ExecuteThen(p3.first, p4, c2, c3, sys);
    ExecuteThen(p4.first, p5, c3, c4, sys);
    ExecuteThen(p5.first, Done, c4, c5, sys);
    ExecuteDone(c5, sys);
  }

  lemma StoreRuns(n: Size, v: Register, b: Register, t1: Register, t2: Register, t3: Register, t4: Register,
                  c: Core, sys: bool)
    requires StoreRegisters(v, b, t1, t2, t3, t4)
    ensures var r := Execute(StoreProgram(n, v, b, t1, t2, t3, t4), c, sys);
            r.Some? && r.value.mem == Stored(n, c.mem, sys, c.gpr[b], c.gpr[v])
  {
    hide Last, LowQuad, HighQuad, Offset, Insl, Insh, Mskl, Mskh, Or, Follows, Execute, Code, After, StoreQuad,
         MergeProgram;
    var a, x := c.gpr[b], c.gpr[v];
    var bn := Offset(a);
    var hi, lo := c.mem(HighQuad(n, sys, a)), c.mem(LowQuad(sys, a));
    var ih, il, mh := Insh(n, x, bn), Insl(n, x, bn), Mskh(n, hi, bn);
    var c1 := After(c, t1, hi);
    var c2 := After(c1, t2, lo);
    var c3 := After(c2, t3, ih);
    var c4 := After(c3, t4, il);
    var c5 := After(c4, t1, mh);
    LoadQuads(n, b, t1, c, sys);
    Reads(c, t1, hi);
    LoadQuads(n, b, t2, c1, sys);
    Reads(c1, t2, lo);
    ByteInsn(InsHigh, n, v, b, t3, c2, sys);
    Reads(c2, t3, ih);
    ByteInsn(InsLow, n, v, b, t4, c3, sys);
    Reads(c3, t4, il);
    ByteInsn(MskHigh, n, t1, b, t1, c4, sys);
    Reads(c4, t1, mh);
    MergeRuns(n, b, t1, t2, t3, t4, c5, sys);
    var p6 := MergeProgram(n, b, t1, t2, t3, t4);
    var p5 := Then(IntS(Code(MskHigh, n), t1, InReg(b), t1), p6);
    var p4 := Then(IntS(Code(InsLow, n), v, InReg(b), t4), p5);
    var p3 := Then(IntS(Code(InsHigh, n), v, InReg(b), t3), p4);
    var p2 := Then(LdqU(t2, b, 0), p3);
    ExecuteThen(LdqU(t1, b, Last(n)), p2, c, c1, sys);
    ExecuteThen(p2.first, p3, c1, c2, sys);
    ExecuteThen(p3.first, p4, c2, c3, sys);
    ExecuteThen(p4.first, p5, c3, c4, sys);
    ExecuteThen(p5.first, p6, c4, c5, sys);
  }

  /** The unaligned store: the n bytes at the address in b become the low n bytes of v, lowest first ... */
  lemma UnalignedStoreWrites(n: Size, v: Register, b: Register, t1: Register, t2: Register, t3: Register, t4: Register,
                             c: Core, sys: bool, k: bv64)
    requires StoreRegisters(v, b, t1, t2, t3, t4)
    requires k < Bytes(n)
    ensures var r := Execute(StoreProgram(n, v, b, t1, t2, t3, t4), c, sys);
            r.Some? && ByteAt(r.value.mem, Xlate(sys, Plus(c.gpr[b], k))) == Byte(c.gpr[v], k)
  {
    hide Plus, Xlate, Byte, ByteAt, Last, Bytes, Execute, StoreProgram, Stored;
    StoreRuns(n, v, b, t1, t2, t3, t4, c, sys);
    LastBound(n, k);
    StoredByte(n, c.mem, sys, c.gpr[b], c.gpr[v], k);
  }

  /** ... and no other byte of memory changes. */
  lemma UnalignedStoreKeeps(n: Size, v: Register, b: Register, t1: Register, t2: Register, t3: Register, t4: Register,
                            c: Core, sys: bool, p: bv64)
    requires StoreRegisters(v, b, t1, t2, t3, t4)
    requires forall k :: k < Bytes(n) ==> p != Xlate(sys, Plus(c.gpr[b], k))
    ensures var r := Execute(StoreProgram(n, v, b, t1, t2, t3, t4), c, sys);
            r.Some? && ByteAt(r.value.mem, p) == ByteAt(c.mem, p)
  {
    hide Plus, Xlate, ByteAt, Last, Bytes, Execute, StoreProgram, Stored;
    StoreRuns(n, v, b, t1, t2, t3, t4, c, sys);
    forall k | k <= Last(n)
      ensures p != Xlate(sys, Plus(c.gpr[b], k))
    {
      LastBound(n, k);
    }
    OtherByte(n, c.mem, sys, c.gpr[b], c.gpr[v], p);
  }
}
