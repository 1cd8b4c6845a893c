/** The wire names of the prefix network: the names of a span of bits, highest first, joined by '_'. */
module WireNames {

  /** str(n). */
  function Dec(n: nat): (s: string)
    ensures s != [] && forall k :: 0 <= k < |s| ==> IsDigit(s[k])
  {
    if n < 10 then ["0123456789"[n]] else Dec(n / 10) + ["0123456789"[n % 10]]
  }

  predicate IsDigit(c: char) {
    '0' <= c <= '9'
  }

  function Value(s: string): int {
    if s == [] then 0 else 10 * Value(s[..|s| - 1]) + (s[|s| - 1] as int - '0' as int)
  }

  lemma {:induction false} ValueOfDec(n: nat)
    ensures Value(Dec(n)) == n
  {
    if n < 10 {
      assert Dec(n)[..0] == [];
    } else {
      ValueOfDec(n / 10);
      var s := Dec(n);
      assert s[..|s| - 1] == Dec(n / 10);
    }
  }

  predicate StartsWithDigit(s: string) {
    s != [] && IsDigit(s[0])
  }

  function LeadingDigits(s: string): nat {
    if StartsWithDigit(s) then 1 + LeadingDigits(s[1..]) else 0
  }

  lemma {:induction false} CountDigits(x: string, r: string)
    requires forall k :: 0 <= k < |x| ==> IsDigit(x[k])
    requires !StartsWithDigit(r)
    ensures LeadingDigits(x + r) == |x|
  {
    if x == [] {
      assert x + r == r;
    } else {
      CountDigits(x[1..], r);
      assert (x + r)[1..] == x[1..] + r;
    }
  }

  /** Digits followed by something that is not a digit can be read back in one way only. */
  lemma DigitsThenRest(x: string, r: string, y: string, s: string)
    requires forall k :: 0 <= k < |x| ==> IsDigit(x[k])
    requires forall k :: 0 <= k < |y| ==> IsDigit(y[k])
    requires !StartsWithDigit(r) && !StartsWithDigit(s)
    requires x + r == y + s
    ensures x == y && r == s
  {
    CountDigits(x, r);
    CountDigits(y, s);
    assert (x + r)[..|x|] == x && (y + s)[..|y|] == y;
    assert (x + r)[|x|..] == r && (y + s)[|y|..] == s;
  }

  datatype Kind = Propagate | Generate

  function Prefix(k: Kind): string {
    if k.Propagate? then "pp_" else "gg_"
  }

  lemma PrefixKind(k: Kind, k': Kind)
    ensures |Prefix(k)| == 3
    ensures Prefix(k) == Prefix(k') ==> k == k'
  {
    assert Prefix(k)[0] == if k.Propagate? then 'p' else 'g';
    assert Prefix(k')[0] == if k'.Propagate? then 'p' else 'g';
  }

  /** The name of the signal for bits lo..hi. */
  function Name(k: Kind, hi: nat, lo: nat): (s: string)
    requires lo <= hi
    ensures |s| >= 3 && s[..3] == Prefix(k)
    decreases hi
  {
    if hi == lo then Prefix(k) + Dec(hi) else Prefix(k) + Dec(hi) + "_" + Name(k, hi - 1, lo)
  }

  /** What follows the first number in a name. */
  function Tail(k: Kind, hi: nat, lo: nat): string
    requires lo <= hi
  {
    if hi == lo then "" else "_" + Name(k, hi - 1, lo)
  }

  lemma NameParts(k: Kind, hi: nat, lo: nat)
    requires lo <= hi
    ensures Name(k, hi, lo) == Prefix(k) + (Dec(hi) + Tail(k, hi, lo))
    ensures !StartsWithDigit(Tail(k, hi, lo))
  {
    hide Dec, Prefix;
    if hi == lo {
      assert Dec(hi) + "" == Dec(hi);
    } else {
      var rest := "_" + Name(k, hi - 1, lo);
      assert Prefix(k) + Dec(hi) + "_" + Name(k, hi - 1, lo) == Prefix(k) + (Dec(hi) + rest);
      assert rest[0] == '_';
    }
  }

  /** The join the generator makes: the names of two adjacent spans make the name of their union. */
  lemma {:induction false} JoinNames(k: Kind, hi: nat, mid: nat, lo: nat)
    requires lo < mid <= hi
    ensures Name(k, hi, mid) + "_" + Name(k, mid - 1, lo) == Name(k, hi, lo)
    decreases hi
  {
    hide Dec, Prefix;
    if hi == mid {
    } else {
      JoinNames(k, hi - 1, mid, lo);
      assert Name(k, hi, mid) + "_" + Name(k, mid - 1, lo)
          == Prefix(k) + Dec(hi) + "_" + (Name(k, hi - 1, mid) + "_" + Name(k, mid - 1, lo));
    }
  }

  /** A wire's name determines its kind and its span. */
  lemma {:induction false} NameInjective(k: Kind, hi: nat, lo: nat, k': Kind, hi': nat, lo': nat)
    requires lo <= hi && lo' <= hi'
    requires Name(k, hi, lo) == Name(k', hi', lo')
    ensures k == k' && hi == hi' && lo == lo'
    decreases hi
  {
    hide Dec, Prefix, Name;
    NameParts(k, hi, lo);
    NameParts(k', hi', lo');
    PrefixKind(k, k');
    var n, n' := Name(k, hi, lo), Name(k', hi', lo');
    assert n[3..] == Dec(hi) + Tail(k, hi, lo) && n'[3..] == Dec(hi') + Tail(k', hi', lo');
    DigitsThenRest(Dec(hi), Tail(k, hi, lo), Dec(hi'), Tail(k', hi', lo'));
    ValueOfDec(hi);
    ValueOfDec(hi');
    if hi > lo && hi' > lo' {
      assert Tail(k, hi, lo)[1..] == Name(k, hi - 1, lo) && Tail(k', hi', lo')[1..] == Name(k', hi' - 1, lo');
      NameInjective(k, hi - 1, lo, k', hi' - 1, lo');
    }
  }
}
