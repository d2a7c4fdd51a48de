/** Positional numbers, most significant digit first: what Botan's BigInt reads and writes. */
module BigEndian {

  type Byte = b: nat | b < 256
  type Bytes = seq<Byte>

  function Eval(base: nat, s: seq<nat>): nat {
    if s == [] then 0 else base * Eval(base, s[..|s| - 1]) + s[|s| - 1]
  }

  /** The shortest digits of a number: none for zero. */
  function Digits(base: nat, v: nat): (r: seq<nat>)
    requires base >= 2
    ensures forall i :: 0 <= i < |r| ==> r[i] < base
  {
    if v == 0 then [] else
      Shrinks(base, v);
      Digits(base, v / base) + [v % base]
  }

  lemma Shrinks(base: nat, v: nat)
    requires base >= 2 && v > 0
    ensures 0 <= v / base < v
  {
  }

  /** BigInt::decode. */
  function Value(s: Bytes): nat {
    Eval(256, s)
  }

  /** BigInt::encode. */
  function Encoded(v: nat): Bytes {
    Digits(256, v)
  }

  function Pow(base: nat, n: nat): nat {
    if n == 0 then 1 else base * Pow(base, n - 1)
  }

  /** Lexicographic order, the operator< of std::string on character codes. */
  predicate SeqLess(a: seq<nat>, b: seq<nat>) {
    b != [] && (a == [] || a[0] < b[0] || (a[0] == b[0] && SeqLess(a[1..], b[1..])))
  }

  function StripZeros(s: seq<nat>): seq<nat> {
    if s != [] && s[0] == 0 then StripZeros(s[1..]) else s
  }

  /** Equally long byte strings with the same value are the same. */
  lemma {:induction false} ValueInjective(a: seq<Byte>, b: seq<Byte>)
    requires |a| == |b| && Value(a) == Value(b)
    ensures a == b
  {
    if a != [] {
      var n := |a| - 1;
      ValueInjective(a[..n], b[..n]);
      assert a == a[..n] + [a[n]] && b == b[..n] + [b[n]];
    }
  }

  // ----- lexicographic order is total -----

  lemma {:induction false} CommonPrefix(p: seq<nat>, c: seq<nat>, d: seq<nat>)
    requires d != [] && (c == [] || c[0] < d[0])
    ensures SeqLess(p + c, p + d) && p + c != p + d
  {
    if p == [] {
      assert p + c == c && p + d == d;
    } else {
      CommonPrefix(p[1..], c, d);
      assert (p + c)[1..] == p[1..] + c && (p + d)[1..] == p[1..] + d;
    }
  }

  lemma {:induction false} SeqTrichotomy(a: seq<nat>, b: seq<nat>)
    ensures a == b ==> !SeqLess(a, b)
    ensures a != b ==> (SeqLess(a, b) <==> !SeqLess(b, a))
    decreases |a|
  {
    if a != [] && b != [] && a[0] == b[0] {
      SeqTrichotomy(a[1..], b[1..]);
      assert a == [a[0]] + a[1..] && b == [b[0]] + b[1..];
    }
  }

  lemma {:induction false} SeqTransitive(a: seq<nat>, b: seq<nat>, c: seq<nat>)
    requires SeqLess(a, b) && SeqLess(b, c)
    ensures SeqLess(a, c)
    decreases |a|
  {
    if a != [] && a[0] == b[0] == c[0] {
      SeqTransitive(a[1..], b[1..], c[1..]);
    }
  }

  // ----- digits and numbers are inverse to each other -----

  lemma {:induction false} EvalDigits(base: nat, v: nat)
    requires base >= 2
    ensures Eval(base, Digits(base, v)) == v
    decreases v
  {
    if v > 0 {
      Shrinks(base, v);
      EvalDigits(base, v / base);
      var high := Digits(base, v / base);
      assert (high + [v % base])[..|high|] == high;
      DivMod(base, v);
    }
  }

  lemma DivMod(base: nat, v: nat)
    requires base > 0
    ensures base * (v / base) + v % base == v
  {
  }

  /** One step of writing digits from the right. */
  lemma DigitsStep(base: nat, v: nat, low: seq<nat>)
    requires base >= 2 && v > 0
    ensures Digits(base, v) + low == Digits(base, v / base) + ([v % base] + low)
  {
  }

  lemma Divide(base: nat, q: nat, d: nat)
    requires d < base
    ensures (base * q + d) / base == q && (base * q + d) % base == d
  {
    var v := base * q + d;
    assert v == base * (v / base) + v % base;
    if v / base < q {
      Larger(base, v / base, q);
    } else if v / base > q {
      Larger(base, q, v / base);
    }
  }

  lemma {:induction false} Larger(base: nat, p: nat, q: nat)
    requires p < q
    ensures base * p + base <= base * q
  {
    assert base * q == base * (q - 1) + base;
    if p < q - 1 {
      Larger(base, p, q - 1);
    }
  }

  lemma {:induction false} StripLast(s: seq<nat>)
    requires s != []
    ensures var n := |s| - 1;
            StripZeros(s) == if StripZeros(s[..n]) == [] && s[n] == 0 then [] else StripZeros(s[..n]) + [s[n]]
  {
    if s[0] == 0 && |s| > 1 {
      StripLast(s[1..]);
      assert s[1..][..|s| - 2] == s[..|s| - 1][1..];
    } else if |s| > 1 {
      assert s == s[..|s| - 1] + [s[|s| - 1]];
    }
  }

  lemma {:induction false} EvalZero(base: nat, s: seq<nat>)
    requires base >= 2
    ensures Eval(base, s) == 0 <==> StripZeros(s) == []
  {
    if s != [] {
      var n := |s| - 1;
      EvalZero(base, s[..n]);
      StripLast(s);
      if Eval(base, s[..n]) > 0 {
        Larger(base, 0, Eval(base, s[..n]));
      }
    }
  }

  lemma {:induction false} DigitsEval(base: nat, s: seq<nat>)
    requires base >= 2 && forall i :: 0 <= i < |s| ==> s[i] < base
    ensures Digits(base, Eval(base, s)) == StripZeros(s)
  {
    if s != [] {
      var n := |s| - 1;
      DigitsEval(base, s[..n]);
      EvalZero(base, s);
      EvalZero(base, s[..n]);
      StripLast(s);
      Divide(base, Eval(base, s[..n]), s[n]);
    }
  }

  lemma {:induction false} NoLeadingZero(base: nat, v: nat)
    requires base >= 2 && v > 0
    ensures Digits(base, v) != [] && Digits(base, v)[0] != 0
    decreases v
  {
    Shrinks(base, v);
    if v / base > 0 {
      NoLeadingZero(base, v / base);
    } else {
      DivMod(base, v);
    }
  }

  /** Leading zeros do not change the value. */
  lemma {:induction false} EvalStrip(base: nat, s: seq<nat>)
    requires base >= 2 && forall i :: 0 <= i < |s| ==> s[i] < base
    ensures Eval(base, StripZeros(s)) == Eval(base, s)
  {
    DigitsEval(base, s);
    EvalDigits(base, Eval(base, s));
  }

  lemma {:induction false} EvalPrepend(base: nat, d: nat, s: seq<nat>)
    ensures Eval(base, [d] + s) == d * Pow(base, |s|) + Eval(base, s)
  {
    if s == [] {
      assert [d] + s == [d] && [d][..0] == [];
    } else {
      var n := |s| - 1;
      EvalPrepend(base, d, s[..n]);
      assert ([d] + s)[..n + 1] == [d] + s[..n];
      var p, q := Pow(base, n), Eval(base, s[..n]);
      Distribute(base, d, p, q);
      assert Pow(base, n + 1) == base * p;
    }
  }

  /** One step of reading digits from the right. */
  lemma EvalSuffix(base: nat, s: seq<nat>, i: nat)
    requires i < |s|
    ensures var p := Pow(base, |s| - i - 1);
            Eval(base, s[i..]) == Eval(base, s[i + 1..]) + p * s[i] && Pow(base, |s| - i) == p * base
  {
    assert s[i..] == [s[i]] + s[i + 1..];
    EvalPrepend(base, s[i], s[i + 1..]);
  }

  lemma Distribute(base: nat, d: nat, p: nat, q: nat)
    ensures base * (d * p + q) == d * (base * p) + base * q
  {
  }

  // ----- lengths -----

  lemma {:induction false} PowPositive(base: nat, n: nat)
    requires base >= 1
    ensures Pow(base, n) >= 1
  {
    if n > 0 {
      PowPositive(base, n - 1);
      assert base * Pow(base, n - 1) >= 1 * 1;
    }
  }

  /** n digits stay below base^n. */
  lemma {:induction false} EvalBound(base: nat, s: seq<nat>)
    requires base >= 2 && forall i :: 0 <= i < |s| ==> s[i] < base
    ensures Eval(base, s) < Pow(base, |s|)
  {
    if s != [] {
      var n := |s| - 1;
      EvalBound(base, s[..n]);
      Larger(base, Eval(base, s[..n]), Pow(base, n));
    }
  }

  /** The shortest digits of v > 0 are L many with base^(L-1) <= v < base^L. */
  lemma {:induction false} DigitsLength(base: nat, v: nat)
    requires base >= 2 && v > 0
    ensures var n := |Digits(base, v)|;
            n >= 1 && Pow(base, n - 1) <= v < Pow(base, n)
    decreases v
  {
    EvalBound(base, Digits(base, v));
    EvalDigits(base, v);
    Shrinks(base, v);
    if v / base > 0 {
      DigitsLength(base, v / base);
      Scaled(base, Pow(base, |Digits(base, v / base)| - 1), v);
    } else {
      assert Digits(base, v / base) == [];
    }
  }

  lemma Scaled(base: nat, p: nat, v: nat)
    requires base >= 2 && p <= v / base
    ensures base * p <= v
  {
    assert v == base * (v / base) + v % base;
    if p < v / base {
      Larger(base, p, v / base);
    }
  }

  lemma {:induction false} PowAdd(base: nat, m: nat, n: nat)
    ensures Pow(base, m + n) == Pow(base, m) * Pow(base, n)
  {
    if m > 0 {
      PowAdd(base, m - 1, n);
      Associate(base, Pow(base, m - 1), Pow(base, n));
    }
  }

  lemma Associate(a: nat, b: nat, c: nat)
    ensures a * (b * c) == (a * b) * c
  {
  }

  lemma {:induction false} PowMonotone(base: nat, m: nat, n: nat)
    requires base >= 1 && m <= n
    ensures Pow(base, m) <= Pow(base, n)
  {
    if m < n {
      PowMonotone(base, m, n - 1);
      PowPositive(base, n - 1);
      assert base * Pow(base, n - 1) >= 1 * Pow(base, n - 1);
    }
  }

  /** If b^y reaches a^x, then b^(k y) reaches a^(k x). */
  lemma {:induction false} PowOverPow(a: nat, b: nat, x: nat, y: nat, k: nat)
    requires Pow(a, x) <= Pow(b, y)
    ensures Pow(a, k * x) <= Pow(b, k * y)
  {
    if k > 0 {
      PowOverPow(a, b, x, y, k - 1);
      PowAdd(a, x, (k - 1) * x);
      PowAdd(b, y, (k - 1) * y);
      assert x + (k - 1) * x == k * x && y + (k - 1) * y == k * y;
      MulMonotone(Pow(a, x), Pow(b, y), Pow(a, (k - 1) * x), Pow(b, (k - 1) * y));
    }
  }

  lemma MulMonotone(a: nat, b: nat, c: nat, d: nat)
    requires a <= b && c <= d
    ensures a * c <= b * d
  {
    assert b * d == a * c + a * (d - c) + (b - a) * d;
  }
}
