/**
 Hashes as bit strings and Kademlia's XOR metric on them.

 The most significant bit comes first. HashBytes.dfy proves that the byte operations of
 src/common/crypto/Hash.cpp and KBucket::getBit are these operations on the bits of a hash.
 `Num` reads a bit string as a number and is the reference the order and the metric are judged by.
 */
module BitMetric {

  type BitString = seq<bool>

  /** The number of bits of a Keccak-224 hash. */
  const BITS: nat := 224

  type Hash = h: BitString | |h| == BITS witness seq(BITS, _ => false)

  function XorBits(a: BitString, b: BitString): (r: BitString)
    requires |a| == |b|
    ensures |r| == |a| && forall i :: 0 <= i < |a| ==> r[i] == (a[i] != b[i])
  {
    seq(|a|, i requires 0 <= i < |a| => a[i] != b[i])
  }

  /** Lexicographic order of equally long bit strings. */
  predicate LexLess(a: BitString, b: BitString)
    requires |a| == |b|
  {
    a != [] && (if a[0] == b[0] then LexLess(a[1..], b[1..]) else b[0])
  }

  function Num(a: BitString): nat {
    if a == [] then 0 else 2 * Num(a[..|a| - 1]) + (if a[|a| - 1] then 1 else 0)
  }

  // ----- lexicographic order is numeric order -----

  lemma {:induction false} LexLessBySuffix(a: BitString, b: BitString)
    requires |a| == |b| > 0
    ensures var n := |a| - 1;
            LexLess(a, b) <==> LexLess(a[..n], b[..n]) || (a[..n] == b[..n] && !a[n] && b[n])
  {
    var n := |a| - 1;
    if n > 0 {
      LexLessBySuffix(a[1..], b[1..]);
      assert a[1..][..n - 1] == a[..n][1..] && b[1..][..n - 1] == b[..n][1..];
      assert a[..n] == [a[0]] + a[..n][1..] && b[..n] == [b[0]] + b[..n][1..];
    }
  }

  lemma {:induction false} NumInjective(a: BitString, b: BitString)
    requires |a| == |b| && Num(a) == Num(b)
    ensures a == b
  {
    if a != [] {
      var n := |a| - 1;
      NumInjective(a[..n], b[..n]);
      assert a == a[..n] + [a[n]] && b == b[..n] + [b[n]];
    }
  }

  lemma {:induction false} LexLessIsNumeric(a: BitString, b: BitString)
    requires |a| == |b|
    ensures LexLess(a, b) <==> Num(a) < Num(b)
  {
    if a != [] {
      var n := |a| - 1;
      LexLessIsNumeric(a[..n], b[..n]);
      LexLessBySuffix(a, b);
      if Num(a[..n]) == Num(b[..n]) {
        NumInjective(a[..n], b[..n]);
      }
    }
  }

  // ----- the XOR metric -----

  lemma {:induction false} NumZero(a: BitString)
    ensures Num(a) == 0 <==> forall i :: 0 <= i < |a| ==> !a[i]
  {
    if a != [] {
      var n := |a| - 1;
      NumZero(a[..n]);
      assert a == a[..n] + [a[n]];
    }
  }

  /** Distance zero means equal, and the distance is symmetric. */
  lemma DistanceIdentitySymmetry(a: BitString, b: BitString)
    requires |a| == |b|
    ensures Num(XorBits(a, b)) == 0 <==> a == b
    ensures XorBits(a, b) == XorBits(b, a)
  {
    NumZero(XorBits(a, b));
  }

  lemma {:induction false} TriangleInequality(a: BitString, b: BitString, c: BitString)
    requires |a| == |b| == |c|
    ensures Num(XorBits(a, c)) <= Num(XorBits(a, b)) + Num(XorBits(b, c))
  {
    if a != [] {
      var n := |a| - 1;
      TriangleInequality(a[..n], b[..n], c[..n]);
      assert XorBits(a, c)[..n] == XorBits(a[..n], c[..n]);
      assert XorBits(a, b)[..n] == XorBits(a[..n], b[..n]);
      assert XorBits(b, c)[..n] == XorBits(b[..n], c[..n]);
    }
  }

  /** From every point exactly one point lies at a given distance. */
  lemma Unidirectional(a: BitString, b: BitString, d: BitString)
    requires |a| == |b| == |d|
    ensures XorBits(a, b) == d <==> b == XorBits(a, d)
  {
    if XorBits(a, b) == d {
      assert forall i :: 0 <= i < |a| ==> XorBits(a, d)[i] == b[i];
    }
    if b == XorBits(a, d) {
      assert forall i :: 0 <= i < |a| ==> XorBits(a, b)[i] == d[i];
    }
  }

  lemma {:induction false} FirstDifferingBit(a: BitString, b: BitString, p: nat)
    requires |a| == |b| && p < |a| && a[..p] == b[..p] && !a[p] && b[p]
    ensures LexLess(a, b)
  {
    if p > 0 {
      assert a[0] == a[..p][0] == b[..p][0] == b[0];
      assert a[1..][..p - 1] == a[..p][1..] && b[1..][..p - 1] == b[..p][1..];
      FirstDifferingBit(a[1..], b[1..], p - 1);
    }
  }

  /** A longer common prefix with the target is a strictly smaller distance to it. */
  lemma LongerPrefixIsCloser(t: BitString, y: BitString, x: BitString, p: nat)
    requires |t| == |y| == |x| && p < |t|
    requires y[..p] == x[..p] && y[p] == t[p] && x[p] != t[p]
    ensures LexLess(XorBits(y, t), XorBits(x, t))
    ensures Num(XorBits(y, t)) < Num(XorBits(x, t))
  {
    var a, b := XorBits(y, t), XorBits(x, t);
    forall i | 0 <= i < p
      ensures a[i] == b[i]
    {
      assert y[i] == y[..p][i] == x[..p][i] == x[i];
    }
    FirstDifferingBit(a, b, p);
    LexLessIsNumeric(a, b);
  }

  // ----- the metric the bucket tree routes by: bit 0 is ignored -----

  /** y is strictly closer to t than x is, bit 0 ignored. */
  predicate Closer(t: Hash, y: Hash, x: Hash) {
    LexLess(XorBits(y[1..], t[1..]), XorBits(x[1..], t[1..]))
  }

  /** y is strictly closer to t than x is. */
  predicate FullCloser(t: Hash, y: Hash, x: Hash) {
    LexLess(XorBits(y, t), XorBits(x, t))
  }

  /** The two hashes agree on every bit the tree can route on. */
  predicate SameRouted(a: Hash, b: Hash) {
    a[1..] == b[1..]
  }

  /** Of two nodes that agree on bits 1..p-1, the one that agrees with the target on bit p is closer. */
  lemma CloserByBit(t: Hash, y: Hash, x: Hash, p: nat)
    requires 1 <= p < BITS
    requires forall i :: 1 <= i < p ==> y[i] == x[i]
    requires y[p] == t[p] && x[p] != t[p]
    ensures Closer(t, y, x)
  {
    assert y[1..][..p - 1] == x[1..][..p - 1];
    LongerPrefixIsCloser(t[1..], y[1..], x[1..], p - 1);
  }

  /** Bit 0 overrides the masked order exactly when it separates the two nodes the other way. */
  lemma TopBitDecides(t: Hash, y: Hash, x: Hash)
    requires Closer(t, y, x)
    ensures FullCloser(t, y, x) <==> y[0] == t[0] || x[0] != t[0]
  {
    assert XorBits(y, t)[1..] == XorBits(y[1..], t[1..]);
    assert XorBits(x, t)[1..] == XorBits(x[1..], t[1..]);
  }

  /** Closer is irreflexive and transitive. */
  lemma CloserIsStrictOrder(t: Hash, x: Hash, y: Hash, z: Hash)
    ensures !Closer(t, x, x)
    ensures Closer(t, x, y) && Closer(t, y, z) ==> Closer(t, x, z)
  {
    var a, b, c := XorBits(x[1..], t[1..]), XorBits(y[1..], t[1..]), XorBits(z[1..], t[1..]);
    LexLessIsNumeric(a, a);
    LexLessIsNumeric(a, b);
    LexLessIsNumeric(b, c);
    LexLessIsNumeric(a, c);
  }

  /** Three hashes that differ at most in bit 0 cannot be pairwise distinct. */
  lemma Pigeonhole(a: Hash, b: Hash, c: Hash)
    requires SameRouted(a, b) && SameRouted(b, c)
    ensures a == b || b == c || a == c
  {
    assert a[0] == b[0] ==> a == [b[0]] + b[1..] == b;
    assert b[0] == c[0] ==> b == [c[0]] + c[1..] == c;
    assert a[0] == c[0] ==> a == [c[0]] + c[1..] == c;
  }
}
