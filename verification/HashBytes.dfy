/**
 Hashes as the source stores them: byte vectors (src/common/crypto/Hash.cpp).

 `Xor` and `Less` are operator^ and operator<. `Bits` spells a byte vector out as a bit string,
 and the lemmas carry getBit, operator^ and operator< over to the operations of BitMetric.
 */
module HashBytes {

  import opened BitMetric
  import opened BigEndian

  // ----- the source's operators -----

  /** The exclusive or of two n-bit numbers, bit by bit from the least significant one. */
  function XorNumber(a: nat, b: nat, n: nat): (r: nat)
    decreases n, a
  {
    if n == 0 then 0 else 2 * XorNumber(a / 2, b / 2, n - 1) + (if a % 2 != b % 2 then 1 else 0)
  }

  function XorByte(a: Byte, b: Byte): Byte {
    XorNumberBound(a, b, 8);
    XorNumber(a, b, 8)
  }

  /** Byte i of a vector that has been resized, with zeros, far enough to have one. */
  function At(a: Bytes, i: nat): Byte {
    if i < |a| then a[i] else 0
  }

  function Xor(a: Bytes, b: Bytes): (r: Bytes)
    ensures |r| == if |a| < |b| then |b| else |a|
    ensures forall i :: 0 <= i < |r| ==> r[i] == XorByte(At(a, i), At(b, i))
  {
    seq(if |a| < |b| then |b| else |a|, i requires 0 <= i => XorByte(At(a, i), At(b, i)))
  }

  /** std::string's operator<: lexicographic, bytes compared as unsigned. */
  predicate Less(a: Bytes, b: Bytes) {
    SeqLess(a, b)
  }

  /** v >> s. */
  function ShiftRight(v: nat, s: nat): nat
    decreases s, v
  {
    if s == 0 then v else ShiftRight(v / 2, s - 1)
  }

  /** KBucket::getBit: shift the byte right by 7 - bit_index % 8 and keep the lowest bit. */
  predicate GetBit(h: Bytes, i: nat)
    requires i < 8 * |h|
  {
    LowBit(ShiftRight(h[i / 8], 7 - i % 8))
  }

  predicate LowBit(v: nat) {
    v % 2 == 1
  }

  /** operator^ as the source computes it: resize both sides, then fill the result byte by byte. */
  method XorHash(left: Bytes, right: Bytes) returns (result: Bytes)
    ensures result == Xor(left, right)
  {
    var maxSize := if |left| < |right| then |right| else |left|;
    var l := left + seq(maxSize - |left|, _ => 0);
    var r := right + seq(maxSize - |right|, _ => 0);
    var v := new Byte[maxSize](_ => 0);
    var i := 0;
    while i < maxSize
      invariant 0 <= i <= maxSize
      invariant forall j :: 0 <= j < i ==> v[j] == XorByte(At(left, j), At(right, j))
    {
      v[i] := XorByte(l[i], r[i]);
      i := i + 1;
    }
    result := v[..];
  }

  // ----- numbers as bits -----

  lemma {:induction false} XorNumberBound(a: nat, b: nat, n: nat)
    ensures XorNumber(a, b, n) < Pow(2, n)
    ensures n == 8 ==> Pow(2, n) == 256
    decreases n
  {
    if n > 0 {
      XorNumberBound(a / 2, b / 2, n - 1);
    }
    if n == 8 {
      assert Pow(2, 4) == 16;
    }
  }

  /** The n low bits of a number, most significant first. */
  function BitsOf(v: nat, n: nat): (r: BitString)
    ensures |r| == n
    decreases n, v
  {
    if n == 0 then [] else BitsOf(v / 2, n - 1) + [LowBit(v)]
  }

  lemma {:induction false} BitsOfAt(v: nat, n: nat, j: nat)
    requires j < n
    ensures BitsOf(v, n)[j] == LowBit(ShiftRight(v, n - 1 - j))
    decreases n
  {
    if j < n - 1 {
      BitsOfAt(v / 2, n - 1, j);
    }
  }

  lemma {:induction false} XorNumberBits(a: nat, b: nat, n: nat)
    ensures BitsOf(XorNumber(a, b, n), n) == XorBits(BitsOf(a, n), BitsOf(b, n))
    decreases n
  {
    if n > 0 {
      XorNumberBits(a / 2, b / 2, n - 1);
    }
  }

  lemma Double(q: nat, x: nat)
    ensures (2 * q) * x == 2 * (q * x)
  {
  }

  lemma {:induction false} NumOfBits(p: BitString, v: nat, n: nat)
    requires v < Pow(2, n)
    ensures Num(p + BitsOf(v, n)) == Pow(2, n) * Num(p) + v
    decreases n
  {
    if n == 0 {
      assert p + BitsOf(v, n) == p;
    } else {
      NumOfBits(p, v / 2, n - 1);
      var s := p + BitsOf(v, n);
      assert s[..|s| - 1] == p + BitsOf(v / 2, n - 1);
      Double(Pow(2, n - 1), Num(p));
    }
  }

  // ----- byte vectors as bit strings -----

  function Bits(h: Bytes): (r: BitString)
    ensures |r| == 8 * |h|
  {
    if h == [] then [] else Bits(h[..|h| - 1]) + BitsOf(h[|h| - 1], 8)
  }

  lemma {:induction false} BitsAt(h: Bytes, q: nat, j: nat)
    requires q < |h| && j < 8
    ensures Bits(h)[8 * q + j] == BitsOf(h[q], 8)[j]
  {
    var n := |h| - 1;
    var p := Bits(h[..n]);
    if q < n {
      BitsAt(h[..n], q, j);
      assert Bits(h)[8 * q + j] == p[8 * q + j];
    } else {
      assert Bits(h)[|p| + j] == BitsOf(h[n], 8)[j];
    }
  }

  /** KBucket::getBit reads the bit at that index. */
  lemma GetBitIsBit(h: Bytes, i: nat)
    requires i < 8 * |h|
    ensures GetBit(h, i) == Bits(h)[i]
  {
    var q, j := i / 8, i % 8;
    BitsAt(h, q, j);
    BitsOfAt(h[q], 8, j);
    assert 8 * q + j == i;
  }

  /** operator^ is the bitwise exclusive or. */
  lemma {:induction false} XorIsXorBits(a: Bytes, b: Bytes)
    requires |a| == |b|
    ensures Bits(Xor(a, b)) == XorBits(Bits(a), Bits(b))
  {
    if a != [] {
      var n := |a| - 1;
      XorIsXorBits(a[..n], b[..n]);
      assert Xor(a, b)[..n] == Xor(a[..n], b[..n]);
      XorNumberBits(a[n], b[n], 8);
      XorBitsConcat(Bits(a[..n]), Bits(b[..n]), BitsOf(a[n], 8), BitsOf(b[n], 8));
    }
  }

  lemma XorBitsConcat(a: BitString, b: BitString, c: BitString, d: BitString)
    requires |a| == |b| && |c| == |d|
    ensures XorBits(a + c, b + d) == XorBits(a, b) + XorBits(c, d)
  {
  }

  /** The bits and the bytes of a hash spell the same number. */
  lemma {:induction false} NumIsValue(h: Bytes)
    ensures Num(Bits(h)) == Value(h)
  {
    if h != [] {
      var n := |h| - 1;
      NumIsValue(h[..n]);
      XorNumberBound(0, 0, 8);
      NumOfBits(Bits(h[..n]), h[n], 8);
    }
  }

  // ----- the order -----

  lemma {:induction false} LessBySuffix(a: Bytes, b: Bytes)
    requires |a| == |b| > 0
    ensures var n := |a| - 1;
            SeqLess(a, b) <==> SeqLess(a[..n], b[..n]) || (a[..n] == b[..n] && a[n] < b[n])
  {
    var n := |a| - 1;
    if n > 0 {
      LessBySuffix(a[1..], b[1..]);
      assert a[1..][..n - 1] == a[..n][1..] && b[1..][..n - 1] == b[..n][1..];
      assert a[..n] == [a[0]] + a[..n][1..] && b[..n] == [b[0]] + b[..n][1..];
    }
  }

  lemma {:induction false} LessIsNumeric(a: Bytes, b: Bytes)
    requires |a| == |b|
    ensures Less(a, b) <==> Value(a) < Value(b)
  {
    if a != [] {
      var n := |a| - 1;
      LessIsNumeric(a[..n], b[..n]);
      LessBySuffix(a, b);
      if Value(a[..n]) == Value(b[..n]) {
        ValueInjective(a[..n], b[..n]);
      }
    }
  }

  /** operator< on equally long hashes is both the numeric order and the order of their bits. */
  lemma LessIsLexLess(a: Bytes, b: Bytes)
    requires |a| == |b|
    ensures Less(a, b) <==> Value(a) < Value(b)
    ensures Less(a, b) <==> LexLess(Bits(a), Bits(b))
    ensures a == b <==> Bits(a) == Bits(b)
  {
    LessIsNumeric(a, b);
    LexLessIsNumeric(Bits(a), Bits(b));
    NumIsValue(a);
    NumIsValue(b);
    if Bits(a) == Bits(b) {
      ValueInjective(a, b);
    }
  }

  /** Comparing two distances with the byte operators is comparing them in the XOR metric on the bits. */
  lemma ByteDistanceIsMetric(t: Bytes, y: Bytes, x: Bytes)
    requires 8 * |t| == 8 * |y| == 8 * |x| == BITS
    ensures Less(Xor(y, t), Xor(x, t)) <==> FullCloser(Bits(t), Bits(y), Bits(x))
    ensures Less(Xor(y, t), Xor(x, t)) <==> Value(Xor(y, t)) < Value(Xor(x, t))
  {
    XorIsXorBits(y, t);
    XorIsXorBits(x, t);
    LessIsLexLess(Xor(y, t), Xor(x, t));
  }
}
