/** Private keys as bytes and as Base58 text (src/common/crypto/PrivateKeyDSA.cpp, src/common/crypto/MathString.h). */
module PrivateKeys {

  import opened Prelude
  import opened BigEndian
  import opened Base58

  /** dsa_byte_length: secp256r1 has 256-bit scalars. */
  const KEY_BYTES: nat := 32

  /**
   setAsBinaryVector: the bytes are read as one number. Botan generates a random key, here a
   parameter, when that number is zero.
   */
  function Import(bytes: Bytes, random: nat): nat {
    if Value(bytes) == 0 then random else Value(bytes)
  }

  function Padding(n: nat): Bytes {
    seq(n, _ => 0)
  }

  /** toBinaryVector. None: the scalar is longer than the result vector and would be copied past its start. */
  function Export(x: nat): Option<Bytes> {
    if |Encoded(x)| > KEY_BYTES then None else Some(Padding(KEY_BYTES - |Encoded(x)|) + Encoded(x))
  }

  class PrivateKeyDSA {
    var scalar: nat

    constructor (scalar: nat)
      ensures this.scalar == scalar
    {
      this.scalar := scalar;
    }

    method SetAsBinaryVector(bytes: Bytes, random: nat)
      modifies this
      ensures scalar == Import(bytes, random)
    {
      var bigint := Value(bytes);
      scalar := if bigint == 0 then random else bigint;
    }

    /** The copy runs from the last byte of the encoded scalar and of the zeroed result backwards. */
    method ToBinaryVector() returns (result: Option<Bytes>)
      ensures result == Export(scalar)
    {
      var vectorized := Encoded(scalar);
      var n := |vectorized|;
      if n > KEY_BYTES {
        return None;
      }
      var bytes := new Byte[KEY_BYTES](_ => 0);
      for j := 0 to n
        invariant bytes[KEY_BYTES - j..] == vectorized[n - j..]
        invariant forall i :: 0 <= i < KEY_BYTES - j ==> bytes[i] == 0
      {
        bytes[KEY_BYTES - 1 - j] := vectorized[n - 1 - j];
        assert bytes[KEY_BYTES - 1 - j..] == [vectorized[n - 1 - j]] + bytes[KEY_BYTES - j..];
      }
      assert bytes[..] == Padding(KEY_BYTES - n) + bytes[KEY_BYTES - n..];
      result := Some(bytes[..]);
    }

    method SetAsBase58(text: string, random: nat)
      modifies this
      ensures scalar == KeyOfText(text, random)
    {
      var bytes := DecodeFromBase58(text);
      SetAsBinaryVector(bytes, random);
    }

    method ToBase58() returns (text: Option<string>)
      ensures text == KeyText(scalar)
    {
      var bytes := ToBinaryVector();
      match bytes {
        case None => text := None;
        case Some(b) =>
          var t := EncodeToBase58(b);
          text := Some(t);
      }
    }
  }

  function KeyText(x: nat): Option<string> {
    match Export(x)
    case None => None
    case Some(bytes) => Some(Encode(bytes))
  }

  function KeyOfText(text: string, random: nat): nat {
    Import(Decode(text), random)
  }

  // ----- the laws -----

  lemma {:induction false} PaddedValue(n: nat, s: Bytes)
    ensures Value(Padding(n) + s) == Value(s)
  {
    if n == 0 {
      assert Padding(n) + s == s;
    } else {
      PaddedValue(n - 1, s);
      assert Padding(n) + s == [0] + (Padding(n - 1) + s);
      EvalPrepend(256, 0, Padding(n - 1) + s);
    }
  }

  /** Every scalar below 2^256, and no other, exports to 32 bytes that spell it. */
  lemma ExportExactly(x: nat)
    ensures Export(x).Some? <==> x < Pow(256, KEY_BYTES)
    ensures Export(x).Some? ==> |Export(x).value| == KEY_BYTES && Value(Export(x).value) == x
  {
    DigitsFit(256, x, KEY_BYTES);
    if Export(x).Some? {
      PaddedValue(KEY_BYTES - |Encoded(x)|, Encoded(x));
      EvalDigits(256, x);
    }
  }

  lemma DigitsFit(base: nat, v: nat, n: nat)
    requires base >= 2
    ensures |Digits(base, v)| <= n <==> v < Pow(base, n)
  {
    var m := |Digits(base, v)|;
    if v == 0 {
      PowPositive(base, n);
    } else {
      DigitsLength(base, v);
      if m <= n {
        PowMonotone(base, m, n);
      } else {
        PowMonotone(base, n, m - 1);
      }
    }
  }

  /** The bytes an export yields, and any left-padding of a scalar's bytes, import to the scalar, save for the random key at 0. */
  lemma BinaryRoundTrip(x: nat, random: nat, n: nat)
    ensures Import(Padding(n) + Encoded(x), random) == x <==> x > 0 || random == 0
    ensures x < Pow(256, KEY_BYTES) ==>
              Export(x).Some? && (Import(Export(x).value, random) == x <==> x > 0 || random == 0)
  {
    PaddedValue(n, Encoded(x));
    EvalDigits(256, x);
    ExportExactly(x);
  }

  /** Base58 drops the padding zeros, yet importing the exported text gives x back if and only if 0 < x < 2^256. */
  lemma KeyRoundTrip(x: nat)
    ensures (KeyText(x).Some? && forall random :: KeyOfText(KeyText(x).value, random) == x) <==>
            0 < x < Pow(256, KEY_BYTES)
  {
    ExportExactly(x);
    if KeyText(x).Some? {
      var bytes := Export(x).value;
      DecodeEncode(bytes);
      EvalStrip(256, bytes);
      assert Value(Decode(KeyText(x).value)) == x;
      if x == 0 {
        assert KeyOfText(KeyText(x).value, 1) == 1;
      }
    }
  }

  /**
   Exporting the imported key gives a text back without its leading '1's if and only if the text is over
   the alphabet and spells a number above 0 and below 2^256; such a text has at most 44 characters left.
   */
  lemma TextRoundTrip(text: string)
    ensures (forall random :: KeyText(KeyOfText(text, random)) == Some(StripOnes(text))) <==>
            OverAlphabet(text) && 0 < Value(Decode(text)) < Pow(256, KEY_BYTES)
    ensures OverAlphabet(text) && Value(Decode(text)) < Pow(256, KEY_BYTES) ==> |StripOnes(text)| <= 44
  {
    var x := Value(Decode(text));
    ExportExactly(x);
    EncodeDecode(text);
    if x < Pow(256, KEY_BYTES) {
      TextLength(Export(x).value, 4);
    }
    if x == 0 {
      var random := Pow(256, KEY_BYTES);
      ExportExactly(random);
      assert KeyText(KeyOfText(text, random)) == None;
    } else {
      assert KeyOfText(text, 0) == x;
    }
  }
}
