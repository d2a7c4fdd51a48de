/** Base58 over big numbers (src/common/crypto/base58.cpp). */
module Base58 {

  import opened BigEndian

  /** The letters are consecutive, except that 0, l, I and O are missing. */
  const ALPHABET: string := "123456789" + "abcdefghijk" + "mnopqrstuvwxyz" + "ABCDEFGH" + "JKLMN" + "PQRSTUVWXYZ"

  /** std::string::npos, what find answers for a character outside the alphabet. */
  const NPOS: nat := 0xFFFF_FFFF_FFFF_FFFF

  /** std::string::find from position i on. */
  function FindFrom(text: string, c: char, i: nat): nat
    requires i <= |text|
    decreases |text| - i
  {
    if i == |text| then NPOS else if text[i] == c then i else FindFrom(text, c, i + 1)
  }

  function Find(c: char): nat { FindFrom(ALPHABET, c, 0) }

  function Spell(ds: seq<nat>): string
    requires forall i :: 0 <= i < |ds| ==> ds[i] < 58
  {
    seq(|ds|, i requires 0 <= i < |ds| => ALPHABET[ds[i]])
  }

  function Read(s: string): (r: seq<nat>)
    ensures |r| == |s|
  {
    seq(|s|, i requires 0 <= i < |s| => Find(s[i]))
  }

  // ----- the two functions -----

  function Encode(data: Bytes): string {
    Spell(Digits(58, Value(data)))
  }

  function Decode(s: string): Bytes {
    Encoded(Eval(58, Read(s)))
  }

  method EncodeToBase58(data: Bytes) returns (result: string)
    ensures result == Encode(data)
  {
    result := SpellNumber(Value(data));
  }

  method SpellNumber(v: nat) returns (result: string)
    ensures result == Spell(Digits(58, v))
  {
    var bigData: nat := v;
    result := [];
    ghost var low: seq<nat> := [];
    while bigData >= 58
      invariant forall i :: 0 <= i < |low| ==> low[i] < 58
      invariant result == Spell(low) && Digits(58, v) == Digits(58, bigData) + low
    {
      var div, mod := bigData / 58, bigData % 58;
      SpellPrepend(mod, low);
      DigitsStep(58, bigData, low);
      result := [ALPHABET[mod]] + result;
      low := [mod] + low;
      bigData := div;
    }
    if bigData > 0 {
      SpellPrepend(bigData, low);
      DigitsStep(58, bigData, low);
      result := [ALPHABET[bigData]] + result;
      low := [bigData] + low;
    }
    assert [] + low == low;
  }

  lemma SpellPrepend(d: nat, ds: seq<nat>)
    requires d < 58 && forall i :: 0 <= i < |ds| ==> ds[i] < 58
    ensures Spell([d] + ds) == [ALPHABET[d]] + Spell(ds)
  {
  }

  method DecodeFromBase58(s: string) returns (decoded: Bytes)
    ensures decoded == Decode(s)
  {
    var bigData, multi := 0, 1;
    for i := |s| downto 0
      invariant bigData == Eval(58, Read(s)[i..]) && multi == Pow(58, |s| - i)
    {
      EvalSuffix(58, Read(s), i);
      bigData := bigData + multi * Find(s[i]);
      multi := multi * 58;
    }
    assert Read(s)[0..] == Read(s);
    decoded := Encoded(bigData);
  }

  // ----- spelling and reading -----

  predicate OverAlphabet(s: string) {
    forall i :: 0 <= i < |s| ==> s[i] in ALPHABET
  }

  lemma {:induction false} FindFromFacts(text: string, c: char, i: nat)
    requires i <= |text| < NPOS
    ensures FindFrom(text, c, i) != NPOS ==> i <= FindFrom(text, c, i) < |text| && text[FindFrom(text, c, i)] == c
    ensures FindFrom(text, c, i) == NPOS <==> c !in text[i..]
    decreases |text| - i
  {
    if i < |text| && text[i] != c {
      FindFromFacts(text, c, i + 1);
      assert text[i..] == [text[i]] + text[i + 1..];
    }
  }

  lemma FindExactly(c: char)
    ensures c in ALPHABET <==> Find(c) < 58
    ensures Find(c) < 58 ==> ALPHABET[Find(c)] == c
  {
    FindFromFacts(ALPHABET, c, 0);
    assert ALPHABET[0..] == ALPHABET;
  }

  /** No character occurs twice in the alphabet. */
  lemma FindLetter(d: nat)
    requires d < 58
    ensures Find(ALPHABET[d]) == d
  {
    FindExactly(ALPHABET[d]);
    AlphabetDistinct(Find(ALPHABET[d]), d);
  }

  /** The alphabet is 1-9, a-k, m-z, A-H, J-N, P-Z: character codes by position. */
  function Code(i: nat): nat
    requires i < 58
  {
    if i < 9 then 49 + i else if i < 20 then 97 + (i - 9) else if i < 34 then 109 + (i - 20)
    else if i < 42 then 65 + (i - 34) else if i < 47 then 74 + (i - 42) else 80 + (i - 47)
  }

  lemma AlphabetDistinct(i: nat, j: nat)
    requires i < 58 && j < 58 && ALPHABET[i] == ALPHABET[j]
    ensures i == j
  {
    AlphabetCode(i);
    AlphabetCode(j);
  }

  lemma AlphabetCode(i: nat)
    requires i < 58
    ensures ALPHABET[i] as int == Code(i)
  {
    if i < 9 {
      assert ALPHABET[i] == "123456789"[i];
    } else if i < 20 {
      assert ALPHABET[i] == "abcdefghijk"[i - 9];
    } else if i < 34 {
      assert ALPHABET[i] == "mnopqrstuvwxyz"[i - 20];
    } else if i < 42 {
      assert ALPHABET[i] == "ABCDEFGH"[i - 34];
    } else if i < 47 {
      assert ALPHABET[i] == "JKLMN"[i - 42];
    } else {
      assert ALPHABET[i] == "PQRSTUVWXYZ"[i - 47];
    }
  }

  lemma ReadSpell(ds: seq<nat>)
    requires forall i :: 0 <= i < |ds| ==> ds[i] < 58
    ensures Read(Spell(ds)) == ds
  {
    forall i | 0 <= i < |ds|
      ensures Find(ALPHABET[ds[i]]) == ds[i]
    {
      FindLetter(ds[i]);
    }
  }

  lemma SpellRead(s: string)
    requires OverAlphabet(s)
    ensures forall i :: 0 <= i < |s| ==> Read(s)[i] < 58
    ensures Spell(Read(s)) == s
  {
    forall i | 0 <= i < |s|
      ensures Find(s[i]) < 58 && ALPHABET[Find(s[i])] == s[i]
    {
      FindExactly(s[i]);
    }
  }

  // ----- the laws -----

  /** Decoding what was encoded gives the bytes back without their leading zeros. */
  lemma DecodeEncode(data: Bytes)
    ensures Decode(Encode(data)) == StripZeros(data)
  {
    ReadSpell(Digits(58, Value(data)));
    EvalDigits(58, Value(data));
    DigitsEval(256, data);
  }

  function StripOnes(s: string): string {
    if s != [] && s[0] == '1' then StripOnes(s[1..]) else s
  }

  lemma {:induction false} StripBoth(s: string)
    requires OverAlphabet(s)
    ensures StripZeros(Read(s)) == Read(StripOnes(s)) && OverAlphabet(StripOnes(s))
  {
    if s != [] {
      FindExactly(s[0]);
      FindLetter(0);
      if s[0] == '1' {
        assert Read(s)[1..] == Read(s[1..]);
        StripBoth(s[1..]);
      }
    }
  }

  lemma {:induction false} ForeignStays(s: string)
    requires !OverAlphabet(s)
    ensures !OverAlphabet(StripOnes(s))
  {
    if s[0] == '1' {
      assert s[0] == ALPHABET[0];
      var i :| 0 <= i < |s| && s[i] !in ALPHABET;
      assert s[1..][i - 1] == s[i];
      ForeignStays(s[1..]);
    }
  }

  /** Encoding what was decoded gives the text back without its leading '1's, if and only if it is over the alphabet. */
  lemma EncodeDecode(s: string)
    ensures Encode(Decode(s)) == StripOnes(s) <==> OverAlphabet(s)
  {
    var v := Eval(58, Read(s));
    EvalDigits(256, v);
    if OverAlphabet(s) {
      SpellRead(s);
      DigitsEval(58, Read(s));
      StripBoth(s);
      SpellRead(StripOnes(s));
    } else {
      ForeignStays(s);
      assert OverAlphabet(Encode(Decode(s)));
    }
  }

  /** The text of a value v > 0 has the length L with 58^(L-1) <= v < 58^L; zero is the empty text. */
  lemma EncodedLength(data: Bytes)
    ensures var n := |Encode(data)|;
            if Value(data) == 0 then n == 0 else n >= 1 && Pow(58, n - 1) <= Value(data) < Pow(58, n)
  {
    if Value(data) > 0 {
      DigitsLength(58, Value(data));
    }
  }

  /** Every 8 bytes take at most 11 characters, so the 32 bytes of a key take at most 44. */
  lemma TextLength(data: Bytes, k: nat)
    requires |data| <= 8 * k
    ensures |Encode(data)| <= 11 * k
  {
    var n := |Encode(data)|;
    EncodedLength(data);
    if n > 11 * k {
      EvalBound(256, data);
      PowMonotone(256, |data|, k * 8);
      ElevenForEight();
      PowOverPow(256, 58, 8, 11, k);
      PowMonotone(58, k * 11, n - 1);
      assert false;
    }
  }

  lemma ElevenForEight()
    ensures Pow(256, 8) <= Pow(58, 11)
  {
    PowAdd(256, 4, 4);
    assert Pow(256, 4) == 0x1_0000_0000;
    assert Pow(58, 5) == 656356768;
    PowAdd(58, 5, 5);
    assert Pow(58, 11) == 58 * Pow(58, 10);
  }
}
