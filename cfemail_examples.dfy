/** Concrete inputs of `parse_cfemail`, among them the documentation example. */
module CfEmailExamples {
  import opened Wrappers
  import opened RustStr
  import opened CfEmail
  import opened CfEmailProperties

  /** The UTF-8 bytes of an ASCII string: one byte per character. */
  function AsciiBytes(s: string): (b: seq<byte>)
    requires forall i :: 0 <= i < |s| ==> s[i] as int < 0x80
    ensures |b| == |s|
  {
    seq(|s|, i requires 0 <= i < |s| => s[i] as int)
  }

  // The ten XORs of the documentation example, worked out from the high bits
  // down: every assert is one halving step of `Xor`. Codes that differ only in
  // their lowest bit share a lemma.

  lemma DocExampleChar0(key: nat)
    requires key == 0x98
    ensures Xor(0xd1, key) == 'I' as int
  {
    assert Xor(3, 2) == 1;
    assert Xor(6, 4) == 2;
    assert Xor(13, 9) == 4;
    assert Xor(26, 19) == 9;
    assert Xor(52, 38) == 18;
    assert Xor(104, 76) == 36;
  }

  lemma DocExampleChar1And8(key: nat)
    requires key == 0x98
    ensures Xor(0xfc, key) == 'd' as int
    ensures Xor(0xfd, key) == 'e' as int
  {
    assert Xor(3, 2) == 1;
    assert Xor(7, 4) == 3;
    assert Xor(15, 9) == 6;
    assert Xor(31, 19) == 12;
    assert Xor(63, 38) == 25;
    assert Xor(126, 76) == 50;
  }

  lemma DocExampleChar2(key: nat)
    requires key == 0x98
    ensures Xor(0xf7, key) == 'o' as int
  {
    assert Xor(3, 2) == 1;
    assert Xor(7, 4) == 3;
    assert Xor(15, 9) == 6;
    assert Xor(30, 19) == 13;
    assert Xor(61, 38) == 27;
    assert Xor(123, 76) == 55;
  }

  lemma DocExampleChar3And4(key: nat)
    requires key == 0x98
    ensures Xor(0xf4, key) == 'l' as int
    ensures Xor(0xf5, key) == 'm' as int
  {
    assert Xor(3, 2) == 1;
    assert Xor(7, 4) == 3;
    assert Xor(15, 9) == 6;
    assert Xor(30, 19) == 13;
    assert Xor(61, 38) == 27;
    assert Xor(122, 76) == 54;
  }

  lemma DocExampleChar5(key: nat)
    requires key == 0x98
    ensures Xor(0xd8, key) == '@' as int
  {
    assert Xor(3, 2) == 1;
    assert Xor(6, 4) == 2;
    assert Xor(13, 9) == 4;
    assert Xor(27, 19) == 8;
    assert Xor(54, 38) == 16;
    assert Xor(108, 76) == 32;
  }

  lemma DocExampleChar6And9(key: nat)
    requires key == 0x98
    ensures Xor(0xeb, key) == 's' as int
    ensures Xor(0xea, key) == 'r' as int
  {
    assert Xor(3, 2) == 1;
    assert Xor(7, 4) == 3;
    assert Xor(14, 9) == 7;
    assert Xor(29, 19) == 14;
    assert Xor(58, 38) == 28;
    assert Xor(117, 76) == 57;
  }

  lemma DocExampleChar7(key: nat)
    requires key == 0x98
    ensures Xor(0xec, key) == 't' as int
  {
    assert Xor(3, 2) == 1;
    assert Xor(7, 4) == 3;
    assert Xor(14, 9) == 7;
    assert Xor(29, 19) == 14;
    assert Xor(59, 38) == 29;
    assert Xor(118, 76) == 58;
  }

  /** The attribute value of the documentation example. */
  const DocAttribute: string := "98d1fcf7f4f5d8ebecfdea"

  /** Its bytes. */
  const DocData: seq<byte> :=
    [0x39, 0x38, 0x64, 0x31, 0x66, 0x63, 0x66, 0x37, 0x66, 0x34, 0x66, 0x35, 0x64, 0x38, 0x65, 0x62, 0x65, 0x63, 0x66, 0x64, 0x65, 0x61]

  lemma DocBytes()
    ensures AsciiBytes(DocAttribute) == DocData
  {
  }

  /** The key is 0x98. */
  lemma DocKey()
    ensures Key(DocData) == Some(0x98)
  {
    FromStrRadix16Pair(DocData[..2]);
    assert DocData[..2] == [0x39, 0x38];
  }

  lemma DocPair0()
    ensures ParsePair(PairAt(DocData[2..], 0)) == Some(0xd1)
  {
  }

  lemma DocPair1()
    ensures ParsePair(PairAt(DocData[2..], 1)) == Some(0xfc)
  {
  }

  lemma DocPair2()
    ensures ParsePair(PairAt(DocData[2..], 2)) == Some(0xf7)
  {
  }

  lemma DocPair3()
    ensures ParsePair(PairAt(DocData[2..], 3)) == Some(0xf4)
  {
  }

  lemma DocPair4()
    ensures ParsePair(PairAt(DocData[2..], 4)) == Some(0xf5)
  {
  }

  lemma DocPair5()
    ensures ParsePair(PairAt(DocData[2..], 5)) == Some(0xd8)
  {
  }

  lemma DocPair6()
    ensures ParsePair(PairAt(DocData[2..], 6)) == Some(0xeb)
  {
  }

  lemma DocPair7()
    ensures ParsePair(PairAt(DocData[2..], 7)) == Some(0xec)
  {
  }

  lemma DocPair8()
    ensures ParsePair(PairAt(DocData[2..], 8)) == Some(0xfd)
  {
  }

  lemma DocPair9()
    ensures ParsePair(PairAt(DocData[2..], 9)) == Some(0xea)
  {
  }

  /** Each pair XOR 0x98 is the matching character of "Idolm@ster". */
  lemma DocChars(key: nat)
    requires key == 0x98
    ensures Xor(0xd1, key) == 'I' as int
    ensures Xor(0xfc, key) == 'd' as int
    ensures Xor(0xf7, key) == 'o' as int
    ensures Xor(0xf4, key) == 'l' as int
    ensures Xor(0xf5, key) == 'm' as int
    ensures Xor(0xd8, key) == '@' as int
    ensures Xor(0xeb, key) == 's' as int
    ensures Xor(0xec, key) == 't' as int
    ensures Xor(0xfd, key) == 'e' as int
    ensures Xor(0xea, key) == 'r' as int
  {
    DocExampleChar0(key);
    DocExampleChar1And8(key);
    DocExampleChar2(key);
    DocExampleChar3And4(key);
    DocExampleChar5(key);
    DocExampleChar6And9(key);
    DocExampleChar7(key);
  }

  /** A ten-character string with the characters of "Idolm@ster" at every index is that string. */
  lemma DocName(r: string)
    requires |r| == 10
    requires r[0] == 'I' && r[1] == 'd' && r[2] == 'o' && r[3] == 'l' && r[4] == 'm'
    requires r[5] == '@' && r[6] == 's' && r[7] == 't' && r[8] == 'e' && r[9] == 'r'
    ensures r == "Idolm@ster"
  {
  }

  /** A body of ten pairs each of which parses has every pair parsing. */
  lemma TenPairsParse(body: seq<byte>)
    requires |body| == 20
    requires ParsePair(PairAt(body, 0)).Some?
    requires ParsePair(PairAt(body, 1)).Some?
    requires ParsePair(PairAt(body, 2)).Some?
    requires ParsePair(PairAt(body, 3)).Some?
    requires ParsePair(PairAt(body, 4)).Some?
    requires ParsePair(PairAt(body, 5)).Some?
    requires ParsePair(PairAt(body, 6)).Some?
    requires ParsePair(PairAt(body, 7)).Some?
    requires ParsePair(PairAt(body, 8)).Some?
    requires ParsePair(PairAt(body, 9)).Some?
    ensures forall j :: 0 <= j < |body| / 2 ==> ParsePair(PairAt(body, j)).Some?
  {
  }

  /** The ten pairs after the key parse to the codes of the documentation example. */
  predicate DocCodes(body: seq<byte>) {
    && |body| == 20
    && ParsePair(PairAt(body, 0)) == Some(0xd1)
    && ParsePair(PairAt(body, 1)) == Some(0xfc)
    && ParsePair(PairAt(body, 2)) == Some(0xf7)
    && ParsePair(PairAt(body, 3)) == Some(0xf4)
    && ParsePair(PairAt(body, 4)) == Some(0xf5)
    && ParsePair(PairAt(body, 5)) == Some(0xd8)
    && ParsePair(PairAt(body, 6)) == Some(0xeb)
    && ParsePair(PairAt(body, 7)) == Some(0xec)
    && ParsePair(PairAt(body, 8)) == Some(0xfd)
    && ParsePair(PairAt(body, 9)) == Some(0xea)
  }

  /** The first five characters decoded from the pairs of the documentation example. */
  lemma DocBodyFront(body: seq<byte>, key: nat)
    requires DocCodes(body) && key == 0x98
    ensures |DecodeBody(body, key)| == 10
    ensures DecodeBody(body, key)[0] == 'I'
    ensures DecodeBody(body, key)[1] == 'd'
    ensures DecodeBody(body, key)[2] == 'o'
    ensures DecodeBody(body, key)[3] == 'l'
    ensures DecodeBody(body, key)[4] == 'm'
  {
    TenPairsParse(body);
    AllPairsDecoded(body, key);
    DocChars(key);
  }

  /** The last five characters decoded from the pairs of the documentation example. */
  lemma DocBodyBack(body: seq<byte>, key: nat)
    requires DocCodes(body) && key == 0x98
    ensures |DecodeBody(body, key)| == 10
    ensures DecodeBody(body, key)[5] == '@'
    ensures DecodeBody(body, key)[6] == 's'
    ensures DecodeBody(body, key)[7] == 't'
    ensures DecodeBody(body, key)[8] == 'e'
    ensures DecodeBody(body, key)[9] == 'r'
  {
    TenPairsParse(body);
    AllPairsDecoded(body, key);
    DocChars(key);
  }

  /** Ten pairs with the codes of the documentation example decode, with key 0x98, to "Idolm@ster". */
  lemma DocBody(body: seq<byte>, key: nat)
    requires DocCodes(body) && key == 0x98
    ensures DecodeBody(body, key) == "Idolm@ster"
  {
    DocBodyFront(body, key);
    DocBodyBack(body, key);
    DocName(DecodeBody(body, key));
  }

  /** `"é"` is two bytes, C3 A9: the key slice is the whole string, it does not parse, and the result is the fallback. */
  lemma TwoByteCharGivesFallback()
    ensures Completes([0xC3, 0xA9]) && Decode([0xC3, 0xA9]) == Fallback
  {
    var data: seq<byte> := [0xC3, 0xA9];
    assert data[..2] == data;
    assert HexDigit(data[0]).None?;
    BadKeyGivesFallback(data);
  }

  /** `"€"` is three bytes, E2 82 AC: offset 2 falls inside it and `&data[0..2]` panics. */
  lemma ThreeByteCharPanics()
    ensures !Completes([0xE2, 0x82, 0xAC])
  {
    SplitKeyPanics([0xE2, 0x82, 0xAC]);
  }

  /** The documentation example: `parse_cfemail("98d1fcf7f4f5d8ebecfdea") == "Idolm@ster"`. */
  lemma DocExample()
    ensures Completes(AsciiBytes(DocAttribute))
    ensures Decode(AsciiBytes(DocAttribute)) == "Idolm@ster"
  {
    DocBytes();
    DocKey();
    AsciiCompletes(DocData);
    DocPair0();
    DocPair1();
    DocPair2();
    DocPair3();
    DocPair4();
    DocPair5();
    DocPair6();
    DocPair7();
    DocPair8();
    DocPair9();
    DocBody(DocData[2..], 0x98);
  }
}
