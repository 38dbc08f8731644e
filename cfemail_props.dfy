/**
 * Properties of `parse_cfemail`, stated on the specification function
 * `CfEmail.Decode` that `CfEmail.ParseCfemail` is proved to compute.
 */
module CfEmailProperties {
  import opened Wrappers
  import opened RustStr
  import opened CfEmail

  // ---------------------------------------------------------------------
  // When the function panics and when it returns

  /** An input shorter than two bytes panics at the key slice; this includes the empty attribute value. */
  lemma ShortInputPanics(data: seq<byte>)
    requires |data| < 2
    ensures !Completes(data)
  {
  }

  /** The conditions under which the function returns, stated on the length and the char boundaries. */
  lemma CompletesIff(data: seq<byte>)
    ensures Completes(data) <==>
      && |data| >= 2
      && IsCharBoundary(data, 2)
      && (Key(data).Some? ==>
            |data| % 2 == 0 && forall i :: 2 <= i <= |data| && i % 2 == 0 ==> IsCharBoundary(data, i))
  {
    if Completes(data) && Key(data).Some? {
      CompletesEven(data);
      forall i | 2 <= i <= |data| && i % 2 == 0
        ensures IsCharBoundary(data, i)
      {
        if i > 2 {
          assert PairSliceOk(data, i - 2);
        }
      }
    }
    if && |data| >= 2 && IsCharBoundary(data, 2)
       && (Key(data).Some? ==>
             |data| % 2 == 0 && forall i :: 2 <= i <= |data| && i % 2 == 0 ==> IsCharBoundary(data, i))
    {
      if Key(data).Some? {
        forall n | 2 <= n < |data| && n % 2 == 0
          ensures PairSliceOk(data, n)
        {
          assert IsCharBoundary(data, n) && IsCharBoundary(data, n + 2);
        }
      }
    }
  }

  /** Every ASCII input of even length, at least two bytes long, returns. */
  lemma AsciiCompletes(data: seq<byte>)
    requires |data| >= 2 && |data| % 2 == 0
    requires forall i :: 0 <= i < |data| ==> data[i] < 0x80
    ensures Completes(data)
  {
    CompletesIff(data);
  }

  /** A key that does not parse gives the fallback whatever follows it, even an odd number of bytes. */
  lemma BadKeyGivesFallback(data: seq<byte>)
    requires |data| >= 2 && IsCharBoundary(data, 2) && Key(data).None?
    ensures Completes(data) && Decode(data) == Fallback
  {
  }

  /** A character that straddles offset 2 makes the key slice `&data[0..2]` panic. */
  lemma SplitKeyPanics(data: seq<byte>)
    requires |data| > 2 && 0x80 <= data[2] < 0xC0
    ensures !Completes(data)
  {
  }

  /** A key with nothing after it decodes to the empty string: the loop never runs. */
  lemma KeyOnlyIsEmpty(data: seq<byte>)
    requires |data| == 2 && Key(data).Some?
    ensures Completes(data) && Decode(data) == []
  {
  }

  // ---------------------------------------------------------------------
  // Pairs and characters

  /** The `j`-th pair after the key, as the loop slices it at offset `2 * j + 2` of the input. */
  function PairAt(body: seq<byte>, j: nat): (p: seq<byte>)
    requires j < |body| / 2
    ensures |p| == 2
  {
    body[2 * j..2 * j + 2]
  }

  /** Which pairs of `body` parse, in order. */
  function PairParses(body: seq<byte>): (ok: seq<bool>)
    requires |body| % 2 == 0
    ensures |ok| == |body| / 2
  {
    seq(|body| / 2, j requires 0 <= j < |body| / 2 => ParsePair(PairAt(body, j)).Some?)
  }

  /** What a pair contributes, in terms of the plain reading of a two-byte hex parse. */
  lemma PairCharsSpec(pair: seq<byte>, key: nat)
    requires |pair| == 2 && key < 0x100
    ensures ParsePair(pair).None? ==> PairChars(pair, key) == []
    ensures ParsePair(pair).Some? ==>
      |PairChars(pair, key)| == 1 && PairChars(pair, key)[0] as int == Xor(ParsePair(pair).value, key)
  {
    FromStrRadix16Pair(pair);
  }

  /** Splitting a body after its first pair. */
  lemma PairAtTail(body: seq<byte>, j: nat)
    requires |body| % 2 == 0 && 0 < j < |body| / 2
    ensures PairAt(body, j) == PairAt(body[2..], j - 1)
  {
  }

  /** The first pair's verdict followed by the verdicts of the rest. */
  lemma PairParsesCons(body: seq<byte>)
    requires |body| % 2 == 0 && |body| > 0
    ensures PairParses(body) == [ParsePair(body[..2]).Some?] + PairParses(body[2..])
  {
    forall j | 0 < j < |body| / 2
      ensures PairParses(body)[j] == PairParses(body[2..])[j - 1]
    {
      PairAtTail(body, j);
    }
  }

  /** The decoded text has one character per pair that parses. */
  lemma {:induction false} DecodeBodyLength(body: seq<byte>, key: nat)
    requires |body| % 2 == 0 && key < 0x100
    ensures |DecodeBody(body, key)| == multiset(PairParses(body))[true]
    decreases |body|
  {
    if |body| > 0 {
      PairCharsSpec(body[..2], key);
      DecodeBodyLength(body[2..], key);
      PairParsesCons(body);
    }
  }

  /** That count is at most the number of pairs, and reaches it exactly when every pair parses. */
  lemma DecodeBodyFullLengthIff(body: seq<byte>, key: nat)
    requires |body| % 2 == 0 && key < 0x100
    ensures |DecodeBody(body, key)| <= |body| / 2
    ensures |DecodeBody(body, key)| == |body| / 2 <==>
      forall j :: 0 <= j < |body| / 2 ==> ParsePair(PairAt(body, j)).Some?
  {
    DecodeBodyLength(body, key);
    var ok := PairParses(body);
    CountTrue(ok);
    assert forall j :: 0 <= j < |body| / 2 ==> ok[j] == ParsePair(PairAt(body, j)).Some?;
  }

  /**
   * On the key-valid path the output has one character per pair after the key
   * that parses: at most `|data| / 2 - 1` of them, and exactly that many when
   * every pair parses.
   */
  lemma DecodeLength(data: seq<byte>)
    requires Completes(data) && Key(data).Some?
    ensures |data| % 2 == 0
    ensures |Decode(data)| == multiset(PairParses(data[2..]))[true]
    ensures |Decode(data)| <= |data| / 2 - 1
    ensures |Decode(data)| == |data| / 2 - 1 <==>
      forall j :: 0 <= j < |data[2..]| / 2 ==> ParsePair(PairAt(data[2..], j)).Some?
  {
    CompletesEven(data);
    FromStrRadix16Pair(data[..2]);
    DecodeBodyLength(data[2..], Key(data).value);
    DecodeBodyFullLengthIff(data[2..], Key(data).value);
  }

  /** `multiset(s)[true]` is at most `|s|`, with equality exactly when every element is true. */
  lemma {:induction false} CountTrue(s: seq<bool>)
    ensures multiset(s)[true] <= |s|
    ensures multiset(s)[true] == |s| <==> forall j :: 0 <= j < |s| ==> s[j]
  {
    if |s| > 0 {
      CountTrue(s[1..]);
      assert s == [s[0]] + s[1..];
      assert multiset(s) == multiset([s[0]]) + multiset(s[1..]);
      if !s[0] {
        assert multiset(s)[true] == multiset(s[1..])[true];
      }
      if forall j :: 0 <= j < |s| - 1 ==> s[1..][j] {
        assert forall j :: 1 <= j < |s| ==> s[j] == s[1..][j - 1];
      }
    }
  }

  /** When every pair parses, character `j` of the output is pair `j` XOR the key. */
  lemma {:induction false} AllPairsDecoded(body: seq<byte>, key: nat)
    requires |body| % 2 == 0 && key < 0x100
    requires forall j :: 0 <= j < |body| / 2 ==> ParsePair(PairAt(body, j)).Some?
    ensures |DecodeBody(body, key)| == |body| / 2
    ensures forall j :: 0 <= j < |body| / 2 ==>
      DecodeBody(body, key)[j] as int == Xor(ParsePair(PairAt(body, j)).value, key)
    decreases |body|
  {
    if |body| > 0 {
      forall j | 0 <= j < |body[2..]| / 2
        ensures ParsePair(PairAt(body[2..], j)).Some?
      {
        PairAtTail(body, j + 1);
      }
      AllPairsDecoded(body[2..], key);
      assert PairAt(body, 0) == body[..2];
      PairCharsSpec(body[..2], key);
      forall j | 0 < j < |body| / 2
        ensures DecodeBody(body, key)[j] as int == Xor(ParsePair(PairAt(body, j)).value, key)
      {
        PairAtTail(body, j);
      }
    }
  }

  /** A body of one pair decodes to what that pair contributes. */
  lemma DecodeBodyOnePair(pair: seq<byte>, key: nat)
    requires |pair| == 2 && key < 0x100
    ensures DecodeBody(pair, key) == PairChars(pair, key)
  {
    assert pair[..2] == pair && pair[2..] == [];
  }

  /** Decoding `before + mid + after`, for a single pair `mid`. */
  lemma DecodeBodyAround(before: seq<byte>, mid: seq<byte>, after: seq<byte>, key: nat)
    requires |before| % 2 == 0 && |mid| == 2 && |after| % 2 == 0 && key < 0x100
    ensures DecodeBody(before + mid + after, key) ==
      DecodeBody(before, key) + PairChars(mid, key) + DecodeBody(after, key)
  {
    DecodeBodyConcat(before + mid, after, key);
    DecodeBodyConcat(before, mid, key);
    DecodeBodyOnePair(mid, key);
  }

  /** A malformed pair in the middle is dropped; the pairs on either side are still decoded, in order. */
  lemma MalformedPairSkipped(before: seq<byte>, bad: seq<byte>, after: seq<byte>, key: nat)
    requires |before| % 2 == 0 && |bad| == 2 && |after| % 2 == 0 && key < 0x100
    requires ParsePair(bad).None?
    ensures DecodeBody(before + bad + after, key) == DecodeBody(before, key) + DecodeBody(after, key)
  {
    DecodeBodyAround(before, bad, after, key);
    PairCharsSpec(bad, key);
  }

  /** A well-formed pair in the middle contributes its one character, its value XOR the key, at its place. */
  lemma ValidPairKept(before: seq<byte>, good: seq<byte>, after: seq<byte>, key: nat)
    requires |before| % 2 == 0 && |good| == 2 && |after| % 2 == 0 && key < 0x100
    requires ParsePair(good).Some?
    ensures DecodeBody(before + good + after, key) ==
      DecodeBody(before, key) + [PushedChar(ParsePair(good).value, key)] + DecodeBody(after, key)
  {
    DecodeBodyAround(before, good, after, key);
    FromStrRadix16Pair(good);
  }

  // ---------------------------------------------------------------------
  // Round trip with the encoder

  /** A lower-case hex digit, as Cloudflare writes them. */
  function HexDigitByte(d: nat): (b: byte)
    requires d < 16
    ensures HexDigit(b) == Some(d)
  {
    if d < 10 then '0' as int + d else 'a' as int + d - 10
  }

  /** The two hex digits of a byte value. */
  function HexPair(v: nat): (p: seq<byte>)
    requires v < 0x100
    ensures |p| == 2 && ParsePair(p) == Some(v)
    ensures forall i :: 0 <= i < 2 ==> p[i] < 0x80
  {
    [HexDigitByte(v / 16), HexDigitByte(v % 16)]
  }

  /** Characters the scheme can carry: code points below 256. */
  predicate Encodable(msg: string) {
    forall i :: 0 <= i < |msg| ==> msg[i] as int < 0x100
  }

  /** The pair written for one character: its code point XOR the key, in hex. */
  function EncodeChar(c: char, key: nat): (p: seq<byte>)
    requires c as int < 0x100 && key < 0x100
    ensures |p| == 2 && forall i :: 0 <= i < 2 ==> p[i] < 0x80
  {
    XorByteBound(c as int, key);
    HexPair(Xor(c as int, key))
  }

  /** The obfuscated pairs of `msg`: each code point XOR the key, in hex. */
  function EncodeBody(msg: string, key: nat): (body: seq<byte>)
    requires Encodable(msg) && key < 0x100
    ensures |body| == 2 * |msg|
    ensures forall i :: 0 <= i < |body| ==> body[i] < 0x80
  {
    if |msg| == 0 then [] else EncodeChar(msg[0], key) + EncodeBody(msg[1..], key)
  }

  /** A `data-cfemail` value: the key in hex, then the obfuscated pairs. */
  function Encode(msg: string, key: nat): (data: seq<byte>)
    requires Encodable(msg) && key < 0x100
    ensures |data| == 2 * |msg| + 2
  {
    HexPair(key) + EncodeBody(msg, key)
  }

  /** The pair written for one character decodes to that character. */
  lemma PairOfEncodedChar(c: char, key: nat)
    requires c as int < 0x100 && key < 0x100
    ensures PairChars(EncodeChar(c, key), key) == [c]
  {
    XorByteBound(c as int, key);
    PairCharsSpec(EncodeChar(c, key), key);
    XorInvolution(c as int, key);
  }

  /** Decoding the pairs of an encoded message gives the message back. */
  lemma {:induction false} DecodeEncodeBody(msg: string, key: nat)
    requires Encodable(msg) && key < 0x100
    ensures DecodeBody(EncodeBody(msg, key), key) == msg
    decreases |msg|
  {
    if |msg| > 0 {
      var body := EncodeBody(msg, key);
      assert body[..2] == EncodeChar(msg[0], key) && body[2..] == EncodeBody(msg[1..], key);
      PairOfEncodedChar(msg[0], key);
      DecodeEncodeBody(msg[1..], key);
      assert msg == [msg[0]] + msg[1..];
    }
  }

  /** Round trip: for every key below 256 and every message of code points below 256, decoding its encoding returns it. */
  lemma DecodeEncode(msg: string, key: nat)
    requires Encodable(msg) && key < 0x100
    ensures Completes(Encode(msg, key)) && Decode(Encode(msg, key)) == msg
  {
    var data := Encode(msg, key);
    AsciiCompletes(data);
    assert data[..2] == HexPair(key) && data[2..] == EncodeBody(msg, key);
    FromStrRadix16Pair(HexPair(key));
    DecodeEncodeBody(msg, key);
  }
}
