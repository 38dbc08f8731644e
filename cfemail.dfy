/**
 * `parse_cfemail` (crates/lib/src/helpers/cfemail.rs): decodes the
 * `data-cfemail` attribute of Cloudflare's email protection. The first two
 * hex digits are a one-byte XOR key; every following pair of hex digits,
 * XORed with the key, is one character of the address. A pair that does not
 * parse is skipped; a key that does not parse gives a fixed fallback string.
 *
 * The input is the UTF-8 encoding of the Rust `&str`, because the source
 * slices it by byte offset.
 */
module CfEmail {
  import opened Wrappers
  import opened RustStr

  /** What the function returns when the key does not parse, spelt as in the source. */
  const Fallback: string := "[email protected]"

  /** The key: the first two bytes read by `from_str_radix(_, 16)`; two hex digits, or `+` and one, so below 256. */
  function Key(data: seq<byte>): (r: Option<nat>)
    requires |data| >= 2
    ensures r == ParsePair(data[..2])
    ensures r.Some? ==> r.value < 0x100
  {
    FromStrRadix16Pair(data[..2]);
    FromStrRadix16(data[..2])
  }

  /** The slice `&data[n..n + 2]` the loop takes at offset `n` does not panic. */
  predicate PairSliceOk(data: seq<byte>, n: nat)
    ensures PairSliceOk(data, n) ==> n + 2 <= |data|
  {
    SliceOk(data, n, n + 2)
  }

  /**
   * `parse_cfemail(data)` returns instead of panicking: the key slice
   * `&data[0..2]` is legal and, when the key parses, so is the pair slice at
   * every offset 2, 4, ... that the loop visits while it is below the length.
   */
  predicate Completes(data: seq<byte>)
    ensures Completes(data) ==> |data| >= 2
  {
    && SliceOk(data, 0, 2)
    && (Key(data).Some? ==>
          forall n :: 2 <= n < |data| && n % 2 == 0 ==> PairSliceOk(data, n))
  }

  /** With a key that parses, an odd-length input panics: the last pair slice runs one byte past the end. */
  lemma OddLengthPanics(data: seq<byte>)
    requires SliceOk(data, 0, 2) && Key(data).Some?
    ensures |data| % 2 == 1 ==> !Completes(data)
  {
    if |data| % 2 == 1 {
      assert !PairSliceOk(data, |data| - 1);
    }
  }

  /** So a completing input whose key parses has even length. */
  lemma CompletesEven(data: seq<byte>)
    requires Completes(data) && Key(data).Some?
    ensures |data| % 2 == 0
  {
    OddLengthPanics(data);
  }

  /** The character pushed for a pair that parsed to `code`: `char::from_u32(code ^ key)`, whose default is never used. */
  function PushedChar(code: nat, key: nat): (c: char)
    requires code < 0x100 && key < 0x100
    ensures c as int == Xor(code, key) && c as int < 0x100
    ensures FromU32(Xor(code, key)).Some?
  {
    XorByteBound(code, key);
    FromU32(Xor(code, key)).GetOr('\0')
  }

  /** What one pair contributes: its character when it parses, nothing when it does not. */
  function PairChars(pair: seq<byte>, key: nat): (r: string)
    requires |pair| == 2 && key < 0x100
    ensures |r| <= 1
  {
    FromStrRadix16Pair(pair);
    match FromStrRadix16(pair)
    case Some(code) => [PushedChar(code, key)]
    case None => []
  }

  /** The characters decoded from the pairs of `body` (the bytes after the key), in order. */
  function DecodeBody(body: seq<byte>, key: nat): (r: string)
    requires |body| % 2 == 0 && key < 0x100
    ensures |r| <= |body| / 2
    ensures forall i :: 0 <= i < |r| ==> r[i] as int < 0x100
    decreases |body|
  {
    if |body| == 0 then [] else PairChars(body[..2], key) + DecodeBody(body[2..], key)
  }

  /** The value `parse_cfemail` returns. */
  function Decode(data: seq<byte>): (r: string)
    requires Completes(data)
    ensures Key(data).None? ==> r == Fallback
    ensures Key(data).Some? ==> |r| <= |data| / 2 - 1
    ensures forall i :: 0 <= i < |r| ==> r[i] as int < 0x100
  {
    match Key(data)
    case None => Fallback
    case Some(key) =>
      FromStrRadix16Pair(data[..2]);
      CompletesEven(data);
      DecodeBody(data[2..], key)
  }

  /** Decoding two runs of pairs one after the other is decoding each and concatenating. */
  lemma {:induction false} DecodeBodyConcat(a: seq<byte>, b: seq<byte>, key: nat)
    requires |a| % 2 == 0 && |b| % 2 == 0 && key < 0x100
    ensures DecodeBody(a + b, key) == DecodeBody(a, key) + DecodeBody(b, key)
    decreases |a|
  {
    if |a| == 0 {
      assert a + b == b;
    } else {
      assert (a + b)[..2] == a[..2];
      assert (a + b)[2..] == a[2..] + b;
      DecodeBodyConcat(a[2..], b, key);
    }
  }

  /** One iteration of the loop: the pair at offset `n` adds its character, or nothing, at the end. */
  lemma DecodeBodyStep(data: seq<byte>, n: nat, key: nat)
    requires 2 <= n && n + 2 <= |data| && n % 2 == 0 && key < 0x100
    ensures DecodeBody(data[2..n + 2], key) == DecodeBody(data[2..n], key) + PairChars(data[n..n + 2], key)
  {
    var front, pair := data[2..n], data[n..n + 2];
    assert |front| % 2 == 0 by {
      assert |front| == 2 * ((n - 2) / 2);
    }
    assert DecodeBody(pair, key) == PairChars(pair, key) by {
      assert pair[..2] == pair && pair[2..] == [];
    }
    assert data[2..n + 2] == front + pair;
    DecodeBodyConcat(front, pair, key);
  }

  /**
   * The loop of `parse_cfemail`: parse the key, then walk the pairs from
   * offset 2, pushing `char::from_u32(code ^ key).unwrap_or_default()` for
   * every pair that parses. Every slice it takes is proved legal.
   */
  method ParseCfemail(data: seq<byte>) returns (email: string)
    requires Completes(data)
    ensures email == Decode(data)
  {
    var keyDigits := StrSlice(data, 0, 2);
    match FromStrRadix16(keyDigits) {
      case Some(key) =>
        FromStrRadix16Pair(keyDigits);
        CompletesEven(data);
        email := [];
        var n := 2;
        while n < |data|
          invariant 2 <= n <= |data| && n % 2 == 0
          invariant email == DecodeBody(data[2..n], key)
        {
          assert PairSliceOk(data, n);
          var pair := StrSlice(data, n, n + 2);
          match FromStrRadix16(pair) {
            case Some(chrcode) =>
              FromStrRadix16Pair(pair);
              var code := Xor(chrcode, key);
              email := email + [FromU32(code).GetOr('\0')];
            case None =>
          }
          DecodeBodyStep(data, n, key);
          n := n + 2;
        }
        assert data[2..n] == data[2..];
      case None =>
        email := Fallback;
    }
  }
}
