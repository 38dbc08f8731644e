# Cloudflare email decoding (`parse_cfemail`)

This project models `parse_cfemail` from `crates/lib/src/helpers/cfemail.rs` and proves properties of it. The function decodes the value of the `data-cfemail` attribute that Cloudflare's email protection writes in place of an address:

- The first two hex digits are a one-byte XOR key.
- Each following pair of hex digits, XORed with the key, gives one character of the address.
- A pair that does not parse is skipped.
- A key that does not parse makes the function return the fixed string `"[email protected]"`, spelt exactly as in the source.

The model has four modules:

- `RustStr` (`rust_str.dfy`) covers the parts of Rust's core library that the function uses:
  - slicing a `&str` at char boundaries;
  - `u32::from_str_radix(_, 16)`, with an optional leading `+`, either letter case and overflow detection;
  - `^` on `u32`, written as a bitwise exclusive or on naturals;
  - `char::from_u32`.
- `CfEmail` (`cfemail.dfy`) holds the method `ParseCfemail`. It follows the source's `while n < data.len()` loop: it pushes onto `email` and advances `n` by 2. It is proved to return `Decode(data)`, the pure recursive reading of the same algorithm.
- `CfEmailProperties` (`cfemail_props.dfy`) proves facts about `Decode`:
  - when the function panics;
  - the fallback;
  - the length of the output;
  - what each character is;
  - that pairs are skipped, and the order kept;
  - a round trip against an independent encoder (`Encode`, `EncodeBody`).
- `CfEmailExamples` (`cfemail_examples.dfy`) proves the documentation example: `parse_cfemail("98d1fcf7f4f5d8ebecfdea") == "Idolm@ster"`.

The input is modelled as the UTF-8 bytes of the `&str`, because Rust slices a `&str` by byte offset. A slice panics unless both ends are char boundaries. The precondition `Completes` of `ParseCfemail` is exactly the condition under which no slice the function takes panics. It is weaker than "even length, ASCII, at least two bytes", and `AsciiCompletes` shows that those three conditions imply it. Two inputs show the difference:

- `"zzz"` has odd length and a bad key, and still returns the fallback.
- A two-byte non-ASCII character in a pair slot is simply a pair that does not parse.

Two consequences of the code are worth stating, because a reader might expect the fallback in both cases:

- **Short input.** `&data[0..2]` (line 19) panics on any input shorter than two bytes, that is on `""` or on one ASCII character (`ShortInputPanics`). A lone two-byte character such as `"é"` (C3 A9) is a key slice that does not parse, so it gets the fallback (`TwoByteCharGivesFallback`). A character of three or more bytes at the start puts offset 2 inside it, and the key slice panics (`SplitKeyPanics`, `ThreeByteCharPanics`).
- **Missing attribute.** `decode_cfemail` turns a missing `data-cfemail` attribute into `""` (line 42), which panics the same way.

## Model

| member | source | states |
|---|---|---|
| CfEmail.ParseCfemail | crates/lib/src/helpers/cfemail.rs:17-34 | the loop, with every slice it takes proved legal, returns exactly `Decode(data)`; invariant `2 <= n <= len`, `n` even, and `email` is the decoding of the pairs before `n` |
| CfEmail.Decode | crates/lib/src/helpers/cfemail.rs:17-34 | a key that does not parse gives the fallback; otherwise at most `len / 2 - 1` characters (chars, not UTF-8 bytes), each a code point below 256 |
| CfEmail.DecodeBody | crates/lib/src/helpers/cfemail.rs:23-29 | the characters decoded from the pairs after the key: at most one per pair, each below 256 |
| CfEmail.PairChars | crates/lib/src/helpers/cfemail.rs:24-27 | one pair contributes at most one character |
| CfEmail.PushedChar | crates/lib/src/helpers/cfemail.rs:25-26 | the pushed character is `code ^ key`, below 256; `char::from_u32` succeeds, so `unwrap_or_default` never supplies its default |
| CfEmail.OddLengthPanics | crates/lib/src/helpers/cfemail.rs:23-24 | with a valid key, an odd-length input panics at the last pair slice |
| CfEmail.CompletesEven | crates/lib/src/helpers/cfemail.rs:23-24 | an input that returns on the key-valid path has even length |
| CfEmail.DecodeBodyConcat | crates/lib/src/helpers/cfemail.rs:23-29 | decoding two runs of pairs one after the other is concatenating their decodings |
| CfEmail.DecodeBodyStep | crates/lib/src/helpers/cfemail.rs:23-29 | one loop iteration appends what the pair at offset `n` contributes, and nothing else |
| Wrappers.Option.GetOr | crates/lib/src/helpers/cfemail.rs:26 | `unwrap_or_default`: the value inside `Some`, or the given default for `None` |
| RustStr.IsCharBoundary | crates/lib/src/helpers/cfemail.rs:19-24 | `str::is_char_boundary`: offset 0, the end, or a byte that is not a UTF-8 continuation byte; never beyond the end |
| RustStr.SliceOk | crates/lib/src/helpers/cfemail.rs:19-24 | `&s[a..b]` does not panic: `a <= b` and both ends are char boundaries, so `b <= len` |
| RustStr.StrSlice | crates/lib/src/helpers/cfemail.rs:19-24 | the slice has `b - a` bytes and is the middle piece: the bytes before `a`, the slice and the bytes from `b` make up the string |
| RustStr.Xor | crates/lib/src/helpers/cfemail.rs:25 | `^` on `u32`, bit by bit; it carries no contract of its own, and its properties are `XorStep`, `XorParity`, `XorZeroIff`, `XorInvolution` and `XorBound` |
| RustStr.XorZeroIff | crates/lib/src/helpers/cfemail.rs:25 | the XOR of two values is zero exactly when they are equal, in both directions |
| CfEmail.Fallback | crates/lib/src/helpers/cfemail.rs:32 | the string returned when the key does not parse, spelt as in the source |
| CfEmail.Key | crates/lib/src/helpers/cfemail.rs:19 | the key is `from_str_radix` of the first two bytes, which is two hex digits or `+` and one, so below 256 |
| CfEmail.PairSliceOk | crates/lib/src/helpers/cfemail.rs:24 | the slice `&data[n..n + 2]` does not panic, so `n + 2 <= len` |
| CfEmail.Completes | crates/lib/src/helpers/cfemail.rs:19-29 | the function returns instead of panicking: the key slice is legal and, with a valid key, so is every pair slice the loop takes; such an input has at least two bytes |
| RustStr.HexDigit | crates/lib/src/helpers/cfemail.rs:19 | a byte is a hex digit exactly when it is `0-9`, `a-f` or `A-F`; its value is below 16 |
| RustStr.DigitsValue | crates/lib/src/helpers/cfemail.rs:19 | a run of bytes has a value exactly when every byte is a hex digit |
| RustStr.FromStrRadix16 | crates/lib/src/helpers/cfemail.rs:19 | `u32::from_str_radix(_, 16)` yields a value below 2^32 and rejects the empty string |
| RustStr.ParsePair | crates/lib/src/helpers/cfemail.rs:24 | reading two bytes as two hex digits, or `+` and one hex digit: a value below 256 |
| RustStr.FromStrRadix16Pair | crates/lib/src/helpers/cfemail.rs:19-24 | on a two-byte slice `from_str_radix` is exactly that reading, so the key and every pair code are below 256 |
| RustStr.XorBound | crates/lib/src/helpers/cfemail.rs:25 | XOR of two values below 2^n is below 2^n |
| RustStr.XorByteBound | crates/lib/src/helpers/cfemail.rs:25 | XOR of two byte values is a byte value |
| RustStr.XorStep | crates/lib/src/helpers/cfemail.rs:25 | XOR works bit by bit: its half is the XOR of the halves, its low bit the sum of the low bits mod 2 |
| RustStr.XorParity | crates/lib/src/helpers/cfemail.rs:25 | the low bit of the XOR is set exactly when the operands' low bits differ |
| RustStr.HalvesAndParity | crates/lib/src/helpers/cfemail.rs:25 | a natural is determined by its half and its low bit |
| RustStr.XorInvolution | crates/lib/src/helpers/cfemail.rs:25 | XOR with the same key twice gives back the original value |
| RustStr.FromU32 | crates/lib/src/helpers/cfemail.rs:26 | `char::from_u32` succeeds exactly outside the surrogates and below U+110000, and keeps the value |
| CfEmailProperties.ShortInputPanics | crates/lib/src/helpers/cfemail.rs:19 | an input shorter than two bytes, the empty string included, panics at the key slice |
| CfEmailProperties.CompletesIff | crates/lib/src/helpers/cfemail.rs:19-24 | the function returns exactly when it has at least two bytes, byte 2 is a char boundary and, with a valid key, the length is even and every even offset is a char boundary |
| CfEmailProperties.AsciiCompletes | crates/lib/src/helpers/cfemail.rs:19-24 | every ASCII input of even length and at least two bytes returns |
| CfEmailProperties.BadKeyGivesFallback | crates/lib/src/helpers/cfemail.rs:19-32 | a key that does not parse gives exactly the fallback string, whatever follows and even at odd length |
| CfEmailProperties.SplitKeyPanics | crates/lib/src/helpers/cfemail.rs:19 | when the third byte is a UTF-8 continuation byte, `&data[0..2]` cuts a character and panics |
| CfEmailProperties.KeyOnlyIsEmpty | crates/lib/src/helpers/cfemail.rs:20-30 | a valid key with nothing after it (such as `"00"`) gives the empty string |
| CfEmailProperties.PairAt | crates/lib/src/helpers/cfemail.rs:24 | the `j`-th pair after the key is two bytes long |
| CfEmailProperties.PairParses | crates/lib/src/helpers/cfemail.rs:24 | one verdict per pair after the key |
| CfEmailProperties.PairCharsSpec | crates/lib/src/helpers/cfemail.rs:24-27 | a pair that does not parse contributes nothing; one that parses contributes exactly one character, its value XOR the key |
| CfEmailProperties.PairAtTail | crates/lib/src/helpers/cfemail.rs:28 | pair `j` of a body is pair `j - 1` of the body after its first pair |
| CfEmailProperties.PairParsesCons | crates/lib/src/helpers/cfemail.rs:24-28 | the verdicts of a body are the first pair's verdict followed by those of the rest |
| CfEmailProperties.DecodeBodyLength | crates/lib/src/helpers/cfemail.rs:23-29 | the output has exactly one character (char) per pair that parses |
| CfEmailProperties.DecodeBodyFullLengthIff | crates/lib/src/helpers/cfemail.rs:23-29 | that count is at most the number of pairs, and equals it exactly when every pair parses |
| CfEmailProperties.DecodeLength | crates/lib/src/helpers/cfemail.rs:20-29 | on the key-valid path the number of characters is the number of pairs that parse, at most `len / 2 - 1` (where `len` counts input bytes), and equal to it exactly when every pair parses |
| CfEmailProperties.CountTrue | crates/lib/src/helpers/cfemail.rs:23-29 | the count of true verdicts is at most their number, with equality exactly when all are true |
| CfEmailProperties.AllPairsDecoded | crates/lib/src/helpers/cfemail.rs:24-26 | when every pair parses, character `j` of the output is pair `j` XOR the key |
| CfEmailProperties.DecodeBodyOnePair | crates/lib/src/helpers/cfemail.rs:23-29 | a body of one pair decodes to that pair's contribution |
| CfEmailProperties.DecodeBodyAround | crates/lib/src/helpers/cfemail.rs:23-29 | decoding `before + pair + after` is decoding `before`, then the pair, then `after` |
| CfEmailProperties.MalformedPairSkipped | crates/lib/src/helpers/cfemail.rs:23-29 | a malformed pair in mid-string is dropped; the pairs before and after it are still decoded, in order |
| CfEmailProperties.ValidPairKept | crates/lib/src/helpers/cfemail.rs:24-28 | a well-formed pair in mid-string contributes its value XOR the key, at its place between the decodings before and after it |
| CfEmailProperties.HexDigitByte | crates/lib/src/helpers/cfemail.rs:24 | the lower-case digit written for a value below 16 parses back to that value |
| CfEmailProperties.HexPair | crates/lib/src/helpers/cfemail.rs:19-24 | the two hex digits written for a byte value are ASCII and parse back to that value |
| CfEmailProperties.EncodeChar | crates/lib/src/helpers/cfemail.rs:24-25 | the pair written for one character is two ASCII bytes |
| CfEmailProperties.EncodeBody | crates/lib/src/helpers/cfemail.rs:23-29 | an encoded message has two ASCII bytes per character |
| CfEmailProperties.Encode | crates/lib/src/helpers/cfemail.rs:19-29 | an encoded attribute is the key's two digits followed by two bytes per character |
| CfEmailProperties.PairOfEncodedChar | crates/lib/src/helpers/cfemail.rs:24-26 | the pair written for a character decodes to that character |
| CfEmailProperties.DecodeEncodeBody | crates/lib/src/helpers/cfemail.rs:23-29 | decoding the encoded pairs of a message gives the message back |
| CfEmailProperties.DecodeEncode | crates/lib/src/helpers/cfemail.rs:19-30 | round trip: for every key below 256 and every message of code points below 256, the encoding returns and decodes back to the message |
| CfEmailExamples.AsciiBytes | crates/lib/src/helpers/cfemail.rs:13 | an ASCII string has one byte per character |
| CfEmailExamples.DocExampleChar0 | crates/lib/src/helpers/cfemail.rs:13-14 | `0xd1 ^ 0x98` is `'I'` |
| CfEmailExamples.DocExampleChar1And8 | crates/lib/src/helpers/cfemail.rs:13-14 | `0xfc ^ 0x98` is `'d'` and `0xfd ^ 0x98` is `'e'` |
| CfEmailExamples.DocExampleChar2 | crates/lib/src/helpers/cfemail.rs:13-14 | `0xf7 ^ 0x98` is `'o'` |
| CfEmailExamples.DocExampleChar3And4 | crates/lib/src/helpers/cfemail.rs:13-14 | `0xf4 ^ 0x98` is `'l'` and `0xf5 ^ 0x98` is `'m'` |
| CfEmailExamples.DocExampleChar5 | crates/lib/src/helpers/cfemail.rs:13-14 | `0xd8 ^ 0x98` is `'@'` |
| CfEmailExamples.DocExampleChar6And9 | crates/lib/src/helpers/cfemail.rs:13-14 | `0xeb ^ 0x98` is `'s'` and `0xea ^ 0x98` is `'r'` |
| CfEmailExamples.DocExampleChar7 | crates/lib/src/helpers/cfemail.rs:13-14 | `0xec ^ 0x98` is `'t'` |
| CfEmailExamples.DocBytes | crates/lib/src/helpers/cfemail.rs:13 | the bytes of the example attribute |
| CfEmailExamples.DocKey | crates/lib/src/helpers/cfemail.rs:19 | the example's key is 0x98 |
| CfEmailExamples.DocPair0 | crates/lib/src/helpers/cfemail.rs:24 | the example's first pair parses to 0xd1 |
| CfEmailExamples.DocPair1 | crates/lib/src/helpers/cfemail.rs:24 | its second pair parses to 0xfc |
| CfEmailExamples.DocPair2 | crates/lib/src/helpers/cfemail.rs:24 | its third pair parses to 0xf7 |
| CfEmailExamples.DocPair3 | crates/lib/src/helpers/cfemail.rs:24 | its fourth pair parses to 0xf4 |
| CfEmailExamples.DocPair4 | crates/lib/src/helpers/cfemail.rs:24 | its fifth pair parses to 0xf5 |
| CfEmailExamples.DocPair5 | crates/lib/src/helpers/cfemail.rs:24 | its sixth pair parses to 0xd8 |
| CfEmailExamples.DocPair6 | crates/lib/src/helpers/cfemail.rs:24 | its seventh pair parses to 0xeb |
| CfEmailExamples.DocPair7 | crates/lib/src/helpers/cfemail.rs:24 | its eighth pair parses to 0xec |
| CfEmailExamples.DocPair8 | crates/lib/src/helpers/cfemail.rs:24 | its ninth pair parses to 0xfd |
| CfEmailExamples.DocPair9 | crates/lib/src/helpers/cfemail.rs:24 | its tenth pair parses to 0xea |
| CfEmailExamples.DocChars | crates/lib/src/helpers/cfemail.rs:25 | the ten pair codes XOR 0x98 are the characters of `"Idolm@ster"` |
| CfEmailExamples.DocName | crates/lib/src/helpers/cfemail.rs:14 | a ten-character string with the characters of `"Idolm@ster"` at every index is that string |
| CfEmailExamples.TenPairsParse | crates/lib/src/helpers/cfemail.rs:24 | ten pairs that each parse are all the pairs of the body, and all parse |
| CfEmailExamples.DocBodyFront | crates/lib/src/helpers/cfemail.rs:24-26 | the example's first five characters decode to `"Idolm"` |
| CfEmailExamples.DocBodyBack | crates/lib/src/helpers/cfemail.rs:24-26 | its last five characters decode to `"@ster"` |
| CfEmailExamples.DocBody | crates/lib/src/helpers/cfemail.rs:12-15 | pairs with the example's codes decode, with key 0x98, to `"Idolm@ster"` |
| CfEmailExamples.DocExample | crates/lib/src/helpers/cfemail.rs:12-15 | `parse_cfemail("98d1fcf7f4f5d8ebecfdea")` returns, and returns `"Idolm@ster"` |
| CfEmailExamples.TwoByteCharGivesFallback | crates/lib/src/helpers/cfemail.rs:19-32 | `"é"` (C3 A9) completes and gives exactly the fallback |
| CfEmailExamples.ThreeByteCharPanics | crates/lib/src/helpers/cfemail.rs:19 | `"€"` (E2 82 AC) panics at the key slice |

## Left out

- `decode_cfemail` (cfemail.rs:37-45) is not part of this model. It is a loop over the `Element` API of `crate::imports::html` (`select`, `attr`, `set_text`), a foreign interface whose behaviour cannot be seen.
- Panics are not modelled as outputs. Any input on which a slice would panic is excluded by the precondition `Completes`, and `ShortInputPanics`, `OddLengthPanics` and `CompletesIff` characterise those inputs.
- `String::with_capacity(data.len() / 2 - 1)` (line 20) is only an allocation hint and has no observable effect. Its subtraction cannot underflow, because the key slice has already succeeded.
- `AsRef<str>` genericity (lines 17-18) is left out: the model takes the string's bytes directly.
- The input is not required to be valid UTF-8. The model only asks that the slice ends fall on bytes that a Rust `&str` would accept as char boundaries.
- `RustStr.Xor` models `u32` XOR on unbounded naturals. This gives the same result as `u32` on operands below 2^32, which is all that occurs here, since the key and every code are below 256.
- The returned `String` is modelled as its sequence of chars. `Decode`, `DecodeBody`, `DecodeLength` and `DecodeBodyLength` count chars, not UTF-8 bytes. A decoded char from U+0080 to U+00FF takes two bytes in Rust's `String::len()`.
- `CfEmail.PairChars`: its own contract only bounds the length. What it contributes is stated in `CfEmailProperties.PairCharsSpec`.
