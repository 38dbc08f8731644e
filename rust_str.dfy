/**
 * The pieces of Rust's core library that `parse_cfemail` relies on, stated on
 * the UTF-8 bytes of a `&str`: char-boundary slicing, `char::to_digit(16)`,
 * `u32::from_str_radix(_, 16)`, `^` on `u32` and `char::from_u32`.
 */
module RustStr {
  import opened Wrappers

  /** One byte of the UTF-8 encoding of a string. */
  type byte = b: int | 0 <= b < 0x100

  const U32_LIMIT: int := 0x1_0000_0000

  /** `str::is_char_boundary`: offset 0, the end, or a byte that is not a UTF-8 continuation byte. */
  predicate IsCharBoundary(s: seq<byte>, i: nat)
    ensures IsCharBoundary(s, i) ==> i <= |s|
  {
    i == 0 || i == |s| || (i < |s| && !(0x80 <= s[i] < 0xC0))
  }

  /** `&s[a..b]` succeeds (does not panic) exactly when this holds. */
  predicate SliceOk(s: seq<byte>, a: nat, b: nat)
    ensures SliceOk(s, a, b) ==> a <= b <= |s|
  {
    a <= b && IsCharBoundary(s, a) && IsCharBoundary(s, b)
  }

  /** `&s[a..b]` on a `&str`; the precondition is the condition under which Rust does not panic. */
  function StrSlice(s: seq<byte>, a: nat, b: nat): (r: seq<byte>)
    requires SliceOk(s, a, b)
    ensures |r| == b - a
    ensures s[..a] + r + s[b..] == s
  {
    s[a..b]
  }

  /** `char::to_digit(16)` on a single byte: `0-9`, `a-f` and `A-F`. */
  function HexDigit(b: byte): (r: Option<nat>)
    ensures r.Some? ==> r.value < 16
    ensures r.Some? <==> ('0' as int <= b <= '9' as int || 'a' as int <= b <= 'f' as int || 'A' as int <= b <= 'F' as int)
  {
    if '0' as int <= b <= '9' as int then Some(b - '0' as int)
    else if 'a' as int <= b <= 'f' as int then Some(b - 'a' as int + 10)
    else if 'A' as int <= b <= 'F' as int then Some(b - 'A' as int + 10)
    else None
  }

  /** The value of a run of hex digits, most significant first; None if any byte is not a digit. */
  function DigitsValue(ds: seq<byte>): (r: Option<nat>)
    ensures r.Some? <==> forall i :: 0 <= i < |ds| ==> HexDigit(ds[i]).Some?
    decreases |ds|
  {
    if |ds| == 0 then Some(0)
    else
      match (DigitsValue(ds[..|ds| - 1]), HexDigit(ds[|ds| - 1]))
      case (Some(hi), Some(lo)) => Some(hi * 16 + lo)
      case _ => None
  }

  /**
   * `u32::from_str_radix(s, 16)`: an optional leading `+` (a lone `+` is an
   * error), then one or more hex digits whose value fits in 32 bits. A leading
   * `-` is an invalid digit for an unsigned type.
   */
  function FromStrRadix16(s: seq<byte>): (r: Option<nat>)
    ensures r.Some? ==> r.value < U32_LIMIT
    ensures r.Some? ==> |s| > 0
  {
    if |s| == 0 then None
    else if s[0] == '+' as int && |s| == 1 then None
    else
      var digits := if s[0] == '+' as int then s[1..] else s;
      match DigitsValue(digits)
      case Some(v) => if v < U32_LIMIT then Some(v) else None
      case None => None
  }

  /** Reference reading of a two-byte parse: two hex digits, or `+` and one hex digit. */
  function ParsePair(p: seq<byte>): (r: Option<nat>)
    requires |p| == 2
    ensures r.Some? ==> r.value < 0x100
  {
    match (HexDigit(p[0]), HexDigit(p[1]))
    case (Some(hi), Some(lo)) => Some(hi * 16 + lo)
    case (None, Some(lo)) => if p[0] == '+' as int then Some(lo) else None
    case _ => None
  }

  /** On a two-byte slice `from_str_radix` is exactly `ParsePair`, so its value is below 256. */
  lemma FromStrRadix16Pair(p: seq<byte>)
    requires |p| == 2
    ensures FromStrRadix16(p) == ParsePair(p)
    ensures FromStrRadix16(p).Some? ==> FromStrRadix16(p).value < 0x100
  {
    assert p[..1] == [p[0]];
    assert p[1..][..0] == [];
    assert DigitsValue([]) == Some(0);
    assert DigitsValue(p[1..]) == (if HexDigit(p[1]).Some? then Some(HexDigit(p[1]).value) else None) by {
      assert p[1..] == [p[1]];
      assert [p[1]][..0] == [];
    }
    assert DigitsValue([p[0]]) == (if HexDigit(p[0]).Some? then Some(HexDigit(p[0]).value) else None) by {
      assert [p[0]][..0] == [];
    }
  }

  /** 2 to the power n. */
  function Pow2(n: nat): (r: nat)
    ensures r >= 1
  {
    if n == 0 then 1 else 2 * Pow2(n - 1)
  }

  /**
   * Bitwise exclusive or of two naturals, one binary digit at a time. On
   * values below 2^32 this is `a ^ b` on `u32`.
   */
  function Xor(a: nat, b: nat): (r: nat)
    decreases a + b
  {
    if a + b == 0 then 0 else (a % 2 + b % 2) % 2 + 2 * Xor(a / 2, b / 2)
  }

  /** XOR does not set a bit above the width of its operands: below 2^8 stays below 2^8, below 2^32 below 2^32. */
  lemma {:induction false} XorBound(a: nat, b: nat, n: nat)
    requires a < Pow2(n) && b < Pow2(n)
    ensures Xor(a, b) < Pow2(n)
  {
    if a + b != 0 {
      assert n > 0;
      XorBound(a / 2, b / 2, n - 1);
    }
  }

  /** The XOR of two byte values is a byte value. */
  lemma XorByteBound(a: nat, b: nat)
    requires a < 0x100 && b < 0x100
    ensures Xor(a, b) < 0x100
  {
    assert Pow2(8) == 0x100;
    XorBound(a, b, 8);
  }

  /** One step of `Xor`, valid for every pair including (0, 0). */
  lemma XorStep(a: nat, b: nat)
    ensures Xor(a, b) / 2 == Xor(a / 2, b / 2)
    ensures Xor(a, b) % 2 == (a % 2 + b % 2) % 2
  {
  }

  /** Two naturals with the same half and the same parity are equal. */
  lemma HalvesAndParity(x: nat, y: nat)
    requires x / 2 == y / 2 && x % 2 == y % 2
    ensures x == y
  {
  }

  /** The low bit of `Xor`: set exactly when the operands' low bits differ. */
  lemma XorParity(a: nat, b: nat)
    ensures Xor(a, b) % 2 == if a % 2 == b % 2 then 0 else 1
  {
    XorStep(a, b);
    var p, q := a % 2, b % 2;
    assert p == 0 || p == 1;
    assert q == 0 || q == 1;
    if p == 0 && q == 0 {
      assert (p + q) % 2 == 0;
    } else if p == 1 && q == 1 {
      assert (p + q) % 2 == 0;
    } else {
      assert p + q == 1;
    }
  }

  /** XOR is zero exactly when its operands are equal. */
  lemma {:induction false} XorZeroIff(a: nat, b: nat)
    ensures Xor(a, b) == 0 <==> a == b
    decreases a + b
  {
    if a + b != 0 {
      XorStep(a, b);
      XorParity(a, b);
      XorZeroIff(a / 2, b / 2);
      if a / 2 == b / 2 && a % 2 == b % 2 {
        HalvesAndParity(a, b);
      }
    }
  }

  /** XOR with the same key undoes itself. */
  lemma {:induction false} XorInvolution(a: nat, k: nat)
    ensures Xor(Xor(a, k), k) == a
    decreases a + k
  {
    if a + k != 0 {
      var x := Xor(a, k);
      var y := Xor(x, k);
      XorStep(a, k);
      XorStep(x, k);
      XorInvolution(a / 2, k / 2);
      assert y / 2 == a / 2;
      assert y % 2 == a % 2 by {
        XorParity(a, k);
        XorParity(x, k);
      }
      HalvesAndParity(y, a);
    }
  }

  /** `char::from_u32`: None for surrogates and for values beyond U+10FFFF. */
  function FromU32(v: nat): (r: Option<char>)
    ensures r.Some? <==> (v < 0xD800 || 0xE000 <= v < 0x11_0000)
    ensures r.Some? ==> r.value as int == v
  {
    if v < 0xD800 || 0xE000 <= v < 0x11_0000 then Some(v as char) else None
  }
}
