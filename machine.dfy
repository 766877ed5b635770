/**
 * Machine-level vocabulary shared by the kernel module and the client:
 * C integer widths (LP64), little-endian byte encoding, two's complement,
 * NUL-terminated character arrays.
 */
module Machine {

  type Byte = b: int | 0 <= b < 256

  const U32_LIMIT: nat := 0x1_0000_0000
  const U64_LIMIT: nat := 0x1_0000_0000_0000_0000

  /** `unsigned` */
  type U32 = x: int | 0 <= x < 0x1_0000_0000
  /** `size_t`, `u64` */
  type U64 = x: int | 0 <= x < 0x1_0000_0000_0000_0000
  /** `int` */
  type I32 = x: int | -0x8000_0000 <= x < 0x8000_0000

  /** Reduction of an arbitrary integer to a 32-bit two's complement `int`. */
  function WrapI32(x: int): (r: I32)
    ensures (r - x) % U32_LIMIT == 0
    ensures -0x8000_0000 <= x < 0x8000_0000 ==> r == x
  {
    (x + 0x8000_0000) % U32_LIMIT - 0x8000_0000
  }

  /** The bit pattern of an `int`, read as `unsigned`. */
  function I32Bits(x: I32): (u: U32)
    ensures (u - x) % U32_LIMIT == 0
  {
    if x < 0 then x + U32_LIMIT else x
  }

  /** An `unsigned` bit pattern, read as `int`. */
  function I32FromBits(u: U32): (x: I32)
    ensures (u - x) % U32_LIMIT == 0
  {
    if u < 0x8000_0000 then u else u - U32_LIMIT
  }

  lemma I32BitsRoundTrip(x: I32)
    ensures I32FromBits(I32Bits(x)) == x
  {
  }

  function Pow256(n: nat): (r: nat)
    ensures r >= 1
  {
    if n == 0 then 1 else 256 * Pow256(n - 1)
  }

  /** The `n` low-order bytes of `x`, least significant first. */
  function EncodeLE(x: nat, n: nat): (r: seq<Byte>)
    ensures |r| == n
  {
    if n == 0 then [] else [x % 256] + EncodeLE(x / 256, n - 1)
  }

  /** The unsigned number whose little-endian bytes are `s`. */
  function DecodeLE(s: seq<Byte>): (r: nat)
    ensures r < Pow256(|s|)
  {
    if s == [] then 0
    else
      var rest := DecodeLE(s[1..]);
      assert s[0] + 256 * rest <= 255 + 256 * (Pow256(|s| - 1) - 1);
      s[0] + 256 * rest
  }

  lemma {:induction false} DecodeEncodeLE(x: nat, n: nat)
    requires x < Pow256(n)
    ensures DecodeLE(EncodeLE(x, n)) == x
  {
    if n > 0 {
      assert x / 256 < Pow256(n - 1);
      DecodeEncodeLE(x / 256, n - 1);
      assert EncodeLE(x, n)[1..] == EncodeLE(x / 256, n - 1);
    }
  }

  lemma {:induction false} EncodeDecodeLE(s: seq<Byte>)
    ensures EncodeLE(DecodeLE(s), |s|) == s
  {
    if s != [] {
      EncodeDecodeLE(s[1..]);
      var x := DecodeLE(s);
      assert x % 256 == s[0] && x / 256 == DecodeLE(s[1..]);
    }
  }

  function Zeros(n: nat): (r: seq<Byte>)
    ensures |r| == n && forall i :: 0 <= i < n ==> r[i] == 0
  {
    seq(n, _ => 0)
  }

  /** The bytes of a C string stored in `s`: everything before the first NUL. */
  function CString(s: seq<Byte>): (r: seq<Byte>)
    ensures |r| <= |s| && r == s[..|r|]
    ensures forall i :: 0 <= i < |r| ==> r[i] != 0
    ensures |r| < |s| ==> s[|r|] == 0
  {
    if s == [] || s[0] == 0 then [] else [s[0]] + CString(s[1..])
  }

  /** A NUL-free text followed by NUL padding reads back as that text. */
  lemma {:induction false} CStringOfPadded(t: seq<Byte>, k: nat)
    requires forall i :: 0 <= i < |t| ==> t[i] != 0
    ensures CString(t + Zeros(k)) == t
  {
    var s := t + Zeros(k);
    if t != [] {
      assert s[1..] == t[1..] + Zeros(k);
      CStringOfPadded(t[1..], k);
    }
  }

  /** ASCII text as the bytes a C `char` array holds. */
  function Ascii(s: string): (r: seq<Byte>)
    requires forall i :: 0 <= i < |s| ==> s[i] as int < 128
    ensures |r| == |s| && forall i :: 0 <= i < |s| ==> r[i] == s[i] as int
  {
    seq(|s|, i requires 0 <= i < |s| => s[i] as int)
  }
}
