/** Bytes, digests and the fixed-width big-endian integers of the wire formats. */
module Bytes {
  type Byte = b: int | 0 <= b < 256

  /** The 32-byte output of BLAKE3. */
  type Digest = d: seq<Byte> | |d| == 32 witness seq(32, _ => 0)

  datatype Option<+T> = None | Some(value: T)

  /** `int.from_bytes(s, 'big')`. */
  function FromBE(s: seq<Byte>): nat {
    if s == [] then 0 else 256 * FromBE(s[..|s| - 1]) + s[|s| - 1]
  }

  function Pow256(width: nat): nat {
    if width == 0 then 1 else 256 * Pow256(width - 1)
  }

  /** `struct.pack` of an unsigned big-endian integer of `width` bytes. */
  function ToBE(n: nat, width: nat): (s: seq<Byte>)
    ensures |s| == width
  {
    if width == 0 then [] else ToBE(n / 256, width - 1) + [n % 256]
  }

  /** Four digits to the base 256, the most significant one first. */
  function Base256(a: int, b: int, c: int, d: int): int {
    0x100_0000 * a + 0x1_0000 * b + 0x100 * c + d
  }

  /** The first of four bytes is the most significant one. */
  lemma FourBytesWord(s: seq<Byte>)
    requires |s| == 4
    ensures FromBE(s) == Base256(s[0], s[1], s[2], s[3])
  {
    assert s[..3][..2] == s[..2] && s[..2][..1] == s[..1] && s[..1][..0] == [];
    assert FromBE(s[..1]) == s[0] && FromBE(s[..2]) == 256 * FromBE(s[..1]) + s[1];
    assert FromBE(s[..3]) == 256 * FromBE(s[..2]) + s[2];
  }

  lemma {:induction false} FromBEBound(s: seq<Byte>)
    ensures FromBE(s) < Pow256(|s|)
  {
    if s != [] {
      FromBEBound(s[..|s| - 1]);
    }
  }

  lemma {:induction false} BERoundTrip(n: nat, width: nat)
    requires n < Pow256(width)
    ensures FromBE(ToBE(n, width)) == n
  {
    if width > 0 {
      BERoundTrip(n / 256, width - 1);
      assert ToBE(n, width)[..width - 1] == ToBE(n / 256, width - 1);
    }
  }

  lemma {:induction false} Pow256Grows(a: nat, b: nat)
    requires a <= b
    ensures Pow256(a) <= Pow256(b)
  {
    if a < b {
      Pow256Grows(a, b - 1);
    }
  }

  lemma ToBEInjective(m: nat, n: nat, width: nat)
    requires m < Pow256(width) && n < Pow256(width)
    requires ToBE(m, width) == ToBE(n, width)
    ensures m == n
  {
    BERoundTrip(m, width);
    BERoundTrip(n, width);
  }

  /** UTF-8 of an ASCII text. */
  function Ascii(s: string): (b: seq<Byte>)
    ensures |b| == |s| && (s != [] ==> b[0] == s[0] as int % 256)
  {
    if s == [] then [] else [s[0] as int % 256] + Ascii(s[1..])
  }
}
