/**
 * Machine-level vocabulary shared by the other modules: bytes, fixed-width
 * unsigned integers and the little-/big-endian readings of byte strings.
 */
module Bytes {

  /** A `u8`. */
  type byte = x: int | 0 <= x < 256

  const TWO_TO_THE_16: nat := 0x1_0000
  const TWO_TO_THE_32: nat := 0x1_0000_0000
  const TWO_TO_THE_64: nat := 0x1_0000_0000_0000_0000

  /** A `u16`, a `u32` and a `u64`. */
  type u16 = x: int | 0 <= x < TWO_TO_THE_16
  type u32 = x: int | 0 <= x < TWO_TO_THE_32
  type u64 = x: int | 0 <= x < TWO_TO_THE_64

  function Pow256(k: nat): (r: nat)
    ensures r >= 1
  {
    if k == 0 then 1 else 256 * Pow256(k - 1)
  }

  /** A 32-byte digest, as returned by SHA3-256 and by the AstroBWT hash. */
  type Digest = s: seq<byte> | |s| == 32 witness Zeros(32)

  function Zeros(n: nat): (r: seq<byte>)
    ensures |r| == n && forall i :: 0 <= i < n ==> r[i] == 0
  {
    seq(n, _ => 0)
  }

  /**
   * The unsigned integer whose little-endian byte representation is `s`:
   * s[0] + 256 * s[1] + 256^2 * s[2] + ...
   */
  function LeValue(s: seq<byte>): nat
  {
    if s == [] then 0 else s[0] + 256 * LeValue(s[1..])
  }

  /** Only zero bytes read as zero. */
  lemma {:induction false} LeValueZero(s: seq<byte>)
    ensures LeValue(s) == 0 <==> forall i :: 0 <= i < |s| ==> s[i] == 0
  {
    if s != [] {
      LeValueZero(s[1..]);
      assert (forall i :: 0 <= i < |s| ==> s[i] == 0) <==>
             s[0] == 0 && (forall i :: 0 <= i < |s[1..]| ==> s[1..][i] == 0) by {
        assert forall i :: 0 < i < |s| ==> s[i] == s[1..][i - 1];
      }
    }
  }

  /** Splitting a little-endian number: the high part is weighted by 256^|lo|. */
  lemma {:induction false} LeValueAppend(lo: seq<byte>, hi: seq<byte>)
    ensures LeValue(lo + hi) == LeValue(lo) + Pow256(|lo|) * LeValue(hi)
  {
    if lo != [] {
      LeValueAppend(lo[1..], hi);
      assert (lo + hi)[1..] == lo[1..] + hi;
      ShiftWeight(lo[0], LeValue(lo[1..]), Pow256(|lo| - 1), LeValue(hi));
    } else {
      assert lo + hi == hi;
    }
  }

  lemma ShiftWeight(b: int, a: int, w: int, v: int)
    ensures b + 256 * (a + w * v) == (b + 256 * a) + (256 * w) * v
  {}

  lemma Pow256Eight()
    ensures Pow256(8) == TWO_TO_THE_64
  {}

  /**
   * The four bytes of a `u32`, most significant first:
   * `(x >> 24) as u8`, `(x >> 16) as u8`, `(x >> 8) as u8`, `x as u8`.
   */
  function U32ToBeBytes(x: u32): (r: seq<byte>)
    ensures |r| == 4
  {
    [(x / 0x100_0000) % 256, (x / 0x1_0000) % 256, (x / 0x100) % 256, x % 256]
  }

  /** The number read from four bytes, most significant first. */
  function U32FromBeBytes(b: seq<byte>): (r: nat)
    requires |b| == 4
  {
    ((b[0] as int * 256 + b[1]) * 256 + b[2]) * 256 + b[3]
  }

  /** Writing a `u32` big-endian and reading it back gives the same number. */
  lemma U32BeRoundTrip(x: u32)
    ensures U32FromBeBytes(U32ToBeBytes(x)) == x
  {
    var y1 := x / 256;
    var y2 := y1 / 256;
    var y3 := y2 / 256;
    assert x / 0x1_0000 == y2;
    assert x / 0x100_0000 == y3;
    assert y3 < 256;
  }
}
