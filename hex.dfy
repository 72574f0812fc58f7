/**
 * Base16 decoding as done by the `hex` crate (`hex::decode`), the encoding of
 * section 8 of RFC 4648 with both letter cases accepted. The length is checked
 * first; then the digits are read pairwise, high nibble first, and the first
 * character that is not a hex digit is reported with its position.
 */
module Hex {
  import opened Bytes
  import opened Wrappers

  datatype HexError = OddLength | InvalidHexCharacter(c: char, index: nat)

  predicate IsHexDigit(c: char)
  {
    '0' <= c <= '9' || 'a' <= c <= 'f' || 'A' <= c <= 'F'
  }

  function DigitValue(c: char): (v: nat)
    requires IsHexDigit(c)
    ensures v < 16
  {
    if '0' <= c <= '9' then c as int - '0' as int
    else if 'a' <= c <= 'f' then c as int - 'a' as int + 10
    else c as int - 'A' as int + 10
  }

  predicate AllHexDigits(s: string)
  {
    forall i :: 0 <= i < |s| ==> IsHexDigit(s[i])
  }

  /** The byte spelled by the digit pair starting at position 2k. */
  function PairValue(s: string, k: nat): byte
    requires 2 * k + 1 < |s| && IsHexDigit(s[2 * k]) && IsHexDigit(s[2 * k + 1])
  {
    DigitValue(s[2 * k]) * 16 + DigitValue(s[2 * k + 1])
  }

  /**
   * `hex::decode`: succeeds exactly on strings of even length made of hex
   * digits, giving one byte per digit pair; otherwise reports odd length
   * first, else the first offending character and its index.
   */
  function Decode(s: string): (r: Result<seq<byte>, HexError>)
    ensures r.Ok? <==> |s| % 2 == 0 && AllHexDigits(s)
    ensures r.Ok? ==> |r.value| == |s| / 2 &&
                      forall k :: 0 <= k < |r.value| ==> r.value[k] == PairValue(s, k)
    ensures |s| % 2 != 0 ==> r == Err(OddLength)
    ensures |s| % 2 == 0 && r.Err? ==>
              exists i :: 0 <= i < |s| && !IsHexDigit(s[i]) && r.error == InvalidHexCharacter(s[i], i) &&
                          forall j :: 0 <= j < i ==> IsHexDigit(s[j])
  {
    if |s| % 2 != 0 then Err(OddLength) else DecodePairs(s, 0)
  }

  /** Decodes the suffix s[from..] of an even-length string, pair by pair. */
  function DecodePairs(s: string, from: nat): (r: Result<seq<byte>, HexError>)
    requires |s| % 2 == 0 && from % 2 == 0 && from <= |s|
    ensures r.Ok? <==> forall i :: from <= i < |s| ==> IsHexDigit(s[i])
    ensures r.Ok? ==> |r.value| == (|s| - from) / 2 &&
                      forall k :: 0 <= k < |r.value| ==> r.value[k] == PairValue(s, from / 2 + k)
    ensures r.Err? ==>
              exists i :: from <= i < |s| && !IsHexDigit(s[i]) && r.error == InvalidHexCharacter(s[i], i) &&
                          forall j :: from <= j < i ==> IsHexDigit(s[j])
    decreases |s| - from
  {
    if from == |s| then Ok([])
    else if !IsHexDigit(s[from]) then Err(InvalidHexCharacter(s[from], from))
    else if !IsHexDigit(s[from + 1]) then Err(InvalidHexCharacter(s[from + 1], from + 1))
    else
      match DecodePairs(s, from + 2)
      case Err(e) => Err(e)
      case Ok(rest) => Ok([PairValue(s, from / 2)] + rest)
  }

  /** The lower-case hex digit of a nibble. */
  function Digit(n: nat): (c: char)
    requires n < 16
    ensures IsHexDigit(c) && DigitValue(c) == n
  {
    if n < 10 then ('0' as int + n) as char else ('a' as int + n - 10) as char
  }

  /** Lower-case hex spelling of a byte string, two digits per byte. */
  function Encode(b: seq<byte>): (s: string)
    ensures |s| == 2 * |b| && AllHexDigits(s)
  {
    if b == [] then [] else [Digit(b[0] / 16), Digit(b[0] % 16)] + Encode(b[1..])
  }

  /** Digit pair k of an encoding spells byte k. */
  lemma {:induction false} EncodePair(b: seq<byte>, k: nat)
    requires k < |b|
    ensures PairValue(Encode(b), k) == b[k]
  {
    var s := Encode(b);
    if k == 0 {
      assert s[0] == Digit(b[0] / 16) && s[1] == Digit(b[0] % 16);
    } else {
      EncodePair(b[1..], k - 1);
      assert s[2 * k] == Encode(b[1..])[2 * (k - 1)];
      assert s[2 * k + 1] == Encode(b[1..])[2 * (k - 1) + 1];
    }
  }

  /** Decoding an encoding gives back the bytes. */
  lemma DecodeEncode(b: seq<byte>)
    ensures Decode(Encode(b)) == Ok(b)
  {
    var s := Encode(b);
    var r := Decode(s);
    assert r.Ok?;
    var v := r.value;
    assert |v| == |b|;
    forall k | 0 <= k < |b| ensures v[k] == b[k] {
      EncodePair(b, k);
    }
    assert v == b;
  }
}
