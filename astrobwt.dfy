/**
 * The AstroBWT proof-of-work hash (`pow::astrobwt::pow16`):
 *
 *   key    := SHA3-256(input)
 *   stage1 := Salsa20 keystream under key, XORed onto 9973 zero bytes
 *   sa     := suffix array of stage1
 *   words  := every index of sa cast to u16
 *   bytes  := the u16 words laid out as bytes (little-endian)
 *   result := SHA3-256(bytes)
 *
 * SHA3-256, Salsa20 and the suffix sorter are foreign code; they are the
 * function-valued fields of `Primitives`, and `Valid` states the contract each
 * of them is relied on for.
 */
module AstroBwt {
  import opened Bytes
  import opened Wrappers

  const STAGE1_LENGTH: nat := 9973

  datatype Primitives = Primitives(
    /** SHA3-256 as defined in FIPS 202. */
    sha3: seq<byte> -> seq<byte>,
    /** The first n bytes of the Salsa20 keystream for a 32-byte key, nonce zero. */
    salsa20Keystream: (seq<byte>, nat) -> seq<byte>,
    /** `cdivsufsort::sort_in_place`: the suffix array of a byte string, as i32 entries. */
    suffixSort: seq<byte> -> seq<int>)

  /** Strict lexicographic order on byte strings; a proper prefix comes first. */
  predicate LexLess(a: seq<byte>, b: seq<byte>)
    decreases |a|
  {
    if a == [] then b != []
    else if b == [] then false
    else a[0] < b[0] || (a[0] == b[0] && LexLess(a[1..], b[1..]))
  }

  lemma {:induction false} LexLessIrreflexive(a: seq<byte>)
    ensures !LexLess(a, a)
  {
    if a != [] {
      LexLessIrreflexive(a[1..]);
    }
  }

  /** `sa` lists the start positions of the suffixes of `s` in increasing order. */
  ghost predicate IsSuffixArray(s: seq<byte>, sa: seq<int>)
  {
    && |sa| == |s|
    && (forall k :: 0 <= k < |sa| ==> 0 <= sa[k] < |s|)
    && (forall i, j :: 0 <= i < j < |sa| ==> LexLess(s[sa[i]..], s[sa[j]..]))
  }

  /** What the foreign primitives are relied on to do. */
  ghost predicate Valid(p: Primitives)
  {
    && (forall x :: |p.sha3(x)| == 32)
    && (forall key, n :: |p.salsa20Keystream(key, n)| == n)
    && (forall s :: IsSuffixArray(s, p.suffixSort(s)))
  }

  /**
   * `sha3`: the hasher's output copied into a 32-byte array with
   * `copy_from_slice`, which panics unless that output has exactly 32 bytes.
   */
  function Sha3(p: Primitives, input: seq<byte>): (r: Outcome<Digest>)
    ensures r.Panic? <==> |p.sha3(input)| != 32
    ensures r.Return? ==> r.value == p.sha3(input)
  {
    var hashed := p.sha3(input);
    if |hashed| != 32 then Panic else Return(hashed)
  }

  /** With a SHA3-256 that outputs 32 bytes, the copy never panics and returns that output. */
  lemma Sha3NeverPanics(p: Primitives, input: seq<byte>)
    requires Valid(p)
    ensures Sha3(p, input) == Return(p.sha3(input))
  {
    assert |p.sha3(input)| == 32;
  }

  /** XOR of two bytes. */
  function Xor(a: byte, b: byte): (r: byte)
  {
    ((a as bv8) ^ (b as bv8)) as int
  }

  lemma XorZero(b: byte)
    ensures Xor(0, b) == b
  {
    assert (0 as bv8) ^ (b as bv8) == b as bv8;
  }

  /** `salsa20::xor_key_stream(out, in, key)`: out[i] = in[i] XOR keystream[i]. */
  function XorKeyStream(p: Primitives, input: seq<byte>, key: seq<byte>): (out: seq<byte>)
    requires Valid(p)
    ensures |out| == |input|
  {
    var ks := p.salsa20Keystream(key, |input|);
    seq(|input|, i requires 0 <= i < |input| => Xor(input[i], ks[i]))
  }

  /** Step 2: the keystream XORed onto a zeroed STAGE1_LENGTH buffer. */
  function Stage1(p: Primitives, key: seq<byte>): seq<byte>
    requires Valid(p)
  {
    XorKeyStream(p, Zeros(STAGE1_LENGTH), key)
  }

  /** The stage-1 buffer is exactly the first 9973 keystream bytes, whatever the key. */
  lemma Stage1IsKeystream(p: Primitives, key: seq<byte>)
    requires Valid(p)
    ensures |Stage1(p, key)| == STAGE1_LENGTH
    ensures Stage1(p, key) == p.salsa20Keystream(key, STAGE1_LENGTH)
  {
    var ks := p.salsa20Keystream(key, STAGE1_LENGTH);
    forall i | 0 <= i < STAGE1_LENGTH ensures Stage1(p, key)[i] == ks[i] {
      XorZero(ks[i]);
    }
  }

  /** `val as u16` for an i32 index: the low 16 bits. */
  function ToU16(v: int): u16
  {
    v % TWO_TO_THE_16
  }

  function Truncate(sa: seq<int>): (words: seq<u16>)
    ensures |words| == |sa|
    ensures forall k :: 0 <= k < |sa| ==> words[k] == ToU16(sa[k])
  {
    seq(|sa|, k requires 0 <= k < |sa| => ToU16(sa[k]))
  }

  /**
   * `align_to::<u8>` of the u16 words on a little-endian host: each word
   * becomes its low byte followed by its high byte.
   */
  function EncodeLe16(words: seq<u16>): (bytes: seq<byte>)
  {
    if words == [] then [] else [words[0] % 256, words[0] / 256] + EncodeLe16(words[1..])
  }

  /** Reads consecutive byte pairs back as little-endian u16 words. */
  function DecodeLe16(bytes: seq<byte>): (words: seq<u16>)
    requires |bytes| % 2 == 0
  {
    if bytes == [] then [] else [bytes[0] as int + 256 * (bytes[1] as int)] + DecodeLe16(bytes[2..])
  }

  /** The byte layout: 2 bytes per word; bytes 2k and 2k+1 are the low and high byte of word k. */
  lemma {:induction false} EncodeLe16Layout(words: seq<u16>)
    ensures |EncodeLe16(words)| == 2 * |words|
    ensures forall k :: 0 <= k < |words| ==>
              EncodeLe16(words)[2 * k] == words[k] % 256 && EncodeLe16(words)[2 * k + 1] == words[k] / 256
  {
    if words != [] {
      EncodeLe16Layout(words[1..]);
      var bytes := EncodeLe16(words);
      forall k | 1 <= k < |words|
        ensures bytes[2 * k] == words[k] % 256 && bytes[2 * k + 1] == words[k] / 256
      {
        assert bytes[2 * k] == EncodeLe16(words[1..])[2 * (k - 1)];
        assert bytes[2 * k + 1] == EncodeLe16(words[1..])[2 * (k - 1) + 1];
      }
    }
  }

  /** Decoding the byte pairs recovers the words exactly. */
  lemma {:induction false} DecodeEncodeLe16(words: seq<u16>)
    ensures |EncodeLe16(words)| % 2 == 0
    ensures DecodeLe16(EncodeLe16(words)) == words
  {
    EncodeLe16Layout(words);
    if words != [] {
      DecodeEncodeLe16(words[1..]);
      assert EncodeLe16(words)[2..] == EncodeLe16(words[1..]);
    }
  }

  /** `pow16`. */
  function Pow16(p: Primitives, input: seq<byte>): Digest
    requires Valid(p)
  {
    var key := Sha3(p, input).value;
    var sa := p.suffixSort(Stage1(p, key));
    Sha3(p, EncodeLe16(Truncate(sa))).value
  }

  /** A suffix array of s lists every position 0..|s|-1 exactly once. */
  lemma SuffixArrayIsPermutation(s: seq<byte>, sa: seq<int>)
    requires IsSuffixArray(s, sa)
    ensures forall i, j :: 0 <= i < j < |sa| ==> sa[i] != sa[j]
    ensures forall v :: 0 <= v < |s| <==> v in sa
  {
    forall i, j | 0 <= i < j < |sa| ensures sa[i] != sa[j] {
      if sa[i] == sa[j] {
        LexLessIrreflexive(s[sa[i]..]);
      }
    }
    PositionsCount(|s|);
    forall v | 0 <= v < |s| ensures v in sa {
      if v !in sa {
        var rest := Positions(|s|) - {v};
        assert Positions(|s|) == rest + {v};
        DistinctWithinCount(sa, rest);
        assert false;
      }
    }
  }

  /** A repetition-free sequence drawn from a finite set is no longer than the set is large. */
  lemma {:induction false} DistinctWithinCount(xs: seq<int>, pool: set<int>)
    requires forall i, j :: 0 <= i < j < |xs| ==> xs[i] != xs[j]
    requires forall k :: 0 <= k < |xs| ==> xs[k] in pool
    ensures |xs| <= |pool|
  {
    if xs != [] {
      var rest := pool - {xs[0]};
      assert pool == rest + {xs[0]};
      forall k | 0 <= k < |xs[1..]| ensures xs[1..][k] in rest {
        assert xs[1..][k] == xs[k + 1] != xs[0];
      }
      DistinctWithinCount(xs[1..], rest);
    }
  }

  /** The positions 0..n-1 of a string of length n. */
  function Positions(n: nat): (r: set<int>)
    ensures forall v :: v in r <==> 0 <= v < n
  {
    if n == 0 then {} else Positions(n - 1) + {n - 1}
  }

  lemma {:induction false} PositionsCount(n: nat)
    ensures |Positions(n)| == n
  {
    if n > 0 {
      PositionsCount(n - 1);
    }
  }

  /** Every suffix-array index of a stage-1 buffer fits in 16 bits, so the cast loses nothing. */
  lemma TruncateIsLossless(s: seq<byte>, sa: seq<int>)
    requires |s| == STAGE1_LENGTH && IsSuffixArray(s, sa)
    ensures Truncate(sa) == sa
  {
    var words := Truncate(sa);
    forall k | 0 <= k < |sa| ensures words[k] == sa[k] {
      assert 0 <= sa[k] < STAGE1_LENGTH < TWO_TO_THE_16;
    }
  }

  /**
   * Each intermediate of `pow16`: the stage-1 buffer has 9973 bytes for any
   * input (even the empty one), its suffix array is a permutation of
   * 0..9972, the u16 cast keeps every index, the second hash reads
   * 2 * 9973 = 19946 bytes that decode back to the indices, and the result
   * is the SHA3-256 of those bytes.
   */
  lemma Pow16Stages(p: Primitives, input: seq<byte>)
    requires Valid(p)
    ensures var key := Sha3(p, input).value;
            var stage1 := Stage1(p, key);
            var sa := p.suffixSort(stage1);
            var bytes := EncodeLe16(Truncate(sa));
            && |key| == 32
            && stage1 == p.salsa20Keystream(key, STAGE1_LENGTH) && |stage1| == STAGE1_LENGTH
            && |sa| == STAGE1_LENGTH && (forall v :: 0 <= v < STAGE1_LENGTH <==> v in sa)
            && Truncate(sa) == sa
            && |bytes| == 19946 && DecodeLe16(bytes) == sa
            && Pow16(p, input) == p.sha3(bytes)
  {
    var key := Sha3(p, input).value;
    var stage1 := Stage1(p, key);
    Stage1IsKeystream(p, key);
    var sa := p.suffixSort(stage1);
    assert IsSuffixArray(stage1, sa);
    SuffixArrayIsPermutation(stage1, sa);
    TruncateIsLossless(stage1, sa);
    EncodeLe16Layout(Truncate(sa));
    DecodeEncodeLe16(Truncate(sa));
  }
}
