/**
 * The proof-of-work test of the miner (`difficulty::check_pow_hash`): a digest
 * is read as an unsigned little-endian integer and is accepted when that
 * integer does not exceed the difficulty reported by the daemon.
 */
module Difficulty {
  import opened Bytes

  /** `check_pow_hash(pow_hash, difficulty)`. */
  function CheckPowHash(powHash: Digest, difficulty: u64): bool
  {
    LeValue(powHash) <= difficulty
  }

  /**
   * Because the difficulty is below 2^64, a digest is accepted exactly when its
   * upper 24 bytes are zero and its lower 8 bytes, read little-endian, do not
   * exceed the difficulty.
   */
  lemma AcceptsIffLowBytesWithin(powHash: Digest, difficulty: u64)
    ensures CheckPowHash(powHash, difficulty) <==>
              (forall k :: 8 <= k < 32 ==> powHash[k] == 0) && LeValue(powHash[..8]) <= difficulty
  {
    var lo, hi := powHash[..8], powHash[8..];
    assert powHash == lo + hi;
    LeValueAppend(lo, hi);
    Pow256Eight();
    LeValueZero(hi);
    assert (forall k :: 8 <= k < 32 ==> powHash[k] == 0) <==> (forall i :: 0 <= i < |hi| ==> hi[i] == 0) by {
      assert forall i :: 0 <= i < |hi| ==> hi[i] == powHash[i + 8];
    }
    var high := LeValue(hi);
    assert LeValue(powHash) == LeValue(lo) + TWO_TO_THE_64 * high;
    if high != 0 {
      assert TWO_TO_THE_64 * high >= TWO_TO_THE_64;
    }
  }

  /** Any accepted digest has bytes 8..31 equal to zero. */
  lemma AcceptedHasZeroHighBytes(powHash: Digest, difficulty: u64)
    requires CheckPowHash(powHash, difficulty)
    ensures forall k :: 8 <= k < 32 ==> powHash[k] == 0
  {
    AcceptsIffLowBytesWithin(powHash, difficulty);
  }

  /** The all-zero digest passes at every difficulty, including 0. */
  lemma ZeroDigestAccepted(difficulty: u64)
    ensures CheckPowHash(Zeros(32), difficulty)
  {
    LeValueZero(Zeros(32));
  }

  /** Raising the difficulty never rejects a digest that was accepted. */
  lemma AcceptanceMonotoneInDifficulty(powHash: Digest, difficulty: u64, higher: u64)
    requires difficulty <= higher
    ensures CheckPowHash(powHash, difficulty) ==> CheckPowHash(powHash, higher)
  {}

  /** A digest of no larger value than an accepted one is accepted too. */
  lemma AcceptanceMonotoneInDigest(smaller: Digest, larger: Digest, difficulty: u64)
    requires LeValue(smaller) <= LeValue(larger)
    ensures CheckPowHash(larger, difficulty) ==> CheckPowHash(smaller, difficulty)
  {}
}
