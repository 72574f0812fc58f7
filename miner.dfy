/**
 * The mining engine (`src/dero.rs`): the shared job store, the shared hash
 * counter, and one round of a worker thread — snapshot the job, prepare the
 * work buffer, scan nonces until the job goes stale.
 *
 * The threads are modelled sequentially. The one interleaving the scan
 * depends on, the gatherer publishing a new job while the worker hashes, is
 * a parameter of the scan: the gatherer publishes just before hash number
 * `publishAfter + 1`, and the worker still completes that hash. With 0, the
 * publication falls between the snapshot and the first hash.
 */
module Mining {
  import opened Bytes
  import opened Wrappers
  import Hex
  import AstroBwt
  import Difficulty

  /** `block::MINIBLOCK_SIZE`, the length of the header the worker hashes. */
  const MINIBLOCK_SIZE: nat := 48

  /** Where the nonce goes: bytes SIZE-5 .. SIZE-2, most significant first. */
  const NONCE_OFFSET: nat := MINIBLOCK_SIZE - 5

  /** The header version nibble this miner understands. */
  const SUPPORTED_VERSION: nat := 1

  /** The fields of the daemon's `GetBlockTemplateResult` that the worker reads. */
  datatype BlockTemplate = BlockTemplate(blockhashingBlob: string, difficulty: u64, height: u64)

  /** The template the store starts with: every field empty or zero. */
  const EMPTY_TEMPLATE: BlockTemplate := BlockTemplate("", 0, 0)

  /**
   * `Job`, the unit of work shared by the gatherer and the workers: the last
   * published template and how many templates have been published.
   */
  class JobStore {
    var template: BlockTemplate
    var count: nat

    /** The store before anything is published: count 0 means "no work yet". */
    constructor ()
      ensures template == EMPTY_TEMPLATE && count == 0
    {
      template := EMPTY_TEMPLATE;
      count := 0;
    }

    /**
     * The publish step of `WorkGatherer::get_work`: the template is replaced
     * wholesale and the count goes up by one, even when the new template equals
     * the old one.
     */
    method Publish(t: BlockTemplate)
      modifies this
      ensures template == t && count == old(count) + 1
    {
      template, count := t, count + 1;
    }
  }

  /** The shared hash counter (`AtomicCell<i64>`), read by the hashrate report. */
  class Counter {
    var value: int

    constructor ()
      ensures value == 0
    {
      value := 0;
    }

    method FetchAdd(delta: int) returns (previous: int)
      modifies this
      ensures previous == old(value) && value == old(value) + delta
    {
      previous := value;
      value := value + delta;
    }
  }

  /** `self.id as u8`. */
  function IdByte(id: nat): byte
  {
    id % 256
  }

  /** `b & 0xf`, the low nibble of a byte. */
  function LowNibble(b: byte): (v: nat)
    ensures v < 16
  {
    b % 16
  }

  /** The decoded blob with the worker's id written over its last byte. */
  function WithId(blob: seq<byte>, id: nat): (buf: seq<byte>)
    requires |blob| == MINIBLOCK_SIZE
  {
    blob[..MINIBLOCK_SIZE - 1] + [IdByte(id)]
  }

  /** A buffer with `nonce` written big-endian into bytes SIZE-5 .. SIZE-2. */
  function WithNonce(buf: seq<byte>, nonce: u32): seq<byte>
    requires |buf| == MINIBLOCK_SIZE
  {
    buf[..NONCE_OFFSET] + U32ToBeBytes(nonce) + buf[MINIBLOCK_SIZE - 1..]
  }

  /** `i = i + 1` on the u32 nonce, wrapping as a release build does. */
  function NextNonce(n: u32): u32
  {
    (n + 1) % TWO_TO_THE_32
  }

  /** The nonce after k increments. */
  function NonceAfter(start: u32, k: nat): u32
  {
    (start + k) % TWO_TO_THE_32
  }

  /** What the preparation of a snapshot leads to. */
  datatype Preparation =
    | NoWork                              // count 0: nothing published yet
    | UndecodableBlob(error: Hex.HexError) // the blob is not hex
    | WrongLength(length: nat)            // the blob does not decode to MINIBLOCK_SIZE bytes
    | UnknownVersion(version: nat)        // the low nibble of byte 0 is not 1
    | Ready(buffer: seq<byte>, difficulty: u64)

  /**
   * The preparation half of one round of `Miner::start`, on a snapshot
   * (template, count) taken by worker `id`.
   */
  function Prepare(t: BlockTemplate, count: nat, id: nat): (r: Preparation)
    ensures r.Ready? <==>
              && count != 0
              && Hex.Decode(t.blockhashingBlob).Ok?
              && |Hex.Decode(t.blockhashingBlob).value| == MINIBLOCK_SIZE
              && LowNibble(Hex.Decode(t.blockhashingBlob).value[0]) == SUPPORTED_VERSION
    ensures r.Ready? ==> r.buffer == WithId(Hex.Decode(t.blockhashingBlob).value, id) &&
                         r.difficulty == t.difficulty && |r.buffer| == MINIBLOCK_SIZE
  {
    if count == 0 then NoWork
    else match Hex.Decode(t.blockhashingBlob)
      case Err(e) => UndecodableBlob(e)
      case Ok(blob) =>
        if |blob| != MINIBLOCK_SIZE then WrongLength(|blob|)
        else
          var buf := WithId(blob, id);
          if LowNibble(buf[0]) != SUPPORTED_VERSION then UnknownVersion(LowNibble(buf[0]))
          else Ready(buf, t.difficulty)
  }

  /**
   * The layout of the buffer hashed for `nonce`: the blob in bytes
   * 0 .. SIZE-6, the nonce most significant byte first in SIZE-5 .. SIZE-2,
   * the id byte last.
   */
  lemma WorkLayout(blob: seq<byte>, id: nat, nonce: u32)
    requires |blob| == MINIBLOCK_SIZE
    ensures var buf := WithNonce(WithId(blob, id), nonce);
            && |buf| == MINIBLOCK_SIZE
            && buf[..NONCE_OFFSET] == blob[..NONCE_OFFSET]
            && buf[NONCE_OFFSET..MINIBLOCK_SIZE - 1] == U32ToBeBytes(nonce)
            && U32FromBeBytes(buf[NONCE_OFFSET..MINIBLOCK_SIZE - 1]) == nonce
            && buf[MINIBLOCK_SIZE - 1] == id % 256
  {
    var buf := WithNonce(WithId(blob, id), nonce);
    assert buf[..NONCE_OFFSET] == blob[..NONCE_OFFSET];
    assert buf[NONCE_OFFSET..MINIBLOCK_SIZE - 1] == U32ToBeBytes(nonce);
    U32BeRoundTrip(nonce);
  }

  /**
   * Two workers hashing the same blob and nonce hash different buffers
   * exactly when their ids differ modulo 256.
   */
  lemma IdentitySeparation(blob: seq<byte>, id1: nat, id2: nat, nonce: u32)
    requires |blob| == MINIBLOCK_SIZE
    ensures WithNonce(WithId(blob, id1), nonce) != WithNonce(WithId(blob, id2), nonce) <==>
            id1 % 256 != id2 % 256
  {
    var b1, b2 := WithNonce(WithId(blob, id1), nonce), WithNonce(WithId(blob, id2), nonce);
    assert b1[MINIBLOCK_SIZE - 1] == id1 % 256 && b2[MINIBLOCK_SIZE - 1] == id2 % 256;
    if id1 % 256 == id2 % 256 {
      assert b1 == b2;
    }
  }

  /** Rewriting the nonce keeps only the last one written. */
  lemma WithNonceTwice(buf: seq<byte>, a: u32, b: u32)
    requires |buf| == MINIBLOCK_SIZE
    ensures WithNonce(WithNonce(buf, a), b) == WithNonce(buf, b)
  {}

  /** One more increment of the nonce. */
  lemma NonceStep(start: u32, k: nat)
    ensures NonceAfter(start, k + 1) == NextNonce(NonceAfter(start, k))
  {}

  /** The buffers hashed by n iterations of the scan that starts at nonce `start`. */
  function Attempts(base: seq<byte>, start: u32, n: nat): (r: seq<seq<byte>>)
    requires |base| == MINIBLOCK_SIZE
    ensures |r| == n
    ensures forall k :: 0 <= k < n ==> r[k] == WithNonce(base, NonceAfter(start, k + 1))
  {
    if n == 0 then [] else Attempts(base, start, n - 1) + [WithNonce(base, NonceAfter(start, n))]
  }

  /** The nonces among the first n iterations whose digest passes the difficulty test. */
  function Found(p: AstroBwt.Primitives, base: seq<byte>, start: u32, n: nat, difficulty: u64): seq<u32>
    requires AstroBwt.Valid(p) && |base| == MINIBLOCK_SIZE
  {
    if n == 0 then []
    else
      var nonce := NonceAfter(start, n);
      Found(p, base, start, n - 1, difficulty) +
        (if Difficulty.CheckPowHash(AstroBwt.Pow16(p, WithNonce(base, nonce)), difficulty) then [nonce] else [])
  }

  /** One more scan iteration extends the attempts by the buffer it hashes. */
  lemma AttemptsStep(base: seq<byte>, start: u32, i: nat)
    requires |base| == MINIBLOCK_SIZE
    ensures Attempts(base, start, i + 1) == Attempts(base, start, i) + [WithNonce(base, NonceAfter(start, i + 1))]
  {}

  /** One more scan iteration extends the finds by its nonce exactly when its hash passes. */
  lemma FoundStep(p: AstroBwt.Primitives, base: seq<byte>, start: u32, i: nat, difficulty: u64, passed: bool)
    requires AstroBwt.Valid(p) && |base| == MINIBLOCK_SIZE
    requires passed == Difficulty.CheckPowHash(AstroBwt.Pow16(p, WithNonce(base, NonceAfter(start, i + 1))), difficulty)
    ensures Found(p, base, start, i + 1, difficulty) ==
              Found(p, base, start, i, difficulty) + (if passed then [NonceAfter(start, i + 1)] else [])
  {}

  /**
   * Every found nonce is one the scan tried and its hash passes the test;
   * every tried nonce that passes is found.
   */
  lemma {:induction false} FoundExactlyPassing(p: AstroBwt.Primitives, base: seq<byte>, start: u32, n: nat, difficulty: u64)
    requires AstroBwt.Valid(p) && |base| == MINIBLOCK_SIZE
    ensures forall nonce :: nonce in Found(p, base, start, n, difficulty) <==>
              exists k :: 1 <= k <= n && nonce == NonceAfter(start, k) &&
                          Difficulty.CheckPowHash(AstroBwt.Pow16(p, WithNonce(base, NonceAfter(start, k))), difficulty)
  {
    if n > 0 {
      FoundExactlyPassing(p, base, start, n - 1, difficulty);
    }
  }

  /** A worker thread (`Miner`) with its private buffer and nonce. */
  class Miner {
    const id: nat
    const store: JobStore
    const counter: Counter
    const prims: AstroBwt.Primitives
    /** `work`, the fixed-size buffer the worker hashes. */
    const work: array<byte>
    /** `i`, declared once before the job loop and never reset. */
    var nonce: u32
    /** Every buffer handed to `pow16`, in order. */
    ghost var hashed: seq<seq<byte>>

    ghost predicate Valid()
      reads this
    {
      work.Length == MINIBLOCK_SIZE && AstroBwt.Valid(prims)
    }

    constructor (id: nat, store: JobStore, counter: Counter, prims: AstroBwt.Primitives)
      requires AstroBwt.Valid(prims)
      ensures Valid() && fresh(work)
      ensures this.id == id && this.store == store && this.counter == counter && this.prims == prims
      ensures work[..] == Zeros(MINIBLOCK_SIZE) && nonce == 0 && hashed == []
    {
      this.id, this.store, this.counter, this.prims := id, store, counter, prims;
      work := new byte[MINIBLOCK_SIZE](_ => 0);
      nonce := 0;
      hashed := [];
    }

    /** Copies the decoded blob into `work` and stamps the id into its last byte. */
    method LoadBlob(blob: seq<byte>)
      requires Valid() && |blob| == MINIBLOCK_SIZE
      modifies work
      ensures work[..] == WithId(blob, id)
    {
      for i := 0 to MINIBLOCK_SIZE
        invariant forall k :: 0 <= k < i ==> work[k] == blob[k]
      {
        work[i] := blob[i];
      }
      work[MINIBLOCK_SIZE - 1] := IdByte(id);
      assert work[..] == WithId(blob, id);
    }

    /** Writes the current nonce into bytes SIZE-5 .. SIZE-2, most significant first. */
    method StampNonce()
      requires Valid()
      modifies work
      ensures work[..] == WithNonce(old(work[..]), nonce)
    {
      var be := U32ToBeBytes(nonce);
      work[NONCE_OFFSET] := be[0];
      work[NONCE_OFFSET + 1] := be[1];
      work[NONCE_OFFSET + 2] := be[2];
      work[NONCE_OFFSET + 3] := be[3];
      assert work[..] == WithNonce(old(work[..]), nonce);
    }

    /**
     * One iteration of the scan, up to the difficulty test: bump the nonce,
     * stamp it, hash the buffer, bump the shared counter.
     */
    method HashNext(difficulty: u64) returns (passed: bool)
      requires Valid()
      modifies this, work, counter
      ensures Valid()
      ensures nonce == NextNonce(old(nonce))
      ensures work[..] == WithNonce(old(work[..]), nonce)
      ensures hashed == old(hashed) + [work[..]]
      ensures counter.value == old(counter.value) + 1
      ensures passed == Difficulty.CheckPowHash(AstroBwt.Pow16(prims, work[..]), difficulty)
      ensures unchanged(store)
    {
      nonce := NextNonce(nonce);
      StampNonce();
      var powHash := AstroBwt.Pow16(prims, work[..]);
      hashed := hashed + [work[..]];
      var _ := counter.FetchAdd(1);
      passed := Difficulty.CheckPowHash(powHash, difficulty);
    }

    /**
     * The worker's side of a scan that started from buffer `base`, nonce
     * `start`, hash list `hashed0` and counter value `counted0`, after i
     * iterations: every field is the one the i hashes so far produce.
     */
    ghost predicate Progress(base: seq<byte>, start: u32, hashed0: seq<seq<byte>>, counted0: int,
                             i: nat, difficulty: u64, found: seq<u32>)
      reads this, work, counter
    {
      && Valid() && |base| == MINIBLOCK_SIZE
      && nonce == NonceAfter(start, i)
      && counter.value == counted0 + i
      && hashed == hashed0 + Attempts(base, start, i)
      && work[..] == (if i == 0 then base else WithNonce(base, nonce))
      && found == Found(prims, base, start, i, difficulty)
    }

    /**
     * The body of the scan loop, up to the re-read: hash the next nonce and
     * record it in the finds if its hash passes.
     */
    method Advance(ghost base: seq<byte>, ghost start: u32, ghost hashed0: seq<seq<byte>>, ghost counted0: int,
                   ghost i: nat, difficulty: u64, found0: seq<u32>)
      returns (found: seq<u32>)
      requires Progress(base, start, hashed0, counted0, i, difficulty, found0)
      modifies this, work, counter
      ensures Progress(base, start, hashed0, counted0, i + 1, difficulty, found)
      ensures unchanged(store)
    {
      NonceStep(start, i);
      var passed := HashNext(difficulty);
      if i > 0 {
        WithNonceTwice(base, NonceAfter(start, i), nonce);
      }
      FoundStep(prims, base, start, i, difficulty, passed);
      AttemptsStep(base, start, i);
      found := found0;
      if passed {
        // The source logs the find; submitting it is left for later.
        found := found + [nonce];
      }
    }

    /**
     * The scan loop: bump the nonce, stamp it, hash, bump the shared counter,
     * test the digest, then re-read the store's count. It runs until the
     * count differs from the one seen at the snapshot. The gatherer
     * publishes `next` just before hash number publishAfter + 1.
     * `observed` records the count read back after each hash: the scan stops
     * at the first read that differs from the snapshot.
     */
    method Scan(localCount: nat, difficulty: u64, publishAfter: nat, next: BlockTemplate)
      returns (iterations: nat, found: seq<u32>, ghost observed: seq<nat>)
      requires Valid() && store.count == localCount
      modifies this, work, store, counter
      ensures Valid()
      ensures iterations == publishAfter + 1
      ensures nonce == NonceAfter(old(nonce), iterations)
      ensures counter.value == old(counter.value) + iterations
      ensures hashed == old(hashed) + Attempts(old(work[..]), old(nonce), iterations)
      ensures work[..] == WithNonce(old(work[..]), nonce)
      ensures found == Found(prims, old(work[..]), old(nonce), iterations, difficulty)
      ensures store.template == next && store.count == localCount + 1 && store.count != localCount
      ensures |observed| == iterations
      ensures forall k :: 0 <= k < iterations - 1 ==> observed[k] == localCount
      ensures observed[iterations - 1] == store.count != localCount
    {
      ghost var base, start := work[..], nonce;
      var realCount := localCount;
      iterations, found, observed := 0, [], [];
      while realCount == localCount
        invariant iterations <= publishAfter + 1
        invariant realCount == store.count
        invariant iterations <= publishAfter ==> store.count == localCount && store.template == old(store.template)
        invariant iterations == publishAfter + 1 ==> store.count == localCount + 1 && store.template == next
        invariant Progress(base, start, old(hashed), old(counter.value), iterations, difficulty, found)
        invariant |observed| == iterations
        invariant forall k :: 0 <= k < iterations - 1 ==> observed[k] == localCount
        invariant iterations > 0 ==> observed[iterations - 1] == realCount
        decreases publishAfter + 1 - iterations
      {
        if iterations == publishAfter {
          store.Publish(next);
        }
        found := Advance(base, start, old(hashed), old(counter.value), iterations, difficulty, found);
        iterations := iterations + 1;
        realCount := store.count;
        observed := observed + [realCount];
      }
    }

    /**
     * One pass of the `loop` in `Miner::start`: snapshot the store, prepare the
     * buffer, and scan if the preparation succeeded. A failed preparation
     * hashes nothing and leaves the nonce and the counter alone.
     */
    method Round(publishAfter: nat, next: BlockTemplate) returns (prep: Preparation, iterations: nat, found: seq<u32>, ghost observed: seq<nat>)
      requires Valid()
      modifies this, work, store, counter
      ensures Valid()
      ensures prep == Prepare(old(store.template), old(store.count), id)
      ensures !prep.Ready? ==>
                && iterations == 0 && found == [] && observed == []
                && nonce == old(nonce) && hashed == old(hashed)
                && counter.value == old(counter.value)
                && store.count == old(store.count) && store.template == old(store.template)
      ensures (prep.NoWork? || prep.UndecodableBlob? || prep.WrongLength?) ==> work[..] == old(work[..])
      ensures prep.UnknownVersion? ==> work[..] == WithId(Hex.Decode(old(store.template).blockhashingBlob).value, id)
      ensures prep.Ready? ==>
                && iterations == publishAfter + 1
                && nonce == NonceAfter(old(nonce), iterations)
                && counter.value == old(counter.value) + iterations
                && hashed == old(hashed) + Attempts(prep.buffer, old(nonce), iterations)
                && work[..] == WithNonce(prep.buffer, nonce)
                && found == Found(prims, prep.buffer, old(nonce), iterations, prep.difficulty)
                && store.template == next && store.count == old(store.count) + 1
                && |observed| == iterations
                && (forall k :: 0 <= k < iterations - 1 ==> observed[k] == old(store.count))
                && observed[iterations - 1] == store.count != old(store.count)
    {
      var localJob, localCount := store.template, store.count;
      iterations, found, observed := 0, [], [];
      if localCount == 0 {
        return NoWork, iterations, found, observed;
      }
      var blob;
      match Hex.Decode(localJob.blockhashingBlob) {
        case Err(e) =>
          return UndecodableBlob(e), iterations, found, observed;
        case Ok(b) =>
          if |b| != MINIBLOCK_SIZE {
            return WrongLength(|b|), iterations, found, observed;
          }
          blob := b;
      }
      LoadBlob(blob);
      var difficulty := localJob.difficulty;
      if LowNibble(work[0]) != SUPPORTED_VERSION {
        return UnknownVersion(LowNibble(work[0])), iterations, found, observed;
      }
      prep := Ready(work[..], difficulty);
      iterations, found, observed := Scan(localCount, difficulty, publishAfter, next);
    }
  }
}
