# AstroBWT miner core, modelled in Dafny

This project models the core of a DERO proof-of-work mining client:

- the AstroBWT hash (`pow16`): SHA3-256 of the input, a 9973-byte Salsa20
  keystream, the suffix array of that keystream, every index cast to `u16`,
  the words laid out as bytes, SHA3-256 again;
- the difficulty test (`check_pow_hash`): a digest read as a little-endian
  integer must not exceed the daemon's `u64` difficulty;
- the shared job store (`Job`: the last template and a publication count)
  and the gatherer's publish step;
- a worker thread (`Miner::start`): snapshot the store, hex-decode the hashing
  blob into a `MINIBLOCK_SIZE` buffer, stamp the worker id into the last byte,
  check the version nibble, then scan nonces — bump, write big-endian, hash,
  bump the shared counter, test — until the store's count changes;
- reward-address validation (`Address::from_string`, `address::validate`) after
  Bech32 decoding, and the length and sign-byte handling of
  `from_compressed_reversed_sign`.

Files: `wrappers.dfy` (Option, Result, Outcome), `bytes.dfy` (bytes, fixed-width
integers, little- and big-endian readings), `hex.dfy` (the `hex` crate's
decoder), `astrobwt.dfy`, `difficulty.dfy`, `address.dfy` (module
`RpcAddress`), `dero_address.dfy`, `miner.dfy` (module `Mining`).

SHA3-256, Salsa20, the suffix sorter, Bech32 decoding, base-32 regrouping and
the BN254 field and curve operations are foreign code. Each is a
function-valued field of a `Primitives` record passed as a parameter. The
only things relied on about them are stated as predicates: a 32-byte SHA3
output, a keystream of the requested length, and a suffix array that lists
in-range positions in strictly increasing suffix order. Base16 decoding is
modelled concretely, following section 8 of RFC 4648 with both letter cases
accepted, as the `hex` crate does.

Where the threads meet, the model runs them one after another. The one
interleaving the scan depends on is a parameter of `Mining.Miner.Scan`: the
gatherer publishes a new template just before hash number `publishAfter + 1`,
and the worker still completes that hash, as the code does. With 0, the
publication falls between the snapshot and the first hash.

Two behaviours of the code are kept as written, although one might expect
otherwise:

- the version test reads the low nibble of the first byte, `work[0] & 0xf`
  (src/dero.rs:99);
- the nonce `i` is declared once, before the job loop (src/dero.rs:66). It is
  never reset when a new job arrives, so the scan of a new job continues from
  the last nonce of the previous one.

`MINIBLOCK_SIZE` is defined in `block.rs`, which is not part of this model. It
is taken as 48, the length of the hashing test input of `astrobwt.rs`.

## Model

| member | source | states |
|---|---|---|
| Difficulty.AcceptsIffLowBytesWithin | src/dero.rs:28-35 | a digest passes iff its bytes 8..31 are zero and its first 8 bytes, read little-endian, are at most the difficulty |
| Difficulty.AcceptedHasZeroHighBytes | src/dero.rs:28-35 | every accepted digest has bytes 8..31 equal to zero, since the difficulty is below 2^64 |
| Difficulty.ZeroDigestAccepted | src/dero.rs:28-35 | the all-zero digest passes at every difficulty, 0 included |
| Difficulty.AcceptanceMonotoneInDifficulty | src/dero.rs:28-35 | a digest accepted at d is accepted at every d' >= d |
| Difficulty.AcceptanceMonotoneInDigest | src/dero.rs:28-35 | a digest whose little-endian value is at most that of an accepted digest is accepted |
| Bytes.LeValueAppend | src/dero.rs:29 | the little-endian value of lo + hi is value(lo) + 256^len(lo) * value(hi) |
| Bytes.LeValueZero | src/dero.rs:29 | a byte string reads as 0 exactly when all its bytes are 0 |
| Bytes.U32BeRoundTrip | src/dero.rs:106-109 | the four bytes written for a u32 nonce, most significant first, read back as that nonce |
| Hex.Decode | src/dero.rs:80-93 | hex decoding succeeds iff the length is even and every character is a hex digit, giving len/2 bytes, byte k spelled by digits 2k and 2k+1; odd length is reported first, else the first bad character with its index |
| Hex.DecodePairs | src/dero.rs:80 | decoding from an even position succeeds iff every later character is a hex digit, one byte per pair, else the first bad character |
| Hex.DecodeEncode | src/dero.rs:80 | decoding the lower-case hex spelling of any bytes gives those bytes back |
| Mining.Prepare | src/dero.rs:68-102 | a snapshot is ready to hash iff its count is non-zero, its blob hex-decodes to exactly MINIBLOCK_SIZE bytes and the low nibble of byte 0 is 1; the ready buffer is the blob with the id byte last, and the difficulty is the template's |
| Mining.WorkLayout | src/dero.rs:94-97 | the hashed buffer holds the blob in bytes 0..SIZE-6, the nonce most significant byte first in SIZE-5..SIZE-2 (reading back as the nonce), and id mod 256 in byte SIZE-1 |
| Mining.IdentitySeparation | src/dero.rs:97 | two workers hash different buffers for the same blob and nonce iff their ids differ modulo 256 |
| Mining.FoundExactlyPassing | src/dero.rs:113-116 | the nonces reported as finds are exactly the tried nonces whose digest passes the difficulty test |
| Mining.JobStore.constructor | src/main.rs:114-130 | the store starts with count 0 and an all-empty template |
| Mining.JobStore.Publish | src/dero.rs:189-193 | a publish replaces the template wholesale and sets count to old count + 1, also for an identical template |
| Mining.Counter.FetchAdd | src/dero.rs:112 | the shared counter grows by the given amount and the old value is returned |
| Mining.Miner.constructor | src/dero.rs:64-66 | a worker starts with an all-zero 48-byte buffer, nonce 0 and nothing hashed; the nonce is never reset after this |
| Mining.Counter.constructor | src/main.rs:113 | the shared hash counter starts at 0 |
| Mining.Miner.LoadBlob | src/dero.rs:94-97 | the for-loop copy of the blob plus the id byte leaves the buffer equal to the blob with id mod 256 in the last byte |
| Mining.Miner.StampNonce | src/dero.rs:106-109 | the buffer changes only in bytes SIZE-5..SIZE-2, which take the nonce most significant byte first |
| Mining.Miner.HashNext | src/dero.rs:105-113 | one nonce increment (wrapping), then the stamp, one hash of the stamped buffer, one counter increment, and the difficulty test of that hash |
| Mining.Miner.Scan | src/dero.rs:104-121 | the scan runs at least once; the count is re-read after every hash, every re-read but the last gives the snapshot's count, and the last one differs from it, so the scan stops at the first changed count; the nonce advances by the number of hashes, carried on from its old value; the counter rises by the same number; the hashed buffers are the base buffer with each successive nonce; the finds are those that pass |
| Mining.Miner.Round | src/dero.rs:67-123 | the round follows Prepare; a round that is not ready hashes nothing and leaves nonce, counter and store alone, and leaves the buffer unchanged unless the version check failed after the copy; a ready round scans as Scan states, including the stop at the first re-read that differs from the snapshot's count |
| AstroBwt.Sha3 | libs/derohe/src/pow/astrobwt.rs:27-34 | the copy into the 32-byte output panics exactly when the hasher's output is not 32 bytes long; otherwise the result is that output |
| AstroBwt.Sha3NeverPanics | libs/derohe/src/pow/astrobwt.rs:27-34 | with a SHA3-256 that outputs 32 bytes, the wrapper never panics and returns the hash |
| AstroBwt.Stage1IsKeystream | libs/derohe/src/pow/astrobwt.rs:11-17 | the stage-1 buffer is exactly the first STAGE1_LENGTH = 9973 keystream bytes, whatever the key |
| AstroBwt.SuffixArrayIsPermutation | libs/derohe/src/pow/astrobwt.rs:18-20 | a suffix array of s has no repeated entry and contains every position 0..len(s)-1 |
| AstroBwt.TruncateIsLossless | libs/derohe/src/pow/astrobwt.rs:21 | casting every index of a stage-1 suffix array to u16 changes none of them |
| AstroBwt.EncodeLe16Layout | libs/derohe/src/pow/astrobwt.rs:22 | the byte view has two bytes per word, bytes 2k and 2k+1 being the low and high byte of word k |
| AstroBwt.DecodeEncodeLe16 | libs/derohe/src/pow/astrobwt.rs:21-22 | reading the byte pairs back as little-endian words recovers the words |
| AstroBwt.Pow16Stages | libs/derohe/src/pow/astrobwt.rs:9-25 | for every input (empty included) the stage-1 buffer has 9973 bytes, its suffix array is a permutation of 0..9972, the u16 cast keeps it, the second hash reads 19946 bytes that decode back to it, and pow16 is SHA3-256 of those bytes |
| RpcAddress.FromCompressedReversedSign | libs/derohe/src/rpc/address.rs:27-43 | anything but 33 bytes is InvalidEncoding; for 33 bytes, a field error on the first 32 bytes is passed on as Field; otherwise, with x read from them, the result is the point (x, y) exactly when x^3 + b has a square root y and (x, y) lies on the curve, and NotMember when it has none or the point is off the curve |
| RpcAddress.SignByteIgnored | libs/derohe/src/rpc/address.rs:30-42 | two 33-byte inputs that differ only in the sign byte decode alike |
| RpcAddress.FromString | libs/derohe/src/rpc/address.rs:47-101 | an address is accepted iff it decodes as Bech32 with one of the five prefixes, its data is non-empty, its bytes start with version 1 followed by at least 33 bytes whose first 33 are a curve point; then mainnet is false exactly for deto/detoi, proof is true exactly for deroproof, network is 0 and the arguments are empty |
| RpcAddress.ErrorOrder | libs/derohe/src/rpc/address.rs:47-81 | the reported error is that of the first failing check in order: Bech32, prefix, empty data, (regrouping, which panics), version byte, length, point |
| RpcAddress.TrailingBytesIgnored | libs/derohe/src/rpc/address.rs:74-78 | with equal prefix, version byte and first 33 payload bytes, the bytes after them do not change the result |
| RpcAddress.Message | libs/derohe/src/rpc/address.rs:47-81 | a Bech32 error's text is passed on unchanged, a curve error becomes its Debug name, and the crate's own messages all start with "invalid " |
| RpcAddress.DecimalRoundTrip | libs/derohe/src/rpc/address.rs:66-76 | the decimal spelling that `format!` gives a number in an error message reads back as that number |
| RpcAddress.MessageIdentifiesError | libs/derohe/src/rpc/address.rs:61-77 | two of the crate's own error messages are equal only for the same failed check with the same reported number |
| DeroAddress.Validate | src/dero.rs:19-24 | validation is Ok iff from_string succeeds; otherwise the error is "invalid address, reason: " followed by from_string's error text; a panic stays a panic |

## Left out

- The endless `loop` of `Miner::start` is modelled one pass at a time, by `Mining.Miner.Round`. Busy-polling on count 0 is a sequence of `Round` calls that each return `NoWork`.
- Threads, `RwLock` and `AtomicCell` are not modelled; all state is sequential. A publication is modelled from the snapshot to the end of the scan, but not during preparation.
- The network half of `WorkGatherer::get_work` (src/dero.rs:156-186) is left out: the WebSocket/TLS connection, the error channel and JSON parsing. Its `serde_json::from_str(...).unwrap()` at line 186 panics on malformed JSON instead of reporting it.
- `src/main.rs` is left out: command-line parsing, logger setup, the ctrl-c channel, the `select!` loop, thread spawning and the floating-point hashrate report.
- Log output (`error!`, `info!`) is not modelled. The log line for a found share becomes the `found` result of `Scan`; submitting it is not implemented in the source.
- Mining.Counter.FetchAdd: the counter is an unbounded integer; the `i64` wrap-around of `AtomicCell::fetch_add` after 2^63 hashes is not modelled.
- Mining.JobStore.Publish: the count is an unbounded integer; overflow of the `u64` count after 2^64 publications is not modelled.
- Mining.Miner.HashNext: the nonce wraps modulo 2^32, as in a release build. A debug build panics on that overflow at src/dero.rs:105; this is not modelled.
- SHA3-256 (FIPS 202), Salsa20, `cdivsufsort`, Bech32 decoding (BIP 173), `from_base32`, and the `bn` field and curve operations are abstract. Only the contracts named above are used, so the test vectors at libs/derohe/src/pow/astrobwt.rs:47-49 and libs/derohe/src/rpc/address.rs:111-126 are not discharged.
- `num_bigint` is replaced by the little-endian value of the digest; nothing else of it is used.
- The in-place buffers of `pow16` (`stage1_result`, `sa`) and of `sha3` (`output`) are modelled as sequence values. No aliasing between them exists in the source.
- `align_to::<u8>` reinterprets memory, so on a big-endian host the byte order would differ. The model fixes the little-endian layout.
- Hex.Decode reads a Rust string as its UTF-8 bytes, and the model reads it as characters. For non-ASCII text both fail, but the error kind, the character and the index can all differ: "é1" has 3 bytes, so the crate reports odd length where the model reports 'é' at index 0, and the crate reports a lead byte such as 0xC3 where the model reports the whole character. Only success versus failure agrees.
- `GetBlockTemplateResult` keeps only the three fields the worker reads: the hashing blob, the `u64` difficulty and the height. The other fields and the serde helpers are not modelled.
- The `Arguments` parsing after the public key is commented out in the source, so nothing of it is modelled. A successful address always has empty arguments.
- `from_base32(...).unwrap()` and `res[0]` panic in the source. They are modelled as a `Panic` outcome, not as an error.
- `benches/sa.rs` only benchmarks, so it is left out.
