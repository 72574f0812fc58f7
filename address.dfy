/**
 * Decoding of a DERO address (`rpc::address`): the checks that follow the
 * Bech32 decoding of the text, and the decompression of the 33-byte public
 * key. Bech32 decoding (BIP 173), the regrouping of 5-bit groups into bytes
 * and the BN254 field and curve arithmetic are foreign code: the
 * function-valued fields of `Primitives`.
 */
module RpcAddress {
  import opened Bytes
  import opened Wrappers

  /** A 5-bit Bech32 data group. */
  type u5 = x: int | 0 <= x < 32

  datatype Variant = Bech32 | Bech32m

  /** What `bech32::decode` returns: human-readable part, data groups, checksum variant. */
  datatype Bech32Parts = Bech32Parts(hrp: string, data: seq<u5>, variant: Variant)

  /** A BN254 base-field element, kept abstract as its integer value. */
  type Fq = nat

  /** A curve point, given by its affine coordinates. */
  datatype G1 = G1(x: Fq, y: Fq)

  datatype CurveError = InvalidEncoding | NotMember | Field(fieldError: string)

  datatype Primitives = Primitives(
    /** `bech32::decode`; an error carries its display text. */
    bech32Decode: string -> Result<Bech32Parts, string>,
    /** `Vec::<u8>::from_base32`; `None` when the groups do not regroup into bytes. */
    fromBase32: seq<u5> -> Option<seq<byte>>,
    /** `Fq::from_slice`; an error carries the debug name of the field error. */
    fqFromSlice: seq<byte> -> Result<Fq, string>,
    /** x^3 + b, the right-hand side of the curve equation. */
    curveRhs: Fq -> Fq,
    /** A square root in the field, if there is one. */
    sqrt: Fq -> Option<Fq>,
    /** `AffineG1::new(x, y)` succeeds: (x, y) lies on the curve. */
    onCurve: (Fq, Fq) -> bool)

  datatype DataType = String | Int64 | Uint64 | Float64 | Hash | Address | Time

  datatype Argument = Argument(name: string, dataType: DataType)

  datatype Address = Address(
    network: u64,
    mainnet: bool,
    proof: bool,
    publicKey: Option<G1>,
    arguments: seq<Argument>)

  /** The human-readable parts an address may carry. */
  const KNOWN_HRPS: set<string> := {"dero", "deroi", "deto", "detoi", "deroproof"}

  /** The testnet prefixes. */
  const TESTNET_HRPS: set<string> := {"deto", "detoi"}

  /** Length of a compressed public key: 32 bytes of x and a sign byte. */
  const COMPRESSED_POINT_LENGTH: nat := 33

  /**
   * `G1::from_compressed_reversed_sign`: anything but 33 bytes is an invalid
   * encoding; otherwise x is read from the first 32 bytes, y is the square
   * root of x^3 + b, and the point must lie on the curve. The sign byte is
   * read and then ignored.
   */
  function FromCompressedReversedSign(p: Primitives, bytes: seq<byte>): (r: Result<G1, CurveError>)
    ensures |bytes| != COMPRESSED_POINT_LENGTH ==> r == Err(InvalidEncoding)
    ensures r.Ok? ==> |bytes| == COMPRESSED_POINT_LENGTH && p.fqFromSlice(bytes[..32]) == Ok(r.value.x) &&
                      p.sqrt(p.curveRhs(r.value.x)) == Some(r.value.y) && p.onCurve(r.value.x, r.value.y)
    ensures r.Err? && r.error.Field? ==> p.fqFromSlice(bytes[..32]) == Err(r.error.fieldError)
    ensures |bytes| == COMPRESSED_POINT_LENGTH && p.fqFromSlice(bytes[..32]).Err? ==>
              r == Err(Field(p.fqFromSlice(bytes[..32]).error))
    ensures |bytes| == COMPRESSED_POINT_LENGTH && p.fqFromSlice(bytes[..32]).Ok? ==>
              var x := p.fqFromSlice(bytes[..32]).value;
              var root := p.sqrt(p.curveRhs(x));
              && (root.Some? && p.onCurve(x, root.value) ==> r == Ok(G1(x, root.value)))
              && (root.None? || !p.onCurve(x, root.value) ==> r == Err(NotMember))
  {
    if |bytes| != COMPRESSED_POINT_LENGTH then Err(InvalidEncoding)
    else
      var sign := bytes[32];
      match p.fqFromSlice(bytes[0..32])
      case Err(fe) => Err(Field(fe))
      case Ok(x) =>
        match p.sqrt(p.curveRhs(x))
        case None => Err(NotMember)
        case Some(y) => if p.onCurve(x, y) then Ok(G1(x, y)) else Err(NotMember)
  }

  /** Two 33-byte encodings that differ only in the sign byte decode alike. */
  lemma SignByteIgnored(p: Primitives, a: seq<byte>, b: seq<byte>)
    requires |a| == |b| == COMPRESSED_POINT_LENGTH
    requires forall k :: 0 <= k < 32 ==> a[k] == b[k]
    ensures FromCompressedReversedSign(p, a) == FromCompressedReversedSign(p, b)
  {
    assert a[0..32] == b[0..32];
  }

  /** Why `from_string` rejects an address. */
  datatype AddressError =
    | Bech32Error(message: string)
    | InvalidHrp
    | InvalidDecodeVersion(dataLength: nat)
    | InvalidVersion(version: byte)
    | InvalidLength(payloadLength: nat)
    | Curve(curveError: CurveError)

  /** The decimal digits of a number, as `format!("{}", n)` writes them. */
  function Decimal(n: nat): (s: string)
    ensures |s| >= 1 && forall i :: 0 <= i < |s| ==> '0' <= s[i] <= '9'
  {
    if n < 10 then [('0' as int + n) as char] else Decimal(n / 10) + [('0' as int + n % 10) as char]
  }

  /** The number a string of decimal digits spells, most significant digit first. */
  function DecimalValue(s: string): nat
  {
    if s == [] then 0
    else
      var d := s[|s| - 1] as int - '0' as int;
      DecimalValue(s[..|s| - 1]) * 10 + (if 0 <= d then d else 0)
  }

  /** Reading back the decimal spelling of a number gives the number. */
  lemma {:induction false} DecimalRoundTrip(n: nat)
    ensures DecimalValue(Decimal(n)) == n
  {
    var s := Decimal(n);
    if n >= 10 {
      DecimalRoundTrip(n / 10);
      assert s[..|s| - 1] == Decimal(n / 10);
    }
  }

  /** `format!("{:?}", e)` of a curve error. */
  function CurveErrorDebug(e: CurveError): string
  {
    match e
    case InvalidEncoding => "InvalidEncoding"
    case NotMember => "NotMember"
    case Field(fe) => "Field(" + fe + ")"
  }

  /** The error string `from_string` returns. */
  function Message(e: AddressError): (r: string)
    ensures e.Bech32Error? ==> r == e.message
    ensures e.Curve? ==> r == CurveErrorDebug(e.curveError)
    ensures IsFixedText(e) ==> |r| > 8 && r[..8] == "invalid "
  {
    match e
    case Bech32Error(m) => m
    case InvalidHrp => "invalid human-readable part"
    case InvalidDecodeVersion(n) => "invalid decode version: " + Decimal(n)
    case InvalidVersion(v) => "invalid address version: " + Decimal(v)
    case InvalidLength(n) => "invalid address length as per spec: " + Decimal(n)
    case Curve(c) => CurveErrorDebug(c)
  }

  /** The errors whose message is the crate's own text rather than a passed-on one. */
  predicate IsFixedText(e: AddressError)
  {
    e.InvalidHrp? || e.InvalidDecodeVersion? || e.InvalidVersion? || e.InvalidLength?
  }

  /**
   * The crate's own messages tell its checks apart: two such errors with the
   * same text are the same error, down to the number they report.
   */
  lemma MessageIdentifiesError(e1: AddressError, e2: AddressError)
    requires IsFixedText(e1) && IsFixedText(e2)
    requires Message(e1) == Message(e2)
    ensures e1 == e2
  {
    MessageSplits(e1);
    MessageSplits(e2);
    var m := Message(e1);
    assert m[8] == Prefix(e1)[8] == Prefix(e2)[8];
    assert m[16] == Prefix(e1)[16] == Prefix(e2)[16];
    PrefixIdentifiesKind(e1, e2);
    if !e1.InvalidHrp? {
      SpellingIdentifiesNumber(Prefix(e1), Number(e1), Number(e2));
    }
  }

  /** The crate's own text in front of the reported number (all of it for `InvalidHrp`). */
  function Prefix(e: AddressError): (r: string)
    requires IsFixedText(e)
    ensures |r| > 16
  {
    match e
    case InvalidHrp => "invalid human-readable part"
    case InvalidDecodeVersion(_) => "invalid decode version: "
    case InvalidVersion(_) => "invalid address version: "
    case InvalidLength(_) => "invalid address length as per spec: "
  }

  /** A fixed-text message is its prefix followed by the reported number, if any. */
  lemma MessageSplits(e: AddressError)
    requires IsFixedText(e)
    ensures Message(e) == Prefix(e) + (if e.InvalidHrp? then "" else Decimal(Number(e)))
  {
    if e.InvalidHrp? {
      assert Message(e) == Prefix(e) + "";
    }
  }

  /** Characters 8 and 16 of the prefix tell the four kinds apart. */
  lemma PrefixIdentifiesKind(e1: AddressError, e2: AddressError)
    requires IsFixedText(e1) && IsFixedText(e2)
    requires Prefix(e1)[8] == Prefix(e2)[8] && Prefix(e1)[16] == Prefix(e2)[16]
    ensures Prefix(e1) == Prefix(e2)
    ensures e1.InvalidHrp? == e2.InvalidHrp? && e1.InvalidDecodeVersion? == e2.InvalidDecodeVersion?
    ensures e1.InvalidVersion? == e2.InvalidVersion? && e1.InvalidLength? == e2.InvalidLength?
  {}

  /** Behind a common prefix, equal spellings are of equal numbers. */
  lemma SpellingIdentifiesNumber(prefix: string, n1: nat, n2: nat)
    requires prefix + Decimal(n1) == prefix + Decimal(n2)
    ensures n1 == n2
  {
    assert Decimal(n1) == (prefix + Decimal(n1))[|prefix|..];
    assert Decimal(n2) == (prefix + Decimal(n2))[|prefix|..];
    DecimalRoundTrip(n1);
    DecimalRoundTrip(n2);
  }

  /** The number a fixed-text error reports. */
  function Number(e: AddressError): nat
  {
    match e
    case InvalidDecodeVersion(n) => n
    case InvalidVersion(v) => v
    case InvalidLength(n) => n
    case _ => 0
  }

  /**
   * The declarative acceptance condition: the text is valid Bech32 with a
   * known prefix, and its data regroups into bytes made of the version byte 1
   * (from a non-empty data part) followed by at least 33 bytes whose first 33 are a point of the curve.
   */
  ghost predicate WellFormed(p: Primitives, encoded: string)
  {
    && p.bech32Decode(encoded).Ok?
    && var parts := p.bech32Decode(encoded).value;
    && parts.hrp in KNOWN_HRPS
    && parts.data != []
    && p.fromBase32(parts.data).Some?
    && var res := p.fromBase32(parts.data).value;
    && |res| >= 1 + COMPRESSED_POINT_LENGTH
    && res[0] == 1
    && FromCompressedReversedSign(p, res[1..1 + COMPRESSED_POINT_LENGTH]).Ok?
  }

  /**
   * `Address::from_string`. The checks run in this order, the first failing
   * one deciding the result: Bech32 decoding, the prefix whitelist, a
   * non-empty data part, the version byte, the payload length, the point.
   * Regrouping the data into bytes panics when it fails or yields no byte.
   */
  function FromString(p: Primitives, encoded: string): (r: Outcome<Result<Address, AddressError>>)
    ensures (r.Return? && r.value.Ok?) <==> WellFormed(p, encoded)
    ensures r.Return? && r.value.Ok? ==>
              var hrp := p.bech32Decode(encoded).value.hrp;
              var res := p.fromBase32(p.bech32Decode(encoded).value.data).value;
              && r.value.value.mainnet == (hrp !in TESTNET_HRPS)
              && r.value.value.proof == (hrp == "deroproof")
              && r.value.value.network == 0
              && r.value.value.arguments == []
              && r.value.value.publicKey == Some(FromCompressedReversedSign(p, res[1..1 + COMPRESSED_POINT_LENGTH]).value)
  {
    match p.bech32Decode(encoded)
    case Err(e) => Return(Err(Bech32Error(e)))
    case Ok(parts) =>
      var hrp, data := parts.hrp, parts.data;
      if hrp !in KNOWN_HRPS then Return(Err(InvalidHrp))
      else if |data| < 1 then Return(Err(InvalidDecodeVersion(|data|)))
      else match p.fromBase32(data)
        case None => Panic
        case Some(res) =>
          if |res| == 0 then Panic
          else if res[0] != 1 then Return(Err(InvalidVersion(res[0])))
          else
            var resBytes := res[1..];
            if |resBytes| < COMPRESSED_POINT_LENGTH then Return(Err(InvalidLength(|resBytes|)))
            else
              assert resBytes[..COMPRESSED_POINT_LENGTH] == res[1..1 + COMPRESSED_POINT_LENGTH];
              match FromCompressedReversedSign(p, resBytes[..COMPRESSED_POINT_LENGTH])
              case Err(ce) => Return(Err(Curve(ce)))
              case Ok(g) =>
                Return(Ok(Address.Address(
                  network := 0,
                  mainnet := hrp !in TESTNET_HRPS,
                  proof := hrp == "deroproof",
                  publicKey := Some(g),
                  arguments := [])))
  }

  /**
   * The error reported is that of the first check, in source order, that
   * fails: Bech32 decoding, prefix, empty data, (regrouping, which panics),
   * version byte, payload length, point decoding.
   */
  lemma ErrorOrder(p: Primitives, encoded: string)
    ensures var d := p.bech32Decode(encoded);
            d.Err? ==> FromString(p, encoded) == Return(Err(Bech32Error(d.error)))
    ensures var d := p.bech32Decode(encoded);
            d.Ok? && d.value.hrp !in KNOWN_HRPS ==> FromString(p, encoded) == Return(Err(InvalidHrp))
    ensures var d := p.bech32Decode(encoded);
            d.Ok? && d.value.hrp in KNOWN_HRPS && d.value.data == [] ==>
              FromString(p, encoded) == Return(Err(InvalidDecodeVersion(0)))
    ensures var d := p.bech32Decode(encoded);
            d.Ok? && d.value.hrp in KNOWN_HRPS && d.value.data != [] &&
            (p.fromBase32(d.value.data) == None || p.fromBase32(d.value.data) == Some([])) ==>
              FromString(p, encoded) == Panic
    ensures var d := p.bech32Decode(encoded);
            d.Ok? && d.value.hrp in KNOWN_HRPS && d.value.data != [] && p.fromBase32(d.value.data).Some? ==>
              var res := p.fromBase32(d.value.data).value;
              && (|res| >= 1 && res[0] != 1 ==> FromString(p, encoded) == Return(Err(InvalidVersion(res[0]))))
              && (|res| >= 1 && res[0] == 1 && |res| - 1 < COMPRESSED_POINT_LENGTH ==>
                    FromString(p, encoded) == Return(Err(InvalidLength(|res| - 1))))
              && (|res| >= 1 + COMPRESSED_POINT_LENGTH && res[0] == 1 &&
                  FromCompressedReversedSign(p, res[1..1 + COMPRESSED_POINT_LENGTH]).Err? ==>
                    FromString(p, encoded) ==
                      Return(Err(Curve(FromCompressedReversedSign(p, res[1..1 + COMPRESSED_POINT_LENGTH]).error))))
  {
    var d := p.bech32Decode(encoded);
    if d.Ok? && p.fromBase32(d.value.data).Some? {
      var res := p.fromBase32(d.value.data).value;
      if |res| >= 1 + COMPRESSED_POINT_LENGTH {
        assert res[1..][..COMPRESSED_POINT_LENGTH] == res[1..1 + COMPRESSED_POINT_LENGTH];
      }
    }
  }

  /**
   * Once the version byte is 1, only the first 33 payload bytes matter:
   * decodings that agree on the prefix and on those bytes give the same
   * result, whatever follows.
   */
  lemma TrailingBytesIgnored(p: Primitives, s1: string, s2: string)
    requires p.bech32Decode(s1).Ok? && p.bech32Decode(s2).Ok?
    requires p.bech32Decode(s1).value.hrp == p.bech32Decode(s2).value.hrp
    requires p.bech32Decode(s1).value.data != [] && p.bech32Decode(s2).value.data != []
    requires p.fromBase32(p.bech32Decode(s1).value.data).Some? && p.fromBase32(p.bech32Decode(s2).value.data).Some?
    requires var r1 := p.fromBase32(p.bech32Decode(s1).value.data).value;
             var r2 := p.fromBase32(p.bech32Decode(s2).value.data).value;
             |r1| >= 1 + COMPRESSED_POINT_LENGTH && |r2| >= 1 + COMPRESSED_POINT_LENGTH &&
             r1[..1 + COMPRESSED_POINT_LENGTH] == r2[..1 + COMPRESSED_POINT_LENGTH]
    ensures FromString(p, s1) == FromString(p, s2)
  {
    var r1 := p.fromBase32(p.bech32Decode(s1).value.data).value;
    var r2 := p.fromBase32(p.bech32Decode(s2).value.data).value;
    assert r1[0] == r2[0];
    assert r1[1..][..COMPRESSED_POINT_LENGTH] == r2[1..][..COMPRESSED_POINT_LENGTH];
  }
}
