/** The generic versioned Base58Check codec: version prefix, 4-byte double-hash
    checksum, and delegation to an alphabet codec (the `Codec` class of
    dist/ripple-address-codec/index.js). */
module AddressCodec {
  import opened Wrappers
  import opened Js

  /** The errors the codec throws, by the tag at the start of each message. */
  datatype Error =
    | UnexpectedPayloadLength   // 'unexpected_payload_length', on encode and on decode
    | InvalidInputSize          // 'invalid_input_size': fewer than 5 decoded bytes
    | ChecksumInvalid           // 'checksum_invalid'
    | ExpectedLengthRequired    // several candidate versions but no expected length
    | VersionInvalid            // 'version_invalid': no candidate matches
    | MissingVersion            // TypeError: the first candidate version is absent
    | NonBaseCharacter          // thrown by the alphabet codec on a foreign character
    | EntropyLength             // 'entropy must have length 16'
    | SeedType                  // 'type must be ed25519 or secp256k1'

  /** One version as JavaScript passes it: a number or an array of numbers. */
  datatype VersionSpec = Byte(b: byte) | Bytes(bs: seq<byte>)

  /** The bytes a version stands for: a number becomes a one-element array. */
  function VersionBytes(v: VersionSpec): seq<byte> {
    match v
    case Byte(b) => [b]
    case Bytes(bs) => bs
  }

  /** `opts.versions` on decode: a single number, or an array of candidates. */
  datatype Versions = One(b: byte) | Many(candidates: seq<VersionSpec>)

  /** The candidate list: a non-array is wrapped in a one-element array. An absent
      value, like an empty array, leaves no first candidate to read. */
  function Candidates(versions: Option<Versions>): seq<VersionSpec> {
    match versions
    case None => []
    case Some(One(b)) => [Byte(b)]
    case Some(Many(vs)) => vs
  }

  datatype EncodeOptions = EncodeOptions(versions: VersionSpec, expectedLength: Option<nat>)

  datatype DecodeOptions = DecodeOptions(
    versions: Option<Versions>,
    versionTypes: Option<seq<string>>,
    expectedLength: Option<nat>)

  /** The object `decode` returns: the matched version, the payload and its type label. */
  datatype Decoded = Decoded(version: seq<byte>, bytes: seq<byte>, versionType: Option<string>)

  /** The base-N alphabet codec built from an alphabet (the external `base-x` package). */
  datatype AlphabetCodec = AlphabetCodec(encode: seq<byte> -> string, decode: string -> Option<seq<byte>>)

  /** What the alphabet codec is relied on for: decoding undoes encoding. */
  ghost predicate RoundTrips(raw: AlphabetCodec) {
    forall b :: raw.decode(raw.encode(b)) == Some(b)
  }

  /** What the hash is relied on for: every digest has at least 4 bytes. */
  ghost predicate DigestsAtLeast4(hash: seq<byte> -> seq<byte>) {
    forall x :: 4 <= |hash(x)|
  }

  datatype CodecOptions = CodecOptions(sha256: seq<byte> -> seq<byte>, alphabet: string)

  /** The type label aligned with candidate `i`: absent when no labels were given,
      and `undefined` when the label array is shorter than the candidate list. */
  function TypeAt(types: Option<seq<string>>, i: nat): Option<string> {
    if types.Some? && i < |types.value| then Some(types.value[i]) else None
  }

  /** The index of the LAST candidate whose bytes equal `versionBytes`. */
  function LastMatch(versions: seq<VersionSpec>, versionBytes: seq<byte>): (r: Option<nat>)
    ensures r.Some? ==> r.value < |versions| && VersionBytes(versions[r.value]) == versionBytes
    ensures r.Some? ==> forall j :: r.value < j < |versions| ==> VersionBytes(versions[j]) != versionBytes
    ensures r.None? <==> forall j :: 0 <= j < |versions| ==> VersionBytes(versions[j]) != versionBytes
    decreases |versions|
  {
    if |versions| == 0 then None
    else if VersionBytes(versions[|versions| - 1]) == versionBytes then Some(|versions| - 1)
    else LastMatch(versions[..|versions| - 1], versionBytes)
  }

  /** The scan of `decode`: every candidate is compared, there is no early exit, and
      each match overwrites the result, so the last match decides. `ret` starts
      with empty fields where index.js:49-53 starts with `null`. */
  method ScanVersions(versions: seq<VersionSpec>, types: Option<seq<string>>,
                      versionBytes: seq<byte>, payload: seq<byte>)
    returns (foundVersion: bool, ret: Decoded)
    ensures foundVersion == LastMatch(versions, versionBytes).Some?
    ensures foundVersion ==>
      var i := LastMatch(versions, versionBytes).value;
      ret == Decoded(VersionBytes(versions[i]), payload, TypeAt(types, i))
    ensures !foundVersion ==> ret == Decoded([], [], None)
  {
    foundVersion := false;
    ret := Decoded([], [], None);
    for i := 0 to |versions|
      invariant foundVersion == LastMatch(versions[..i], versionBytes).Some?
      invariant foundVersion ==>
        var k := LastMatch(versions[..i], versionBytes).value;
        ret == Decoded(VersionBytes(versions[k]), payload, TypeAt(types, k))
      invariant !foundVersion ==> ret == Decoded([], [], None)
    {
      assert versions[..i + 1][..i] == versions[..i];
      var version := VersionBytes(versions[i]);
      if version == versionBytes {
        ret := ret.(version := version, bytes := payload);
        if types.Some? {
          ret := ret.(versionType := if i < |types.value| then Some(types.value[i]) else None);
        }
        foundVersion := true;
      }
    }
    assert versions[..|versions|] == versions;
  }

  /** Where `decode` splits the checksum-free buffer into version bytes and payload:
      the payload length is the expected length when that is truthy, and otherwise
      the buffer length minus the length of the first candidate; the cut is then
      made with `slice(0, -n)` and `slice(-n)`. */
  function Split(withoutSum: seq<byte>, first: VersionSpec, expectedLength: Option<nat>)
    : (parts: (seq<byte>, seq<byte>))
    ensures parts.0 + parts.1 == withoutSum
    ensures Truthy(expectedLength) ==>
      |parts.1| == if expectedLength.value <= |withoutSum| then expectedLength.value else |withoutSum|
    ensures !Truthy(expectedLength) && |VersionBytes(first)| < |withoutSum| ==>
      parts.0 == withoutSum[..|VersionBytes(first)|]
    ensures !Truthy(expectedLength) && 1 <= |withoutSum| <= |VersionBytes(first)| ==>
      |parts.0| < |VersionBytes(first)|
  {
    var payloadLength := if Truthy(expectedLength) then expectedLength.value as int
                         else |withoutSum| - |VersionBytes(first)|;
    (SliceTo(withoutSum, -payloadLength), SliceFrom(withoutSum, -payloadLength))
  }

  class Codec {
    const sha256: seq<byte> -> seq<byte>
    const alphabet: string
    const codec: AlphabetCodec
    const base: nat

    /** Stores the hash and the alphabet, builds the alphabet codec, and takes the
        base from the alphabet's size. */
    constructor (options: CodecOptions, baseX: string -> AlphabetCodec)
      ensures sha256 == options.sha256 && alphabet == options.alphabet
      ensures codec == baseX(options.alphabet) && base == |options.alphabet|
    {
      sha256 := options.sha256;
      alphabet := options.alphabet;
      codec := baseX(options.alphabet);
      base := |options.alphabet|;
    }

    /** The first (at most) 4 bytes of the double digest. */
    function Checksum(buffer: seq<byte>): (check: seq<byte>)
      ensures |check| <= 4 && |check| <= |sha256(sha256(buffer))|
      ensures DigestsAtLeast4(sha256) ==> |check| == 4
      ensures check == sha256(sha256(buffer))[..|check|]
    {
      SliceTo(sha256(sha256(buffer)), 4)
    }

    /** The checked buffer: the input followed by its checksum. */
    function Frame(buffer: seq<byte>): (framed: seq<byte>)
      ensures |framed| == |buffer| + |Checksum(buffer)|
      ensures framed[..|buffer|] == buffer && framed[|buffer|..] == Checksum(buffer)
      ensures DigestsAtLeast4(sha256) ==> |framed| == |buffer| + 4
    {
      buffer + Checksum(buffer)
    }

    /** Delegates to the alphabet codec, which the round-trip assumption says decodes it back. */
    function EncodeRaw(bytes: seq<byte>): (s: string)
      ensures RoundTrips(codec) ==> codec.decode(s) == Some(bytes)
    {
      codec.encode(bytes)
    }

    /** The alphabet encoding of the checked buffer. */
    function EncodeChecked(buffer: seq<byte>): (s: string)
      ensures RoundTrips(codec) ==> codec.decode(s) == Some(Frame(buffer))
      ensures RoundTrips(codec) && DigestsAtLeast4(sha256) ==> |codec.decode(s).value| == |buffer| + 4
    {
      EncodeRaw(Frame(buffer))
    }

    /** Fails on a truthy expected length that the payload misses, before any
        encoding; otherwise checksums the version bytes followed by the payload.
        `versions` is used whole as the prefix. */
    function EncodeVersioned(bytes: seq<byte>, versions: VersionSpec, expectedLength: Option<nat>)
      : (r: Result<string, Error>)
      ensures r.Failure? <==> Truthy(expectedLength) && |bytes| != expectedLength.value
      ensures r.Failure? ==> r.error == UnexpectedPayloadLength
      ensures r.Success? ==> r.value == EncodeChecked(VersionBytes(versions) + bytes)
    {
      if Truthy(expectedLength) && |bytes| != expectedLength.value then
        Failure(UnexpectedPayloadLength)
      else
        Success(EncodeChecked(VersionBytes(versions) + bytes))
    }

    function Encode(bytes: seq<byte>, opts: EncodeOptions): (r: Result<string, Error>)
      ensures r.Failure? <==> Truthy(opts.expectedLength) && |bytes| != opts.expectedLength.value
      ensures r.Failure? ==> r.error == UnexpectedPayloadLength
      ensures r.Success? ==> r.value == EncodeChecked(VersionBytes(opts.versions) + bytes)
    {
      EncodeVersioned(bytes, opts.versions, opts.expectedLength)
    }

    /** Delegates to the alphabet codec: under the round-trip assumption, any bytes
        that encode to `s` are what it decodes to. */
    function DecodeRaw(s: string): (r: Option<seq<byte>>)
      ensures RoundTrips(codec) ==> forall b :: codec.encode(b) == s ==> r == Some(b)
    {
      codec.decode(s)
    }

    /** Compares the checksum of everything but the last 4 bytes with the last 4 bytes. */
    function VerifyCheckSum(bytes: seq<byte>): (ok: bool)
      ensures 4 <= |bytes| ==> (ok <==> bytes[|bytes| - 4..] == Checksum(bytes[..|bytes| - 4]))
      ensures |bytes| < 4 ==> (ok <==> bytes == Checksum([]))
    {
      Checksum(SliceTo(bytes, -4)) == SliceFrom(bytes, -4)
    }

    /** Decodes with the alphabet codec, requires at least 5 bytes, verifies the
        trailing checksum and strips it. */
    function DecodeChecked(s: string): (r: Result<seq<byte>, Error>)
      ensures codec.decode(s).None? ==> r == Failure(NonBaseCharacter)
      ensures codec.decode(s).Some? && |codec.decode(s).value| < 5 ==> r == Failure(InvalidInputSize)
      ensures codec.decode(s).Some? && 5 <= |codec.decode(s).value| ==>
        var buffer := codec.decode(s).value;
        r == if buffer[|buffer| - 4..] == Checksum(buffer[..|buffer| - 4])
             then Success(buffer[..|buffer| - 4]) else Failure(ChecksumInvalid)
    {
      match DecodeRaw(s)
      case None => Failure(NonBaseCharacter)
      case Some(buffer) =>
        if |buffer| < 5 then Failure(InvalidInputSize)
        else if !VerifyCheckSum(buffer) then Failure(ChecksumInvalid)
        else Success(SliceTo(buffer, -4))
    }

    /** Versioned decode. The candidate scan is the last-match search `LastMatch`,
        which `ScanVersions` shows the loop of index.js:62-72 computes. */
    function Decode(s: string, opts: DecodeOptions): (r: Result<Decoded, Error>)
      ensures DecodeChecked(s).Failure? ==> r == Failure(DecodeChecked(s).error)
      ensures DecodeChecked(s).Success? && |Candidates(opts.versions)| > 1 && !Truthy(opts.expectedLength)
        ==> r == Failure(ExpectedLengthRequired)
      ensures DecodeChecked(s).Success? && Candidates(opts.versions) == [] ==> r == Failure(MissingVersion)
      ensures r == Failure(VersionInvalid) <==>
        && DecodeChecked(s).Success?
        && Candidates(opts.versions) != []
        && !(|Candidates(opts.versions)| > 1 && !Truthy(opts.expectedLength))
        && LastMatch(Candidates(opts.versions),
                     Split(DecodeChecked(s).value, Candidates(opts.versions)[0], opts.expectedLength).0).None?
      ensures r.Success? <==>
        && DecodeChecked(s).Success?
        && Candidates(opts.versions) != []
        && !(|Candidates(opts.versions)| > 1 && !Truthy(opts.expectedLength))
        && var parts := Split(DecodeChecked(s).value, Candidates(opts.versions)[0], opts.expectedLength);
           && LastMatch(Candidates(opts.versions), parts.0).Some?
           && !(Truthy(opts.expectedLength) && |parts.1| != opts.expectedLength.value)
      ensures r.Success? ==> DecodeChecked(s) == Success(r.value.version + r.value.bytes)
      ensures r.Success? ==>
        && LastMatch(Candidates(opts.versions), r.value.version).Some?
        && r.value.versionType == TypeAt(opts.versionTypes, LastMatch(Candidates(opts.versions), r.value.version).value)
      ensures r.Success? && Truthy(opts.expectedLength) ==> |r.value.bytes| == opts.expectedLength.value
    {
      var versions := Candidates(opts.versions);
      match DecodeChecked(s)
      case Failure(e) => Failure(e)
      case Success(withoutSum) =>
        if |versions| > 1 && !Truthy(opts.expectedLength) then Failure(ExpectedLengthRequired)
        else if |versions| == 0 then Failure(MissingVersion)
        else
          var (versionBytes, payload) := Split(withoutSum, versions[0], opts.expectedLength);
          match LastMatch(versions, versionBytes)
          case None => Failure(VersionInvalid)
          case Some(i) =>
            if Truthy(opts.expectedLength) && |payload| != opts.expectedLength.value then
              Failure(UnexpectedPayloadLength)
            else
              Success(Decoded(VersionBytes(versions[i]), payload, TypeAt(opts.versionTypes, i)))
    }
  }

  /** Decoding the checked encoding of a non-empty buffer gives the buffer back. */
  lemma ChecksumRoundTrip(c: Codec, buffer: seq<byte>)
    requires RoundTrips(c.codec) && DigestsAtLeast4(c.sha256)
    requires 1 <= |buffer|
    ensures c.DecodeChecked(c.EncodeChecked(buffer)) == Success(buffer)
  {
    var framed := c.Frame(buffer);
    assert c.codec.decode(c.codec.encode(framed)) == Some(framed);
    assert framed[..|framed| - 4] == buffer;
    assert framed[|framed| - 4..] == c.Checksum(buffer);
  }

  /** `DecodeChecked` accepts exactly the strings whose decoded bytes are the frame
      of a non-empty buffer with a full 4-byte checksum, and returns that buffer. */
  lemma DecodeCheckedIsFrame(c: Codec, s: string, buffer: seq<byte>)
    ensures c.DecodeChecked(s) == Success(buffer) <==>
      c.codec.decode(s) == Some(c.Frame(buffer)) && 1 <= |buffer| && |c.Checksum(buffer)| == 4
  {
    if c.DecodeChecked(s) == Success(buffer) {
      var raw := c.codec.decode(s).value;
      assert raw[..|raw| - 4] == buffer;
      assert raw == raw[..|raw| - 4] + raw[|raw| - 4..];
    }
    if c.codec.decode(s) == Some(c.Frame(buffer)) && 1 <= |buffer| && |c.Checksum(buffer)| == 4 {
      var raw := c.Frame(buffer);
      assert raw[..|raw| - 4] == buffer;
      assert raw[|raw| - 4..] == c.Checksum(buffer);
    }
  }

  /** Versioned round trip: a payload encoded under version `v` decodes to the same
      payload and version, labelled by the last candidate that equals `v`, provided
      the decoder knows where to split: the expected length is the payload's, or
      there is a single candidate and the payload is not empty. */
  lemma VersionedRoundTrip(c: Codec, bytes: seq<byte>, v: VersionSpec, encodeLength: Option<nat>,
                           opts: DecodeOptions)
    requires RoundTrips(c.codec) && DigestsAtLeast4(c.sha256)
    requires c.EncodeVersioned(bytes, v, encodeLength).Success?
    requires LastMatch(Candidates(opts.versions), VersionBytes(v)).Some?
    requires 1 <= |bytes|
    requires opts.expectedLength == Some(|bytes|)
          || (!Truthy(opts.expectedLength) && |Candidates(opts.versions)| == 1)
    ensures c.Decode(c.EncodeVersioned(bytes, v, encodeLength).value, opts)
         == Success(Decoded(VersionBytes(v), bytes,
                            TypeAt(opts.versionTypes, LastMatch(Candidates(opts.versions), VersionBytes(v)).value)))
  {
    var s := c.EncodeVersioned(bytes, v, encodeLength).value;
    var withoutSum := VersionBytes(v) + bytes;
    ChecksumRoundTrip(c, withoutSum);
    var versions := Candidates(opts.versions);
    var parts := Split(withoutSum, versions[0], opts.expectedLength);
    assert parts.0 == VersionBytes(v) && parts.1 == bytes by {
      if !Truthy(opts.expectedLength) {
        assert VersionBytes(versions[0]) == VersionBytes(v);
        assert withoutSum[..|VersionBytes(v)|] == VersionBytes(v);
      }
    }
  }

  /** The expected length can only be missed on decode when it exceeds the
      checksum-free buffer and the empty version is a candidate: otherwise the
      split itself gives the payload that length. */
  lemma DecodeLengthMismatch(c: Codec, s: string, opts: DecodeOptions)
    ensures c.Decode(s, opts) == Failure(UnexpectedPayloadLength) <==>
      && c.DecodeChecked(s).Success?
      && Candidates(opts.versions) != []
      && Truthy(opts.expectedLength)
      && |c.DecodeChecked(s).value| < opts.expectedLength.value
      && LastMatch(Candidates(opts.versions), []).Some?
  {
    if c.DecodeChecked(s).Success? && Candidates(opts.versions) != [] && Truthy(opts.expectedLength) {
      var withoutSum := c.DecodeChecked(s).value;
      var parts := Split(withoutSum, Candidates(opts.versions)[0], opts.expectedLength);
      if |withoutSum| < opts.expectedLength.value {
        assert parts.1 == withoutSum;
        assert parts.0 == [];
      }
    }
  }

  /** A non-empty version with an empty payload does not survive the round trip
      without an expected length: the payload length is then 0, `slice(0, -0)` is
      empty, and the empty version bytes match no candidate. */
  lemma EmptyPayloadRejected(c: Codec, v: VersionSpec, opts: DecodeOptions)
    requires RoundTrips(c.codec) && DigestsAtLeast4(c.sha256)
    requires 1 <= |VersionBytes(v)|
    requires Candidates(opts.versions) == [v] && !Truthy(opts.expectedLength)
    ensures c.EncodeVersioned([], v, None).Success?
    ensures c.Decode(c.EncodeVersioned([], v, None).value, opts) == Failure(VersionInvalid)
  {
    var withoutSum := VersionBytes(v) + [];
    assert withoutSum == VersionBytes(v);
    ChecksumRoundTrip(c, withoutSum);
    var parts := Split(withoutSum, v, opts.expectedLength);
    assert parts.0 == [];
  }
}
