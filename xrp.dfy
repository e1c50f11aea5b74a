/** The XRP Ledger instance of the codec and its typed encoders and decoders
    (the second half of dist/ripple-address-codec/index.js). Every operation takes
    the shared codec instance as `xrp`, the object `NewXrpCodec` builds. */
module XrpCodec {
  import opened Wrappers
  import opened Js
  import opened AddressCodec

  const NODE_PUBLIC: byte := 28
  const ACCOUNT_ID: byte := 0
  const FAMILY_SEED: byte := 0x21
  const ED25519_SEED: seq<byte> := [0x01, 0xE1, 0x4B]
  const XRP_ALPHABET: string := "rpshnaf39wBUDNEGHJKLM4PQRST7VWXYZ2bcdeCg65jkm8oFqi1tuvAxyz"

  const ED25519: string := "ed25519"
  const SECP256K1: string := "secp256k1"

  /** The candidates and labels `decodeSeed` falls back on. */
  const SEED_VERSIONS: Versions := Many([Bytes(ED25519_SEED), Byte(FAMILY_SEED)])
  const SEED_TYPES: seq<string> := [ED25519, SECP256K1]

  /** `decodeSeed(seed)` called without options. */
  const NO_OPTIONS: DecodeOptions := DecodeOptions(None, None, None)

  /** The shared codec: SHA-256 and the XRP alphabet, a 58-symbol base. */
  method NewXrpCodec(sha256: seq<byte> -> seq<byte>, baseX: string -> AlphabetCodec)
    returns (xrp: Codec)
    ensures fresh(xrp)
    ensures xrp.sha256 == sha256 && xrp.alphabet == XRP_ALPHABET
    ensures xrp.codec == baseX(XRP_ALPHABET) && xrp.base == 58
  {
    xrp := new Codec(CodecOptions(sha256, XRP_ALPHABET), baseX);
  }

  /** The version prefix `encodeSeed` uses for an accepted seed type. */
  function SeedVersion(seedType: string): (v: VersionSpec)
    ensures VersionBytes(v) != [FAMILY_SEED] <==> seedType == ED25519
    ensures LastMatch(Candidates(Some(SEED_VERSIONS)), VersionBytes(v)) == Some(if seedType == ED25519 then 0 else 1)
  {
    if seedType == ED25519 then Bytes(ED25519_SEED) else Bytes([FAMILY_SEED])
  }

  /** Checks the entropy length, then the type, and only then encodes. */
  function EncodeSeed(xrp: Codec, entropy: seq<byte>, seedType: string): (r: Result<string, Error>)
    ensures |entropy| != 16 ==> r == Failure(EntropyLength)
    ensures |entropy| == 16 && seedType != ED25519 && seedType != SECP256K1 ==> r == Failure(SeedType)
    ensures r.Success? <==> |entropy| == 16 && (seedType == ED25519 || seedType == SECP256K1)
    ensures r.Success? ==> r.value == xrp.EncodeChecked(VersionBytes(SeedVersion(seedType)) + entropy)
  {
    if |entropy| != 16 then Failure(EntropyLength)
    else if seedType != ED25519 && seedType != SECP256K1 then Failure(SeedType)
    else xrp.Encode(entropy, EncodeOptions(SeedVersion(seedType), Some(16)))
  }

  /** JavaScript truthiness of `opts.versions`: absent and the number 0 are falsy,
      any array is truthy. */
  predicate VersionsTruthy(versions: Option<Versions>) {
    match versions
    case None => false
    case Some(One(b)) => b != 0
    case Some(Many(_)) => true
  }

  /** The defaults `decodeSeed` fills in: both seed candidates and their labels
      unless the caller gave both, and the expected length 16 unless truthy. */
  function SeedDefaults(opts: DecodeOptions): (r: DecodeOptions)
    ensures VersionsTruthy(r.versions) && r.versionTypes.Some? && Truthy(r.expectedLength)
    ensures VersionsTruthy(opts.versions) && opts.versionTypes.Some? ==>
      r.versions == opts.versions && r.versionTypes == opts.versionTypes
    ensures !(VersionsTruthy(opts.versions) && opts.versionTypes.Some?) ==>
      r.versions == Some(SEED_VERSIONS) && r.versionTypes == Some(SEED_TYPES)
    ensures r.expectedLength == if Truthy(opts.expectedLength) then opts.expectedLength else Some(16)
    ensures VersionsTruthy(opts.versions) && opts.versionTypes.Some? && Truthy(opts.expectedLength) ==> r == opts
  {
    var withVersions :=
      if opts.versionTypes.None? || !VersionsTruthy(opts.versions) then
        opts.(versionTypes := Some(SEED_TYPES), versions := Some(SEED_VERSIONS))
      else opts;
    if Truthy(withVersions.expectedLength) then withVersions
    else withVersions.(expectedLength := Some(16))
  }

  function DecodeSeed(xrp: Codec, seed: string, opts: DecodeOptions): (r: Result<Decoded, Error>)
    ensures r.Success? ==> |r.value.bytes| == SeedDefaults(opts).expectedLength.value
    ensures r.Success? ==> xrp.DecodeChecked(seed) == Success(r.value.version + r.value.bytes)
  {
    xrp.Decode(seed, SeedDefaults(opts))
  }

  function EncodeAccountID(xrp: Codec, bytes: seq<byte>): (r: Result<string, Error>)
    ensures r.Success? <==> |bytes| == 20
    ensures r.Failure? ==> r.error == UnexpectedPayloadLength
    ensures r.Success? ==> r.value == xrp.EncodeChecked([ACCOUNT_ID] + bytes)
  {
    xrp.Encode(bytes, EncodeOptions(Bytes([ACCOUNT_ID]), Some(20)))
  }

  function DecodeAccountID(xrp: Codec, accountId: string): (r: Result<seq<byte>, Error>)
    ensures r.Success? ==> |r.value| == 20 && xrp.DecodeChecked(accountId) == Success([ACCOUNT_ID] + r.value)
  {
    match xrp.Decode(accountId, DecodeOptions(Some(Many([Byte(ACCOUNT_ID)])), None, Some(20)))
    case Success(ret) => Success(ret.bytes)
    case Failure(e) => Failure(e)
  }

  function EncodeNodePublic(xrp: Codec, bytes: seq<byte>): (r: Result<string, Error>)
    ensures r.Success? <==> |bytes| == 33
    ensures r.Failure? ==> r.error == UnexpectedPayloadLength
    ensures r.Success? ==> r.value == xrp.EncodeChecked([NODE_PUBLIC] + bytes)
  {
    xrp.Encode(bytes, EncodeOptions(Bytes([NODE_PUBLIC]), Some(33)))
  }

  function DecodeNodePublic(xrp: Codec, s: string): (r: Result<seq<byte>, Error>)
    ensures r.Success? ==> |r.value| == 33 && xrp.DecodeChecked(s) == Success([NODE_PUBLIC] + r.value)
  {
    match xrp.Decode(s, DecodeOptions(Some(Many([Byte(NODE_PUBLIC)])), None, Some(33)))
    case Success(ret) => Success(ret.bytes)
    case Failure(e) => Failure(e)
  }

  /** An address is valid when decoding it as an account ID throws nothing. */
  predicate IsValidAddress(xrp: Codec, address: string) {
    DecodeAccountID(xrp, address).Success?
  }

  /** A seed encoded with either type decodes, with the default options, to the same
      entropy, the tag of that type and its label. */
  lemma SeedRoundTrip(xrp: Codec, entropy: seq<byte>, seedType: string)
    requires RoundTrips(xrp.codec) && DigestsAtLeast4(xrp.sha256)
    requires |entropy| == 16 && (seedType == ED25519 || seedType == SECP256K1)
    ensures EncodeSeed(xrp, entropy, seedType).Success?
    ensures DecodeSeed(xrp, EncodeSeed(xrp, entropy, seedType).value, NO_OPTIONS)
         == Success(Decoded(VersionBytes(SeedVersion(seedType)), entropy, Some(seedType)))
  {
    var opts := SeedDefaults(NO_OPTIONS);
    var versions := Candidates(opts.versions);
    var v := SeedVersion(seedType);
    if seedType == ED25519 {
      assert VersionBytes(versions[1]) != VersionBytes(v);
      assert LastMatch(versions, VersionBytes(v)) == Some(0);
    } else {
      assert LastMatch(versions, VersionBytes(v)) == Some(1);
    }
    VersionedRoundTrip(xrp, entropy, v, Some(16), opts);
  }

  /** With the default options a decoded seed is 16 bytes, under one of the two seed
      tags, labelled with that tag's type. */
  lemma DefaultSeedDecode(xrp: Codec, seed: string)
    ensures DecodeSeed(xrp, seed, NO_OPTIONS).Success? ==>
      var d := DecodeSeed(xrp, seed, NO_OPTIONS).value;
      && |d.bytes| == 16
      && ((d.version == ED25519_SEED && d.versionType == Some(ED25519))
       || (d.version == [FAMILY_SEED] && d.versionType == Some(SECP256K1)))
  {
    var r := DecodeSeed(xrp, seed, NO_OPTIONS);
    if r.Success? {
      var versions := Candidates(SeedDefaults(NO_OPTIONS).versions);
      var i := LastMatch(versions, r.value.version).value;
      assert i == 0 || i == 1;
    }
  }

  lemma AccountIDRoundTrip(xrp: Codec, bytes: seq<byte>)
    requires RoundTrips(xrp.codec) && DigestsAtLeast4(xrp.sha256)
    requires |bytes| == 20
    ensures EncodeAccountID(xrp, bytes).Success?
    ensures DecodeAccountID(xrp, EncodeAccountID(xrp, bytes).value) == Success(bytes)
  {
    var opts := DecodeOptions(Some(Many([Byte(ACCOUNT_ID)])), None, Some(20));
    assert LastMatch(Candidates(opts.versions), [ACCOUNT_ID]) == Some(0);
    VersionedRoundTrip(xrp, bytes, Bytes([ACCOUNT_ID]), Some(20), opts);
  }

  lemma NodePublicRoundTrip(xrp: Codec, bytes: seq<byte>)
    requires RoundTrips(xrp.codec) && DigestsAtLeast4(xrp.sha256)
    requires |bytes| == 33
    ensures EncodeNodePublic(xrp, bytes).Success?
    ensures DecodeNodePublic(xrp, EncodeNodePublic(xrp, bytes).value) == Success(bytes)
  {
    var opts := DecodeOptions(Some(Many([Byte(NODE_PUBLIC)])), None, Some(33));
    assert LastMatch(Candidates(opts.versions), [NODE_PUBLIC]) == Some(0);
    VersionedRoundTrip(xrp, bytes, Bytes([NODE_PUBLIC]), Some(33), opts);
  }

  /** Every encoded account ID is a valid address. */
  lemma EncodedAddressIsValid(xrp: Codec, bytes: seq<byte>)
    requires RoundTrips(xrp.codec) && DigestsAtLeast4(xrp.sha256)
    requires |bytes| == 20
    ensures IsValidAddress(xrp, EncodeAccountID(xrp, bytes).value)
  {
    AccountIDRoundTrip(xrp, bytes);
  }

  /** A string that decodes to at least 5 bytes whose trailing 4 bytes are not the
      checksum of the rest is not a valid address. */
  lemma CorruptedChecksumIsInvalid(xrp: Codec, address: string)
    requires xrp.codec.decode(address).Some?
    requires var raw := xrp.codec.decode(address).value;
      5 <= |raw| && raw[|raw| - 4..] != xrp.Checksum(raw[..|raw| - 4])
    ensures !IsValidAddress(xrp, address)
    ensures xrp.DecodeChecked(address) == Failure(ChecksumInvalid)
  {
  }
}
