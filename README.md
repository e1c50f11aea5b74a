# ripple-address-codec: versioned Base58Check framing

A Dafny model of the versioned Base58Check codec in
`dist/ripple-address-codec/index.js`. It covers the generic `Codec` class and the
XRP Ledger wrappers built on one shared instance of it.

The `Codec` class does four things:

- On encode it checks the payload against an optional expected length. It prefixes the version bytes and appends the first 4 bytes of `sha256(sha256(buffer))`. Then it hands the result to the alphabet codec.
- On decode it undoes the alphabet encoding and requires at least 5 bytes. It verifies and strips the checksum. It splits the rest into version bytes and payload with JavaScript `slice` and a possibly negative count. It compares every candidate version and lets the last match win. It attaches the aligned type label and re-checks the payload length.
- `encodeSeed`/`decodeSeed`, `encodeAccountID`/`decodeAccountID` and `encodeNodePublic`/`decodeNodePublic` call it with fixed version constants: account 0 with 20 bytes, node public key 28 with 33 bytes, family seed `0x21` with 16 bytes, ed25519 seed `[0x01, 0xE1, 0x4B]` with 16 bytes.
- `decodeSeed` fills in defaults before decoding.

Files:

- `wrappers.dfy`: `Option` and `Result`.
- `js.dfy`: bytes, JavaScript truthiness of an optional count, and the index rules of `Array.prototype.slice`.
- `codec.dfy`: module `AddressCodec`, holding the `Codec` class, the last-match search, the loop that performs it, and the framing lemmas.
- `xrp.dfy`: module `XrpCodec`, holding the constants, the typed wrappers and their round trips.

How the model represents the source:

- **The class.** `Codec` is a class whose configuration sits in `const` fields, set by its constructor as in lines 9-14. Its operations only read that configuration, so they are functions.
- **Exceptions.** Each is a `Failure` of `Result`, with one `Error` constructor per message tag.
- **The two external packages.** The SHA-256 function and the base-x factory are parameters. `base-x` is `baseX: string -> AlphabetCodec`. Its decoder returns `None` for a string with a character outside the alphabet, which the package reports by throwing.
- **What is relied on.** The round-trip lemmas rely on two facts, each stated as a predicate they require: `RoundTrips` (decoding undoes encoding) and `DigestsAtLeast4` (every digest has at least 4 bytes).
- **The decode loop.** `decode` is the pure function `Codec.Decode`, which uses `LastMatch`. The `for` loop of lines 61-72, with its `foundVersion` flag and field updates, is the method `ScanVersions`. Its postcondition proves that the loop computes `LastMatch` and the same result fields.
- **Falsy options.** An `expectedLength` of `0` is falsy, like an absent one. `Truthy` says so.
- **Truthiness of `opts.versions`.** `decodeSeed`'s `!opts.versions` test treats the number `0` as falsy and every array as truthy. `VersionsTruthy` models this.
- **A missing first candidate.** An absent `opts.versions` or an empty array leaves no first candidate. Line 57 then throws a `TypeError`, which is the `MissingVersion` error.
- **The shared instance.** The module-level codec at line 118 is the `xrp` parameter of every wrapper. `NewXrpCodec` builds it.

Two details of the code matter to callers:

- `encode` prefixes the whole `versions` value rather than its first element (line 29). `encodeSeed` relies on this when it passes the 3-byte ed25519 tag (line 131).
- The candidate scan has no `break`, so the **last** matching candidate decides (lines 62-72).

Edge behaviour that follows from the code and that the model reproduces:

- Without an expected length, the payload length is the buffer length minus the first candidate's length. An empty payload makes it `0`, and `slice(0, -0)` is empty. So a one-byte-version encoding of an empty payload fails to decode with `version_invalid` (`EmptyPayloadRejected`).
- A truthy expected length longer than the buffer makes `slice(0, -n)` empty. So `unexpected_payload_length` on decode happens only in that case, and only when the empty version is a candidate (`DecodeLengthMismatch`).

## Model

| member | source | states |
|---|---|---|
| `AddressCodec.Codec.constructor` | dist/ripple-address-codec/index.js:9-14 | the codec keeps the hash and the alphabet, builds the alphabet codec from the alphabet, and its base is the alphabet's size |
| `AddressCodec.Codec.Checksum` | dist/ripple-address-codec/index.js:32 | the checksum is a prefix of the double digest, at most 4 bytes, and exactly 4 when digests are long enough |
| `AddressCodec.Codec.Frame` | dist/ripple-address-codec/index.js:31-33 | the checked buffer is the input followed by its checksum, and, when every digest has at least 4 bytes, exactly 4 bytes longer than the input |
| `AddressCodec.Codec.EncodeVersioned` | dist/ripple-address-codec/index.js:25-30 | fails with unexpected_payload_length, and encodes nothing, exactly when a truthy expected length differs from the payload length; otherwise the result is the checked encoding of the whole version value followed by the payload |
| `AddressCodec.Codec.Encode` | dist/ripple-address-codec/index.js:21-24 | the same outcome as `EncodeVersioned`, with the versions and expected length read from the options |
| `AddressCodec.VersionBytes` | dist/ripple-address-codec/index.js:57-63 | definition: a number becomes a one-byte sequence and an array of numbers is used as it is; this is the normalisation of line 63, the length guess of line 57 and the number-to-`[n]` case of `concatArgs` at line 29 |
| `Js.SliceIndex` | dist/ripple-address-codec/index.js:59-60 | definition: the position `slice` uses, a negative argument counting back from the end and stopping at 0, a non-negative one stopping at the length; its one promise is that the position lies within the sequence. `SliceTo` and `SliceFrom` are `slice(0, end)` and `slice(start)` on it, used at lines 32, 59-60, 92 and 98-99 |
| `Js.SliceSplit` | dist/ripple-address-codec/index.js:59-60 | `slice(0, e)` followed by `slice(e)` is the whole sequence for every `e`; a non-negative `e` keeps at most `e` elements in front and a negative one at most `-e` behind |
| `AddressCodec.Codec.EncodeRaw` | dist/ripple-address-codec/index.js:35-37 | the string the alphabet codec produces, which under the round-trip assumption decodes back to the given bytes |
| `AddressCodec.Codec.EncodeChecked` | dist/ripple-address-codec/index.js:31-34 | the alphabet encoding of `Frame(buffer)`: under the round-trip assumption it decodes to the buffer followed by its checksum, and, when every digest has at least 4 bytes, is 4 bytes longer than the buffer |
| `AddressCodec.Codec.DecodeRaw` | dist/ripple-address-codec/index.js:94-96 | the alphabet codec's decoding; under the round-trip assumption, any bytes that encode to the string are exactly what it returns |
| `AddressCodec.Candidates` | dist/ripple-address-codec/index.js:45 | definition: a non-array version is wrapped in a one-element candidate list and an array is used as it is; an absent value gives no first candidate, as `[undefined]` does at line 57 |
| `AddressCodec.TypeAt` | dist/ripple-address-codec/index.js:67-69 | definition: the label at index `i` when labels were given and the array reaches `i`, and none otherwise, as an out-of-range `types[i]` is `undefined` |
| `Js.Truthy` | dist/ripple-address-codec/index.js:26 | definition: an optional count is truthy when it is present and not 0; this is the test of lines 26, 54, 58, 76 and 142 |
| `AddressCodec.Codec.VerifyCheckSum` | dist/ripple-address-codec/index.js:97-101 | true exactly when the last 4 bytes equal the checksum of everything before them, including the sub-4-byte case where the whole input is compared with the checksum of the empty buffer |
| `AddressCodec.Codec.DecodeChecked` | dist/ripple-address-codec/index.js:84-96 | fails on a foreign character, then with invalid_input_size below 5 bytes, then with checksum_invalid unless the last 4 bytes are the checksum of the rest; on success it returns the buffer without its last 4 bytes |
| `AddressCodec.DecodeCheckedIsFrame` | dist/ripple-address-codec/index.js:84-101 | a string is accepted with result `b` if and only if it decodes to the frame of `b`, `b` is non-empty and the checksum has all 4 bytes |
| `AddressCodec.ChecksumRoundTrip` | dist/ripple-address-codec/index.js:31-101 | for every non-empty buffer, the checked decode of its checked encoding gives it back |
| `Js.SliceNegative` | dist/ripple-address-codec/index.js:59-60 | for a positive count k, `slice(0, -k)` is everything but the last k elements and `slice(-k)` is those k elements, saturating when k exceeds the length; the two always concatenate to the input |
| `AddressCodec.Split` | dist/ripple-address-codec/index.js:57-60 | version bytes followed by payload give back the checksum-free buffer; with a truthy expected length the payload is that long, capped by the buffer; otherwise the version part is as long as the first candidate when the buffer is longer, and, for a non-empty buffer that is not longer, shorter than it |
| `AddressCodec.LastMatch` | dist/ripple-address-codec/index.js:61-72 | returns the index of a candidate byte-equal to the version bytes with no later candidate equal to them, and returns none exactly when no candidate is equal |
| `AddressCodec.ScanVersions` | dist/ripple-address-codec/index.js:61-72 | the loop sets its found flag exactly when `LastMatch` finds a candidate, and then leaves that candidate's bytes, the payload and that index's type label in the result; otherwise the result keeps its initial empty fields |
| `AddressCodec.Codec.Decode` | dist/ripple-address-codec/index.js:44-80 | checked-decode errors come first, then the missing-expected-length error for several candidates, then the missing first candidate; the result is version_invalid exactly when no candidate equals the split-off version bytes; it succeeds exactly when the checksum passes, the split is determined, some candidate equals the version bytes and a truthy expected length is the payload's length; on success the version followed by the payload is the checksum-free buffer, the version has a last match whose label is the type, and a truthy expected length is the payload's length |
| `AddressCodec.DecodeLengthMismatch` | dist/ripple-address-codec/index.js:57-79 | decode fails with unexpected_payload_length exactly when the checksum passes, there is a candidate, the expected length is truthy and exceeds the checksum-free buffer, and the empty version is a candidate |
| `AddressCodec.VersionedRoundTrip` | dist/ripple-address-codec/index.js:21-101 | a non-empty payload encoded under a version decodes back to that payload and version, labelled by the last equal candidate, when the expected length is the payload's or there is a single candidate and no expected length |
| `AddressCodec.EmptyPayloadRejected` | dist/ripple-address-codec/index.js:57-75 | with a single non-empty candidate and no expected length, the encoding of an empty payload decodes to version_invalid |
| `XrpCodec.NewXrpCodec` | dist/ripple-address-codec/index.js:112-118 | the shared codec uses the given hash and the XRP alphabet, so its base is 58 |
| `XrpCodec.SeedVersion` | dist/ripple-address-codec/index.js:131 | the ed25519 prefix and the secp256k1 prefix differ (only ed25519 avoids the family-seed byte), and the default seed candidates of `decodeSeed` find the prefix at index 0 for ed25519 and at index 1 for every other type, which is what lets decoding tell the two types apart |
| `XrpCodec.VersionsTruthy` | dist/ripple-address-codec/index.js:138 | definition: `opts.versions` is truthy when it is present and is not the number 0; every array is truthy |
| `XrpCodec.EncodeSeed` | dist/ripple-address-codec/index.js:121-135 | entropy that is not 16 bytes fails first, then a type other than ed25519 or secp256k1; it succeeds exactly otherwise, with the checked encoding under the 3-byte ed25519 tag or the family-seed byte |
| `XrpCodec.SeedDefaults` | dist/ripple-address-codec/index.js:138-144 | afterwards the versions, labels and expected length are all truthy; the caller's versions and labels are kept only when both are truthy, and otherwise both seed tags and their labels replace them; a truthy expected length is kept, and otherwise it becomes 16; options that are already complete are left as they are |
| `XrpCodec.DecodeSeed` | dist/ripple-address-codec/index.js:137-146 | a decoded seed has the defaulted expected length, and its version followed by its bytes is the checksum-free buffer |
| `XrpCodec.DefaultSeedDecode` | dist/ripple-address-codec/index.js:137-146 | with no options, a decoded seed has 16 bytes and is either the ed25519 tag labelled ed25519 or the family-seed byte labelled secp256k1 |
| `XrpCodec.SeedRoundTrip` | dist/ripple-address-codec/index.js:121-146 | 16 bytes of entropy encoded with either type decode, with no options, to the same entropy, that type's tag and that type's label |
| `XrpCodec.EncodeAccountID` | dist/ripple-address-codec/index.js:148-151 | succeeds exactly for 20 bytes, failing with unexpected_payload_length otherwise, and encodes them under version 0 |
| `XrpCodec.DecodeAccountID` | dist/ripple-address-codec/index.js:153-156 | on success returns 20 bytes that, after version byte 0, are the checksum-free buffer |
| `XrpCodec.AccountIDRoundTrip` | dist/ripple-address-codec/index.js:148-156 | every 20-byte account ID survives encoding and decoding |
| `XrpCodec.EncodeNodePublic` | dist/ripple-address-codec/index.js:163-166 | succeeds exactly for 33 bytes, failing with unexpected_payload_length otherwise, and encodes them under version 28 |
| `XrpCodec.DecodeNodePublic` | dist/ripple-address-codec/index.js:158-161 | on success returns 33 bytes that, after version byte 28, are the checksum-free buffer |
| `XrpCodec.NodePublicRoundTrip` | dist/ripple-address-codec/index.js:158-166 | every 33-byte node public key survives encoding and decoding |
| `XrpCodec.EncodedAddressIsValid` | dist/ripple-address-codec/index.js:169-177 | every encoded 20-byte account ID is a valid address |
| `XrpCodec.CorruptedChecksumIsInvalid` | dist/ripple-address-codec/index.js:169-177 | a string that decodes to at least 5 bytes whose last 4 are not the checksum of the rest fails with checksum_invalid and is not a valid address |

## Left out

- Base-58 digit arithmetic: it comes from the external `base-x` package (lines 6, 12, 35-37, 94-96). It is a parameter, and the round trip is assumed through `RoundTrips`. The alphabet string is configuration only.
- SHA-256: it comes from the external `create-hash` package (lines 106, 113-115). It is a parameter, and only `DigestsAtLeast4` is assumed of it.
- The helpers `seqEqual` and `concatArgs` from `./utils`: their code is not part of this model. They are taken to be sequence equality and one-level flatten-and-concatenate.
- `isValidAddress`: the predicate `IsValidAddress` models a call with `this` bound to the module's exports. A standalone call reads `decodeAccountID` from an undefined receiver, which throws inside the `try`, so it always returns false. The model does not capture that.
- The fallback at line 82: it is unreachable, because `versions` is always an array after line 45.
- `Buffer.from` conversions: elements outside 0..255 are not modelled, because bytes are a 0..255 type.
- Version values of other shapes: nested arrays passed to `encode`, and `Buffer` objects or other non-number values passed as `opts.versions` on decode, are not representable.
- `null` and `undefined` in `ret.type`: both become `None`. That covers a label array shorter than the candidate list.
- Aliasing: `decodeSeed` writes its defaults into the caller's `opts` object (lines 138-144). `SeedDefaults` returns new options instead.
- Checksum sensitivity: the property that a flipped bit is caught with overwhelming probability depends on SHA-256 and is not stated. `CorruptedChecksumIsInvalid` states the deterministic half.
