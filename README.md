# solc metadata: a verified model

This project models the core of a small JavaScript library (`index.js`). The library reads the
metadata that the Solidity and Vyper compilers append to a contract's runtime bytecode. It works
in four steps:

1. It guesses the compiler from the first five bytes of the bytecode (`detectLanguage`).
2. It cuts the CBOR-encoded metadata blob out of the end of the hex string, using the two-byte
   length field in the trailer (`extractCBOR`).
3. It decodes that blob with a minimal CBOR reader into a key/value map (`decodeCBOR`).
4. From the map's `ipfs` multihash and `solc` version bytes it builds the dotted compiler
   version and the two IPFS identifiers of the metadata file (`calculateCID`). These are a
   CIDv0, which is base58btc (`solcMultihashToCIDv0`), and a CIDv1, which is base32 with the
   header `0x01 0x70` (`solcMultihashToCIDv1`).

The modules follow those steps:

- `Wrappers`: Option and Result.
- `Bytes`: bytes, big-endian values and powers.
- `Alphabets`: character runs, and spelling digits in an alphabet and reading them back, shared by both encoders.
- `Hex`: hex digits as `parseInt(_, 16)` reads them, plus lowercase hex.
- `Language`: `detectLanguage`.
- `Trailer`: `extractCBOR`.
- `Cbor`: `decodeCBOR`.
- `Base58`: `solcMultihashToCIDv0`.
- `Base32`: `solcMultihashToCIDv1`.
- `Cid`: `calculateCID`.

`detectLanguage`, `extractCBOR` and `calculateCID` are expressions over strings, so they are
functions here. The other three functions are loops that update state. Each of them is a method
with loop invariants, proved equal to a specification function:

- `Cbor.DecodeCbor` walks a read cursor and updates the output map. Its specification is
  `Cbor.Decode`.
- `Base58.MultihashToCidV0` runs the carry loop over a 46-digit `array`. Its specification is
  `Base58.CidV0`.
- `Base32.MultihashToCidV1` runs the bit-buffer loop. Its specification is `Base32.CidV1`.

Each specification function is then tied to an independent reading by a round-trip lemma:

- the CBOR encoder that the compilers use;
- base-58 and RFC 4648 base32 decoding;
- decimal parsing of the version string.

Where the library's documentation and its code differ, the model follows the code:

- An over-long Solidity length does not fail. `substring` clamps the start to 0, so the blob
  is everything before the trailer (`Trailer.ExtractSolidityOverlong`).
- A Vyper length of 0 or 1 makes `substring` swap its indices, so the blob is cut out of the
  trailer itself (`Trailer.ExtractVyperTooShort`).
- `decodeCBOR` never fails. A leader outside its jump table becomes one `undefined` structure
  of one byte (`Cbor.DecodeUnsupported`).
- The base58 encoder writes no `'1'` for leading zero bytes, unlike standard base58
  (`Base58.CidV0LeadingZeros`). A value that needs more than 46 digits keeps only its last 46
  (`Base58.Digits`).
- `calculateCID` has no error of its own. An entry that is absent, `null` or `undefined` makes
  the property access throw a TypeError. The model returns `MissingField` for that case, and
  reports `solc` first because the version is formatted before either CID is computed.
- A text `solc` entry, as prerelease compilers write it, is no error: the version is its first
  three characters with dots between them, so "0.8.4-nightly" gives "0...8"
  (`Cid.CalculateCidTextSolc`).

## Model

| member | source | states |
|---|---|---|
| Language.Prefix10 | index.js:34 | `substring(0, 10)` keeps the first ten characters, or the whole string when it is shorter |
| Language.RemoveFirst0xAt | index.js:34 | `replace('0x', '')` removes exactly the first occurrence of "0x", wherever it is |
| Language.RemoveFirst0xAbsent | index.js:34 | a string without "0x" is left unchanged |
| Language.DetectLanguageTable | index.js:33-46 | Solidity iff the stripped prefix is 6060604052 or 6080604052; Vyper iff it is 6004361015 or 341561000a; Unknown iff it is none of the four |
| Language.DetectLanguageFirstTen | index.js:34-45 | the result depends only on the first ten characters after the strip |
| Language.DetectLanguageShort | index.js:34-45 | fewer than ten characters after the strip always give Unknown |
| Language.DetectLanguageSigned | index.js:33-46 | "0x" + signature + anything is classified by that signature |
| Language.DetectLanguageCaseSensitive | index.js:40-45 | the comparison is case-sensitive: 341561000A is Unknown |
| Hex.HexValue | index.js:57 | the value `parseInt(s, 16)` reads is below 16^len |
| Hex.PairsToBytes | index.js:64 | `match(/.{2}/g)` gives one byte per pair, and an odd last character is dropped |
| Hex.PairsToBytesAt | index.js:64 | byte i is the value of the hex pair at 2i and 2i+1 |
| Hex.PairsToBytesToHex | index.js:64 | reading lowercase hex back gives the bytes again |
| Hex.ToHexPairsToBytes | index.js:64 | re-encoding the bytes read from even-length lowercase hex gives the string again |
| Trailer.Trailer | index.js:57 | `slice(-4)` is the last four characters, or all of a shorter string |
| Trailer.ExtractCbor | index.js:55-67 | `lang` defaults to Solidity; the error occurs exactly when the slice has fewer than two characters (`match` gives null); otherwise there is one byte per pair |
| Trailer.ExtractSolidity | index.js:57-64 | a Solidity length that fits selects exactly cborLen bytes just before the trailer |
| Trailer.ExtractVyper | index.js:57-64 | a Vyper length of at least 3 that fits selects cborLen - 2 bytes, because the trailer is counted |
| Trailer.ExtractSolidityRoundTrip | index.js:57-64 | for lowercase hex, the blob re-encoded and followed by the trailer is the bytecode's suffix |
| Trailer.ExtractSolidityOverlong | index.js:61 | an over-long Solidity length clamps to everything before the trailer |
| Trailer.ExtractVyperTooShort | index.js:61 | a Vyper length of 0 or 1 swaps the substring indices into the trailer |
| Trailer.ExtractSolidityZeroLength | index.js:61-64 | a zero Solidity length gives the malformed-bytecode error |
| Trailer.LengthFieldValue | index.js:57 | four lowercase hex digits of a two-byte length read back as that length |
| Trailer.ExtractSolidityLayout | index.js:55-67 | code + hex(blob) + hex(len) extracts the blob (Solidity layout) |
| Trailer.ExtractVyperLayout | index.js:55-67 | code + hex(blob) + hex(len + 2) extracts the blob (Vyper layout) |
| Cbor.Take | index.js:91 | `slice(0, len)` takes min(len, remaining) bytes from the front |
| Cbor.ReadItem | index.js:84-106 | every structure consumes at least one byte and no more than remain |
| Cbor.ReadItemShape | index.js:86-106 | a leader outside the table is one undefined byte; inside it, the payload follows the header and is the declared length cut to what remains; 0x60-0x77 gives text |
| Cbor.ReadStructure | index.js:84-106 | one pass of the jump table from the cursor reads the same structure and length as `ReadItem` |
| Cbor.DecodeCbor | index.js:74-124 | the loop's output map is `Decode(cbor)`, the alternating key/value assignment of the structures after the header |
| Cbor.DecodeStep | index.js:108-115 | a key writes the null placeholder and a value is written to the last key, and the loop invariant is kept |
| Cbor.KeyPlaceholder | index.js:108-114 | the null placeholder is overwritten once the key's value arrives |
| Cbor.AssignKeys | index.js:108-115 | the keys of the result are exactly the structures in key position |
| Cbor.AssignLastWrite | index.js:108-115 | a repeated key keeps the value after its last occurrence, or null when that key is the last structure |
| Cbor.AssignUntouched | index.js:108-115 | a structure never in key position keeps its earlier value |
| Cbor.DecodeKeys | index.js:78-123 | the decoded keys are the key-position structures after the header byte |
| Cbor.DecodeValue | index.js:78-123 | a decoded value is what followed the key's last occurrence, or null |
| Cbor.DecodeEmpty | index.js:78-83 | nothing after the header byte gives the empty object |
| Cbor.ItemsCount | index.js:83-106 | there are never more structures than bytes |
| Cbor.DecodeUnsupported | index.js:86-115 | an unsupported leader is not an error: it is an undefined key mapped to null |
| Cbor.ReadEncoded | index.js:89-106 | the shortest RFC 8949 encoding of a byte or text string reads back as that structure and consumes exactly its encoding |
| Cbor.ItemsOfEncoding | index.js:83-106 | a run of encoded structures reads back in order |
| Cbor.DecodeSolcMetadata | index.js:74-124 | the compiler's two-entry map decodes to exactly ipfs -> multihash and solc -> version |
| Alphabets.ReadSpell | index.js:154 | for an alphabet whose characters each read back as their own position, reading the spelled digits back gives the digits |
| Base58.Canonical | index.js:143-148 | digits below 58, without a leading zero, whose base-58 value is v |
| Base58.Digits | index.js:136-148 | at most 46 digits below 58 |
| Base58.CarryByte | index.js:143-147 | the inner loop multiplies the written digits by 256 and adds the byte; it stops with no carry after `length` digits, or at the first digit |
| Base58.AbsorbByte | index.js:140-149 | after each byte the buffer holds the value of the bytes so far modulo 58^46, and its last `length` digits are the canonical ones while nothing overflowed |
| Base58.MultihashToCidV0 | index.js:131-155 | the encoder's string is `CidV0(bytes)`: the alphabet spelling of the canonical base-58 digits, or of 46 digits modulo 58^46 |
| Base58.FinalCid | index.js:153-154 | spelling only the written digits of the buffer gives that string |
| Base58.AlphabetPositions | index.js:153 | the 58 alphabet characters are distinct: each reads back as its own position |
| Base58.AlphabetText | index.js:153 | the alphabet is 123456789ABCDEFGHJKLMNPQRSTUVWXYZabcdefghijkmnopqrstuvwxyz |
| Base58.CidV0Value | index.js:131-155 | the CIDv0 reads back as the input's big-endian value modulo 58^46 |
| Base58.CidV0RoundTrip | index.js:131-155 | while the value fits in 46 digits, decoding the CIDv0 gives the input bytes back |
| Base58.CidV0LeadingZeros | index.js:140-148 | leading zero bytes add no characters |
| Base58.CidV0Multihash | index.js:129-137 | a sha2-256 multihash gives a CIDv0 of 46 characters starting with 'Q' |
| Base58.MultihashValue | index.js:129-137 | such a multihash lies between 23 * 58^45 and 24 * 58^45 |
| Base32.Groups | index.js:186-193 | (len + 4) / 5 groups of bits |
| Base32.GroupsAreDigits | index.js:188-192 | every group is a digit below 32 |
| Base32.MultihashToCidV1 | index.js:163-196 | the encoder's string is `CidV1(bytes)`: "b" and the RFC 4648 lowercase base32 spelling, without padding, of [0x01, 0x70] + bytes, with the last group left-justified and zero-filled |
| Base32.EmitBytes | index.js:183-190 | after the outer loop, the digits written and at most 5 waiting bits are exactly the input's bits |
| Base32.EmitDigits | index.js:186-189 | the inner loop writes digits while more than 5 bits wait, and the written and waiting bits together stay the same |
| Base32.AbsorbStep | index.js:184-185 | `buffer << 8`, or-ed with the byte, puts the byte's eight bits after the waiting ones |
| Base32.EmitStep | index.js:187-188 | `mask & buffer >> bits` is the digit made of the five oldest waiting bits |
| Base32.LastGroup | index.js:191-192 | `buffer << 5 - bits` is below 32 |
| Base32.FinalGroups | index.js:191-193 | the last partial group, left-justified, completes the grouping of the input's bits |
| Base32.AlphabetPositions | index.js:177 | the 32 alphabet characters are distinct: each reads back as its own position |
| Base32.CidV1Digits | index.js:188 | the characters after the 'b' read back as the five-bit groups of the header and the multihash |
| Base32.FromBitsBits | index.js:184 | regrouping the bits eight at a time gives the bytes again |
| Base32.DigitBitsGroups | index.js:186-193 | the input bits are a prefix of the bits the digits stand for, so the zero fill adds nothing in front |
| Base32.CidV1RoundTrip | index.js:163-196 | decoding the CIDv1 string ('b', base32, header 0x01 0x70) gives the multihash back |
| Base32.CidV1Length | index.js:183-195 | the CIDv1 has 1 + ceil(8(n+2)/5) characters |
| Base32.CidV1Multihash | index.js:161-174 | a sha2-256 multihash gives 59 characters starting with "bafybei" |
| Cid.Present | index.js:204-206 | the entry is usable iff the key maps to a value that is not `null` or `undefined`; otherwise the error is MissingField for that key |
| Cid.Field | index.js:204-208 | the ipfs entry is a byte string iff the key maps to one; otherwise the error names the key, and says NotByteString exactly for text |
| Cid.Decimal | index.js:206 | at least one decimal digit, and no leading zero except for 0 |
| Cid.CalculateCid | index.js:203-211 | succeeds iff solc is present (bytes or text) and ipfs is a byte string; a missing solc is reported before a bad ipfs; on success the result is the printed version, `Base58.CidV0(ipfs)` and `Base32.CidV1(ipfs)` |
| Cid.CalculateCidReadsTwoKeys | index.js:204 | maps that agree on ipfs and solc give the same result, so all other keys are ignored |
| Cid.CalculateCidDecodes | index.js:207-208 | both CIDs come from the same ipfs bytes: the CIDv1 always decodes back to them, and the CIDv0 does while they fit in 46 base-58 digits |
| Cid.DottedRoundTrip | index.js:206 | any three decimal numerals joined by dots parse back to their three numbers |
| Cid.VersionRoundTrip | index.js:206 | the version string of three bytes parses back to those three numbers |
| Cid.VersionInjective | index.js:206 | different version triples print differently |
| Cid.VersionShort | index.js:206 | missing version components print "undefined" |
| Cid.VersionExample | index.js:206 | bytes 0, 8, 4 print as "0.8.4" |
| Cid.VersionText | index.js:206 | a text version of three or more characters prints as its first three characters with a dot between each |
| Cid.CalculateCidTextSolc | index.js:203-211 | a text solc "0.8.4" with a byte-string ipfs succeeds with version "0...8" and both CIDs of ipfs |
| Cid.CalculateCidScenario | index.js:203-211 | the compiler's map with a sha2-256 multihash gives the version "a.b.c", a 46-character CIDv0 starting with 'Q' and a 59-character CIDv1 starting with "bafybei" |

## Left out

- `fetchBytecode` and `fetchCID` are `fetch` calls over the network with no logic of their own.
- index.d.ts is type declarations only.
- Trailer.CborLength: `parseInt` returning NaN, or reading only a hex prefix, on non-hex characters is not modelled. `extractCBOR` requires the trailer and the paired slice to be hex digits (`Trailer.Readable`).
- Cbor.Item: text payloads are kept as their raw UTF-8 bytes. `TextDecoder` is a foreign call.
- Cbor.Metadata: JavaScript turns object keys into strings, so a byte string and a text string with the same spelling would share a key. The model keys the map by the decoded structure.
- Cbor.DecodeCbor: the first `shift()` calls change the caller's array before `slice` makes a local copy. The model reads the input without changing it. `structuredClone` is only a copy.
- Base32.MultihashToCidV1: the 32-bit `buffer` is kept as its waiting bits only. The bits already written, and the 32-bit truncation of `<<`, are never read by the mask.
- Base58.MultihashToCidV0: `>>> 0` applied to `undefined` digits gives 0, so unwritten digits start as 0. The `carry` values stay far below 2^32, so the coercion does nothing else.
- Cid.CalculateCid: a text `ipfs` entry does not make the source throw. The encoders then run over the characters, and JavaScript's coercions (string concatenation, then `NaN` turned into 0 by `>>> 0`, `<<` and `|`) give strings that are not CIDs. The model returns `NotByteString` instead. A `null` or missing metadata object is not modelled.
- Cid.Component: a text `solc` character is printed as the character whose code is the payload byte. This is what the source prints for ASCII text. For non-ASCII text the source prints UTF-16 code units of the UTF-8 decoding, which is not modelled (see Cbor.Item).
- Cid.CalculateCid: the CIDs are stated with the specification functions `Base58.CidV0` and `Base32.CidV1`. The encoder methods are proved to compute exactly those functions.
