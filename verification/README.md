# MinecraftWool binary codec, modelled in Dafny

MinecraftWool turns a text or a file into a sequence of 4-bit "blocks", each
shown as one of the sixteen Minecraft wool colours, and turns such a sequence
back into the original payload. This project models the codec at the heart of
`utils/converter.ts` together with the symbol tables of `constants.ts` and the
data model of `types.ts`:

- **Checksum** (`Checksum`): Fletcher-16 with modulus 255 over the packet bytes.
- **Packet framer** (`Packet`): `createPacket` lays out
  `[metadata length: 2 bytes big-endian][metadata][payload][checksum: 2 bytes]`;
  the header half of `decodeData` checks, in order, minimum length, checksum,
  truncated metadata and metadata parse.
- **Nibble codec** (`Nibbles`): two symbols per byte, high nibble first; back to
  `floor(n / 2)` bytes, dropping an odd trailing symbol.
- **Symbol mapper** (`Types`, `Constants`, `Symbols`): the `WoolColor` enum, the
  three colour tables, and the reverse map from identifier to colour index.
- **Text form** (`TextForm`): `blocksToIdString` joins identifiers with newlines;
  the import trims, splits on runs of whitespace and commas, skips empty pieces
  and maps each token back, failing on the first unknown one.
- **Façade** (`Converter`): `encodeData`, `decodeData` and `idStringToBlocks`.

Bytes and blocks are integer subtypes (`byte`, `nibble`); the source's shifts
and masks are written as division, remainder and `high * 16 + low`, and
`Nibbles.ShiftMaskAgree` / `Nibbles.ShiftOrAgrees` show the spellings agree on
8-bit values. Every thrown `Error` is a `Failure` of the `CodecError` datatype.
Metadata serialisation (`JSON.stringify` plus UTF-8 encoding, and UTF-8 decoding
plus `JSON.parse`) is the pair of total functions in `Packet.MetaCodec`, given by
the caller; round trips require `parse(serialize(m)) == Some(m)` of the one
metadata value involved. The clock (`Date.now()`) is the `now` parameter of
`Converter.EncodeData`.

Two behaviours of the code are easy to miss. An empty `mimeType` also falls
back to `application/octet-stream`, because the source tests it with `||`; the
model does the same. The unknown-identifier test lets through the names every
JavaScript object inherits: `Symbols.GuardAcceptsAsWritten` models that test
as written, while the import (`Converter.IdStringToBlocks`) uses the corrected
lookup `Symbols.FromId` (see Findings).

## Model

| member | source | states |
|---|---|---|
| Types.ColorOf | types.ts:1-18 | every value 0..15 is the value of some `WoolColor` member |
| Types.ColorValuesAreBijective | types.ts:1-18 | the enum values are pairwise distinct and cover 0..15 exactly, so the enum has sixteen members, each a valid nibble |
| Constants.TablesCoverEveryColor | constants.ts:4-61 | `WOOL_COLORS`, `WOOL_NAMES` and `WOOL_IDS` each have an entry for every one of the sixteen colours; white is first and black last |
| Constants.IdsAreTokens | constants.ts:44-61 | no identifier is empty or contains whitespace or a comma |
| Constants.IdsAreDistinct | constants.ts:44-61 | the sixteen identifiers are pairwise distinct |
| Symbols.BuildReverseInverts | utils/converter.ts:5-8 | building the reverse map entry by entry from distinct identifiers sends each identifier to its own index and holds no other key |
| Symbols.ReverseMapInvertsIds | utils/converter.ts:5-8 | `ID_TO_COLOR_INDEX` is a true inverse of `WOOL_IDS`, in both directions |
| Symbols.FromId | utils/converter.ts:187-190 | an import token maps to a colour index exactly when it is one of the sixteen identifiers, and then to the index whose identifier it is |
| Symbols.FromIdInvertsIds | utils/converter.ts:5-8 | every colour index is recovered from its identifier |
| Symbols.GuardAcceptsAsWritten | utils/converter.ts:187 | the `=== undefined` test as written accepts exactly the identifiers and the inherited `Object.prototype` member names |
| Symbols.GuardAcceptsNonIdentifier | utils/converter.ts:187-190 | the token `constructor` is no identifier, yet passes that test |
| Checksum.Fletcher | utils/converter.ts:14-22 | the two accumulators as a left fold over the bytes in order; both results are at most 254 |
| Checksum.CalculateChecksum | utils/converter.ts:14-22 | the checksum loop returns exactly the fold's two check bytes |
| Checksum.FletcherClosedForm | utils/converter.ts:14-22 | the check bytes are the byte sum and the sum of all prefix sums, each modulo 255 |
| Checksum.SingleByteChangeAltersChecksum | utils/converter.ts:14-22 | changing one byte to a value of another residue modulo 255 changes the first check byte |
| Checksum.BitFlipAltersResidue | utils/converter.ts:14-22 | moving a byte by a power of two below 256, as a single-bit flip does (`Checksum.FlipMovesByPow2`), changes its residue modulo 255 |
| Checksum.FlipMovesByPow2 | utils/converter.ts:14-22 | on an 8-bit value, flipping bit `k` (`x ^ (1 << k)`) moves the value by exactly `2^k`, up or down |
| Packet.ReadU16BE | utils/converter.ts:138-139 | a big-endian 16-bit length read from the header never exceeds 65535 |
| Packet.U16BE | utils/converter.ts:93 | `setUint16(0, n, false)` writes two bytes that read back big-endian as `n` |
| Packet.U16RoundTrip | utils/converter.ts:93 | the header written for a metadata length reads back as that length |
| Packet.CreatePacket | utils/converter.ts:77-109 | fails with `MetadataTooLarge` exactly when the serialised metadata exceeds 65535 bytes; otherwise the output has length `|meta| + |payload| + 4`, the big-endian length, the metadata, the payload, and the checksum of everything before it |
| Packet.ParsePacket | utils/converter.ts:126-155 | each frame error occurs exactly under its condition, checked in the source's order: under 4 bytes, checksum mismatch in either byte, `|content| < 2 + metaLength`, unparsable metadata; no other error arises |
| Packet.ParseCreatePacket | utils/converter.ts:77-155 | parsing a built packet returns the metadata and exactly the payload when metadata serialisation round-trips |
| Packet.ParsedBufferIsFrame | utils/converter.ts:126-155 | every buffer the parser accepts is the frame of some metadata bytes that parse to the returned metadata, and of the returned payload |
| Packet.CorruptedByteIsDetected | utils/converter.ts:129-135 | changing any one byte of a checksum-valid buffer (other than swapping 0 and 255) makes parsing fail with a checksum mismatch |
| Packet.BitFlipIsDetected | utils/converter.ts:129-135 | flipping any single bit of a built packet makes parsing fail with a checksum mismatch |
| Nibbles.Pack | utils/converter.ts:60-68 | `2·|buf|` symbols; symbol `2i` is the high nibble of byte `i`, symbol `2i+1` its low nibble |
| Nibbles.Unpack | utils/converter.ts:116-124 | `floor(n/2)` bytes; byte `i` is `symbol[2i] * 16 + symbol[2i+1]` |
| Nibbles.CombineSplits | utils/converter.ts:65-67 | a byte is the combination of its two nibbles, and a combination splits back into the nibbles it came from |
| Nibbles.UnpackPack | utils/converter.ts:60-124 | unpacking a packed buffer gives back the buffer |
| Nibbles.PackUnpack | utils/converter.ts:60-124 | packing unpacked symbols gives back all symbols except a dropped odd trailing one |
| Nibbles.UnpackIgnoresOddTail | utils/converter.ts:113-124 | an odd trailing symbol has no effect on the bytes |
| Nibbles.PackBytes | utils/converter.ts:60-68 | the nibble loop of `encodeData` computes `Pack` |
| Nibbles.UnpackBlocks | utils/converter.ts:117-124 | the byte loop of `decodeData` computes `Unpack` |
| Nibbles.ShiftMaskAgree | utils/converter.ts:65-67 | `(b >> 4) & 0x0F` and `b & 0x0F` are division and remainder by 16 on 8-bit values |
| Nibbles.ShiftOrAgrees | utils/converter.ts:123 | `(high << 4) \| low` is `high * 16 + low` on nibbles |
| TextForm.IdsOf | utils/converter.ts:174 | one identifier per block, in order, the identifier of that block's colour |
| TextForm.JoinKeepsEnds | utils/converter.ts:174 | `join` of a non-empty list starts with its first piece and ends with its last; of an empty list it is empty |
| TextForm.BlocksToIdString | utils/converter.ts:171-175 | the exported text is empty for no blocks and already trimmed; its only separators are newlines, exactly one fewer than the blocks; and it splits back into exactly the blocks' identifiers, in order — which fixes the text as the identifiers joined by single newlines |
| TextForm.TrimSpec | utils/converter.ts:181-186 | `trim()` keeps a slice of the text, cuts off only whitespace on either side, and leaves neither end on whitespace |
| TextForm.SplitFromSpec | utils/converter.ts:181 | `split(/[\s,\n]+/)` cuts pieces that hold no separator, with every inner piece (and a first piece starting on a non-separator) non-empty, and joined with `,` they give the text with every maximal separator run collapsed to one `,`; so a piece boundary falls at each run and only there |
| TextForm.TokensSpec | utils/converter.ts:185-186 | the import loop skips an empty piece and trims a non-empty one, piece by piece and in order, so there is at most one token per piece |
| TextForm.FirstUnknownIsFirst | utils/converter.ts:184-191 | the token the import fails on is the earliest unknown one, and there is none only when every token is known |
| TextForm.ParseLines | utils/converter.ts:184-191 | the import loop succeeds exactly when every non-empty trimmed piece is known, returning their colour indices one for one; otherwise it fails naming the first unknown token |
| TextForm.SplitJoin | utils/converter.ts:174-181 | splitting newline-joined tokens on separator runs gives back the tokens |
| TextForm.TextRoundTrip | utils/converter.ts:173-191 | importing the exported text of any block sequence gives back that sequence |
| Converter.MetadataFor | utils/converter.ts:39-56 | text metadata carries the `text` tag, no name or MIME type; file metadata the `file` tag with the file's name and type; both carry the timestamp |
| Converter.EncodeData | utils/converter.ts:32-75 | fails exactly when the metadata is too large; otherwise the blocks unpack to a packet of the payload and metadata, two blocks per packet byte, `originalSize` bytes |
| Converter.MimeOrDefault | utils/converter.ts:165 | a present, non-empty MIME type is kept; an absent or empty one becomes `application/octet-stream` |
| Converter.DecodeData | utils/converter.ts:111-168 | decoding fails exactly when the unpacked packet fails to parse, and with the parser's error (fewer than 8 blocks: too short); on success the metadata and payload are those framed in the unpacked packet; text metadata yields text, any other a blob with the metadata's or the default MIME type |
| Converter.EncodeDecodeRoundTrip | utils/converter.ts:32-168 | decoding the blocks of an encoding returns its metadata and exactly its payload, as text or as a blob of the file's type |
| Converter.DecodeIgnoresOddTail | utils/converter.ts:113-124 | decoding drops an odd trailing block without effect |
| Converter.IdStringToBlocks | utils/converter.ts:180-210 | the import succeeds only when every token is known and the blocks decode; it then returns those blocks, `originalSize = floor(n/2)` and the decoded metadata; an unknown token fails naming the first one; when every token is known, the import fails exactly when decoding the blocks fails, with the decoder's own error |
| Converter.ImportOfDecodableBlocks | utils/converter.ts:180-210 | when the tokens parse and the blocks decode, the import returns exactly those blocks with their decoded metadata |
| Converter.ExportImportRoundTrip | utils/converter.ts:173-210 | importing the exported text of an encoding gives back the same blocks, size and metadata |

## Findings

| source | as written | input that shows it | evidently intended | confidence | as-written member | corrected member |
|---|---|---|---|---|---|---|
| utils/converter.ts:187 | `ID_TO_COLOR_INDEX` is a plain object, so `ID_TO_COLOR_INDEX[id] === undefined` is false for names inherited from `Object.prototype`, and the loop pushes a non-number value as a block | the import text `constructor` (also `toString`, `valueOf`, `__proto__`, …) | reject every token that is not one of the sixteen identifiers with the unknown-identifier error | high; not executed | Symbols.GuardAcceptsNonIdentifier | Symbols.FromId |

The rest of the model imports through `Symbols.FromId`, which consults only the
reverse map's own keys.

## Left out

- TextForm.Join: its contract (`TextForm.JoinKeepsEnds`) fixes only the two ends of a join; the full layout of the one join the codec performs is stated by `TextForm.BlocksToIdString`.
- Metadata serialisation: `JSON.stringify`, `JSON.parse`, `TextEncoder` and `TextDecoder` are foreign library code; they are the caller-supplied `MetaCodec`, and `parse` returning `None` is `MetadataParseError`, the error the source throws when `JSON.parse` throws.
- Converter.DecodeData: metadata that parses as JSON but is not an object is not modelled as the source behaves. The model can only express it as a `None` from `parse`, that is as `MetadataParseError`; the source instead succeeds on a non-null primitive such as `5` (its `type` reads as undefined, so it returns a blob with the default MIME type), and on `null` throws a `TypeError` at utils/converter.ts:157, outside the `try` of utils/converter.ts:147-151. Likewise an object of another shape, such as `{"type":"other"}` or one without `timestamp`, is accepted and returned verbatim by utils/converter.ts:148-166 (and decoded as a blob), while `MetaCodec.parse` can only turn it into some `FileMetadata` or into `MetadataParseError`.
- Payload text encoding: `TextEncoder.encode` of the input text and `TextDecoder.decode` of a text payload are not modelled; text payloads stay UTF-8 bytes on both sides.
- `Blob` construction: a decoded file is a `Blob` value holding its bytes and MIME type. The `Blob` constructor lower-cases an ASCII type and replaces a type holding any character outside U+0020..U+007E with the empty string; the model keeps `MimeOrDefault(...)` verbatim.
- `File.arrayBuffer()` and `Date.now()`: the file's bytes, name and type arrive in `Converter.Input`, the time as `now`; `async` is dropped.
- `console.warn` on an odd block count is a side effect and is not modelled; `Nibbles.UnpackIgnoresOddTail` states that the trailing block is dropped.
- Block values outside 0..15 (which `decodeData` does not range-check) are excluded by the `nibble` type, following the `EncodedData.blocks` comment in types.ts.
- Error message texts are replaced by the `CodecError` constructors.
- Strings are sequences of Unicode scalar values rather than UTF-16 code units; every identifier and separator is a single code unit, so tokenisation is unaffected.
- `WoolBlock`, `ProcessingStatus` and `CHUNK_SIZE` are not used by the codec; App.tsx, components/WoolVisualizer.tsx and components/Legend.tsx are user interface and rendering.
