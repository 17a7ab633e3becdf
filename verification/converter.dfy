/** The four public operations of the converter: `encodeData`, `decodeData`,
    `blocksToIdString` (see `TextForm`) and `idStringToBlocks`, composed from the
    packet framer, the nibble codec and the text form. */
module Converter {
  import opened Wrappers
  import opened Types
  import opened Constants
  import opened Symbols
  import opened Nibbles
  import opened Packet
  import opened TextForm

  /** What `encodeData` is given, already in bytes: the UTF-8 encoding of the
      text, or a file's name, `type` and contents. */
  datatype Input =
    | TextInput(payload: seq<byte>)
    | FileInput(name: string, mimeType: string, payload: seq<byte>)

  /** The decoded payload: text (still as its UTF-8 bytes) or a `Blob` with its
      MIME type. */
  datatype Data = Text(bytes: seq<byte>) | Blob(bytes: seq<byte>, mimeType: string)

  datatype Decoded = Decoded(metadata: FileMetadata, data: Data)

  /** The MIME type given to a decoded file when its metadata names none. */
  const DefaultMimeType: string := "application/octet-stream"

  /** The metadata `encodeData` builds, stamped with the time `now`. */
  function MetadataFor(input: Input, now: int): (m: FileMetadata)
    ensures m.timestamp == now
    ensures m.kind == TextKind <==> input.TextInput?
    ensures input.TextInput? ==> m.name.None? && m.mimeType.None?
    ensures input.FileInput? ==> m.name == Some(input.name) && m.mimeType == Some(input.mimeType)
  {
    match input
    case TextInput(_) => FileMetadata(TextKind, None, None, now)
    case FileInput(name, mimeType, _) => FileMetadata(FileKind, Some(name), Some(mimeType), now)
  }

  /** `encodeData`: frames the payload with fresh metadata and splits the packet
      into nibbles. Fails exactly when the serialised metadata is too long;
      otherwise the blocks unpack to a packet of the payload and its metadata,
      two blocks per packet byte. */
  function EncodeData(input: Input, now: int, codec: MetaCodec): (r: Result<EncodedData, CodecError>)
    ensures r.Failure? <==> |codec.serialize(MetadataFor(input, now))| > MaxMetaLength
    ensures r.Failure? ==> r.error == MetadataTooLarge
    ensures r.Success? ==>
      && r.value.metadata == MetadataFor(input, now)
      && |r.value.blocks| == 2 * r.value.originalSize
      && IsFrameOf(Unpack(r.value.blocks), codec.serialize(r.value.metadata), input.payload)
  {
    var metadata := MetadataFor(input, now);
    var buffer :- CreatePacket(input.payload, metadata, codec);
    UnpackPack(buffer);
    Success(EncodedData(Pack(buffer), |buffer|, metadata))
  }

  /** `metadata.mimeType || 'application/octet-stream'`: an absent or empty MIME
      type falls back to the default. */
  function MimeOrDefault(mimeType: Option<string>): (r: string)
    ensures r != ""
    ensures mimeType.Some? && mimeType.value != "" ==> r == mimeType.value
    ensures !(mimeType.Some? && mimeType.value != "") ==> r == DefaultMimeType
  {
    if mimeType.Some? && mimeType.value != "" then mimeType.value else DefaultMimeType
  }

  /** `decodeData`: unpacks the blocks (dropping an odd trailing one), checks and
      parses the packet, and tags the payload as text or as a binary blob. It
      fails exactly when the unpacked packet does not parse, with the parser's
      error; on success the metadata and payload are those framed in the packet. */
  function DecodeData(blocks: seq<nibble>, codec: MetaCodec): (r: Result<Decoded, CodecError>)
    ensures r.Failure? <==> ParsePacket(Unpack(blocks), codec).Failure?
    ensures r.Failure? ==> r.error == ParsePacket(Unpack(blocks), codec).error
    ensures r.Success? ==>
      exists meta :: codec.parse(meta) == Some(r.value.metadata) && IsFrameOf(Unpack(blocks), meta, r.value.data.bytes)
    ensures |blocks| < 8 ==> r == Failure(TooShort)
    ensures r.Success? ==> |r.value.data.bytes| + 4 <= |blocks| / 2
    ensures r.Success? ==> (r.value.data.Text? <==> r.value.metadata.kind == TextKind)
    ensures r.Success? && r.value.data.Blob? ==> r.value.data.mimeType == MimeOrDefault(r.value.metadata.mimeType)
  {
    var buffer := Unpack(blocks);
    match ParsePacket(buffer, codec)
    case Failure(e) => Failure(e)
    case Success((metadata, payload)) =>
      ParsedBufferIsFrame(buffer, codec);
      if metadata.kind == TextKind then Success(Decoded(metadata, Text(payload)))
      else Success(Decoded(metadata, Blob(payload, MimeOrDefault(metadata.mimeType))))
  }

  /** What decoding an encoded input gives back. */
  function Expected(input: Input, now: int): Decoded {
    match input
    case TextInput(payload) => Decoded(MetadataFor(input, now), Text(payload))
    case FileInput(_, mimeType, payload) =>
      Decoded(MetadataFor(input, now), Blob(payload, MimeOrDefault(Some(mimeType))))
  }

  /** Decoding the blocks of an encoded input gives back its metadata and exactly
      its payload, as text or as a blob of the file's type, whenever the metadata
      serialisation round-trips. */
  lemma EncodeDecodeRoundTrip(input: Input, now: int, codec: MetaCodec)
    requires codec.parse(codec.serialize(MetadataFor(input, now))) == Some(MetadataFor(input, now))
    requires EncodeData(input, now, codec).Success?
    ensures DecodeData(EncodeData(input, now, codec).value.blocks, codec) == Success(Expected(input, now))
  {
    var metadata := MetadataFor(input, now);
    var buffer := CreatePacket(input.payload, metadata, codec).value;
    UnpackPack(buffer);
    ParseCreatePacket(input.payload, metadata, codec);
  }

  /** Decoding ignores an odd trailing block. */
  lemma DecodeIgnoresOddTail(blocks: seq<nibble>, codec: MetaCodec)
    requires |blocks| % 2 == 1
    ensures DecodeData(blocks, codec) == DecodeData(blocks[..|blocks| - 1], codec)
  {
    UnpackIgnoresOddTail(blocks);
  }

  /** `idStringToBlocks`: tokenises and maps the text back to blocks, failing on
      the first unknown token, then runs a full decode to validate them and to
      read their metadata; any decode failure is the import's failure. */
  function IdStringToBlocks(str: string, codec: MetaCodec): (r: Result<EncodedData, CodecError>)
    ensures r.Success? ==>
      && ParsedAs(Tokens(Split(Trim(str))), r.value.blocks, FromId)
      && r.value.originalSize == |r.value.blocks| / 2
      && DecodeData(r.value.blocks, codec).Success?
      && r.value.metadata == DecodeData(r.value.blocks, codec).value.metadata
    ensures r.Failure? && FirstUnknown(Tokens(Split(Trim(str))), FromId).Some? ==>
      r.error == UnknownId(FirstUnknown(Tokens(Split(Trim(str))), FromId).value)
    ensures ParseLines(Split(Trim(str)), FromId).Success? ==>
      && (r.Failure? <==> DecodeData(ParseLines(Split(Trim(str)), FromId).value, codec).Failure?)
      && (r.Failure? ==> r.error == DecodeData(ParseLines(Split(Trim(str)), FromId).value, codec).error)
  {
    var blocks :- ParseLines(Split(Trim(str)), FromId);
    var decoded :- DecodeData(blocks, codec);
    Success(EncodedData(blocks, |blocks| / 2, decoded.metadata))
  }

  /** The import succeeds with the parsed blocks when they parse and decode. */
  lemma ImportOfDecodableBlocks(str: string, codec: MetaCodec, blocks: seq<nibble>, decoded: Decoded)
    requires ParseLines(Split(Trim(str)), FromId) == Success(blocks)
    requires DecodeData(blocks, codec) == Success(decoded)
    ensures IdStringToBlocks(str, codec) == Success(EncodedData(blocks, |blocks| / 2, decoded.metadata))
  {
  }

  /** Importing the exported text of an encoding gives back that encoding:
      the same blocks, the same packet size and the same metadata. */
  lemma ExportImportRoundTrip(input: Input, now: int, codec: MetaCodec)
    requires codec.parse(codec.serialize(MetadataFor(input, now))) == Some(MetadataFor(input, now))
    requires EncodeData(input, now, codec).Success?
    ensures IdStringToBlocks(BlocksToIdString(EncodeData(input, now, codec).value.blocks), codec)
      == EncodeData(input, now, codec)
  {
    var encoded := EncodeData(input, now, codec).value;
    TextRoundTrip(encoded.blocks);
    EncodeDecodeRoundTrip(input, now, codec);
    assert Expected(input, now).metadata == encoded.metadata;
    assert encoded.originalSize == |encoded.blocks| / 2;
    assert DecodeData(encoded.blocks, codec) == Success(Expected(input, now));
    ImportOfDecodableBlocks(BlocksToIdString(encoded.blocks), codec, encoded.blocks, Expected(input, now));
  }
}
