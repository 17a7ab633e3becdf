/** The packet framer: `[metaLength: 2 bytes big-endian][metadata][payload]
    [checksum: 2 bytes]`, built by `createPacket` and taken apart, with its
    integrity and structure checks, by the header half of `decodeData`. */
module Packet {
  import opened Wrappers
  import opened Types
  import opened Checksum

  /** Metadata serialisation, supplied by the caller: `serialize` stands for
      `JSON.stringify` followed by UTF-8 encoding, `parse` for UTF-8 decoding
      followed by `JSON.parse`, with `None` where parsing throws. */
  datatype MetaCodec = MetaCodec(
    serialize: FileMetadata -> seq<byte>,
    parse: seq<byte> -> Option<FileMetadata>)

  /** The largest metadata length the 16-bit length field can hold. */
  const MaxMetaLength: nat := 65535

  /** `DataView.setUint16(0, n, false)`: the two big-endian bytes of `n`. */
  function U16BE(n: nat): (r: seq<byte>)
    requires n <= MaxMetaLength
    ensures |r| == 2 && ReadU16BE(r[0], r[1]) == n
  {
    [n / 256, n % 256]
  }

  /** `DataView.getUint16(0, false)` on two bytes. */
  function ReadU16BE(hi: byte, lo: byte): (n: nat)
    ensures n <= MaxMetaLength
  {
    hi * 256 + lo
  }

  /** Reading back the two bytes written for a length gives the length. */
  lemma U16RoundTrip(n: nat)
    requires n <= MaxMetaLength
    ensures ReadU16BE(U16BE(n)[0], U16BE(n)[1]) == n
  {
  }

  /** `p` lays out `meta` and `payload` as a packet: length field, metadata,
      payload, then the checksum of everything before it. */
  predicate IsFrameOf(p: seq<byte>, meta: seq<byte>, payload: seq<byte>) {
    && |p| == |meta| + |payload| + 4
    && ReadU16BE(p[0], p[1]) == |meta|
    && p[2..2 + |meta|] == meta
    && p[2 + |meta|..|p| - 2] == payload
    && (p[|p| - 2], p[|p| - 1]) == Fletcher(p[..|p| - 2])
  }

  /** `createPacket`: fails exactly when the serialised metadata is longer than
      the length field can say, and otherwise lays out the packet. */
  function CreatePacket(payload: seq<byte>, metadata: FileMetadata, codec: MetaCodec): (r: Result<seq<byte>, CodecError>)
    ensures r.Failure? <==> |codec.serialize(metadata)| > MaxMetaLength
    ensures r.Failure? ==> r.error == MetadataTooLarge
    ensures r.Success? ==> IsFrameOf(r.value, codec.serialize(metadata), payload)
  {
    var metaBytes := codec.serialize(metadata);
    if |metaBytes| > MaxMetaLength then Failure(MetadataTooLarge)
    else
      var content := U16BE(|metaBytes|) + metaBytes + payload;
      var checksum := Fletcher(content);
      var output := content + [checksum.0, checksum.1];
      assert output[..|output| - 2] == content;
      assert output[2..2 + |metaBytes|] == metaBytes;
      assert output[2 + |metaBytes|..|output| - 2] == payload;
      Success(output)
  }

  /** The two trailing bytes of `buffer` equal the checksum of the rest. */
  predicate ChecksumMatches(buffer: seq<byte>)
    requires |buffer| >= 2
  {
    var calculated := Fletcher(buffer[..|buffer| - 2]);
    buffer[|buffer| - 2] == calculated.0 && buffer[|buffer| - 1] == calculated.1
  }

  /** The metadata length the header of `buffer` declares. */
  function DeclaredMetaLength(buffer: seq<byte>): nat
    requires |buffer| >= 2
  {
    ReadU16BE(buffer[0], buffer[1])
  }

  /** The frame checks of `decodeData`, in the source's order: too short,
      checksum, truncated metadata, metadata parse. On success the metadata
      and the payload bytes `[2 + metaLength, |buffer| - 2)`. */
  function ParsePacket(buffer: seq<byte>, codec: MetaCodec): (r: Result<(FileMetadata, seq<byte>), CodecError>)
    ensures r == Failure(TooShort) <==> |buffer| < 4
    ensures r == Failure(ChecksumMismatch) <==> |buffer| >= 4 && !ChecksumMatches(buffer)
    ensures r == Failure(TruncatedMetadata) <==>
      |buffer| >= 4 && ChecksumMatches(buffer) && |buffer| - 2 < 2 + DeclaredMetaLength(buffer)
    ensures r == Failure(MetadataParseError) <==>
      |buffer| >= 4 && ChecksumMatches(buffer) && 2 + DeclaredMetaLength(buffer) <= |buffer| - 2
      && codec.parse(buffer[2..2 + DeclaredMetaLength(buffer)]).None?
    ensures r.Failure? ==> r.error in {TooShort, ChecksumMismatch, TruncatedMetadata, MetadataParseError}
  {
    if |buffer| < 4 then Failure(TooShort)
    else if !ChecksumMatches(buffer) then Failure(ChecksumMismatch)
    else
      var content := buffer[..|buffer| - 2];
      var metaLength := DeclaredMetaLength(buffer);
      if |content| < 2 + metaLength then Failure(TruncatedMetadata)
      else match codec.parse(buffer[2..2 + metaLength])
        case None => Failure(MetadataParseError)
        case Some(metadata) => Success((metadata, content[2 + metaLength..]))
  }

  /** Parsing a built packet gives back the metadata and exactly the payload,
      whenever the metadata serialisation round-trips. */
  lemma ParseCreatePacket(payload: seq<byte>, metadata: FileMetadata, codec: MetaCodec)
    requires codec.parse(codec.serialize(metadata)) == Some(metadata)
    requires CreatePacket(payload, metadata, codec).Success?
    ensures ParsePacket(CreatePacket(payload, metadata, codec).value, codec) == Success((metadata, payload))
  {
    var p := CreatePacket(payload, metadata, codec).value;
    var m := codec.serialize(metadata);
    assert p[..|p| - 2][2 + |m|..] == p[2 + |m|..|p| - 2];
  }

  /** Conversely, every buffer the parser accepts is a packet: the frame of
      some metadata bytes that parse to the returned metadata, and of the
      returned payload. */
  lemma ParsedBufferIsFrame(buffer: seq<byte>, codec: MetaCodec)
    requires ParsePacket(buffer, codec).Success?
    ensures var (metadata, payload) := ParsePacket(buffer, codec).value;
      exists meta :: codec.parse(meta) == Some(metadata) && IsFrameOf(buffer, meta, payload)
  {
    var (metadata, payload) := ParsePacket(buffer, codec).value;
    var meta := buffer[2..2 + DeclaredMetaLength(buffer)];
    assert buffer[..|buffer| - 2][2 + |meta|..] == buffer[2 + |meta|..|buffer| - 2];
    assert codec.parse(meta) == Some(metadata) && IsFrameOf(buffer, meta, payload);
  }

  /** Changing one byte of a buffer whose checksum matches, anywhere in it, to a
      value of another residue modulo 255 makes the parser fail with a checksum
      mismatch; by `BitFlipAltersResidue` this covers every single-bit flip. */
  lemma CorruptedByteIsDetected(buffer: seq<byte>, i: nat, v: byte, codec: MetaCodec)
    requires |buffer| >= 4 && ChecksumMatches(buffer)
    requires i < |buffer| && buffer[i] % 255 != v % 255
    ensures ParsePacket(buffer[i := v], codec) == Failure(ChecksumMismatch)
  {
    var n := |buffer|;
    var corrupted := buffer[i := v];
    if i < n - 2 {
      assert corrupted[..n - 2] == buffer[..n - 2][i := v];
      SingleByteChangeAltersChecksum(buffer[..n - 2], i, v);
    } else {
      assert corrupted[..n - 2] == buffer[..n - 2];
    }
  }

  /** Flipping bit `k` of any byte of a built packet is detected. */
  lemma BitFlipIsDetected(payload: seq<byte>, metadata: FileMetadata, codec: MetaCodec, i: nat, k: nat, v: byte)
    requires CreatePacket(payload, metadata, codec).Success?
    requires i < |CreatePacket(payload, metadata, codec).value|
    requires k < 8
    requires var b := CreatePacket(payload, metadata, codec).value[i]; v == b + Pow2(k) || v == b - Pow2(k)
    ensures ParsePacket(CreatePacket(payload, metadata, codec).value[i := v], codec) == Failure(ChecksumMismatch)
  {
    var p := CreatePacket(payload, metadata, codec).value;
    BitFlipAltersResidue(p[i], v, k);
    CorruptedByteIsDetected(p, i, v, codec);
  }
}
