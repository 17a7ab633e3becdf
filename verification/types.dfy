/** The data model of the codec: the sixteen wool colours, the 4-bit symbols
    ("blocks") and bytes the codec works on, the metadata record carried in every
    packet, the result of an encode, and the errors the codec raises. */
module Types {
  import opened Wrappers

  /** A byte of a `Uint8Array`. */
  type byte = b: int | 0 <= b < 256

  /** A colour index, the value of one block: a 4-bit symbol. */
  type nibble = n: int | 0 <= n < 16

  /** The sixteen wool colours of the `WoolColor` enum, in declaration order. */
  datatype WoolColor =
    | White | Orange | Magenta | LightBlue
    | Yellow | Lime | Pink | Gray
    | LightGray | Cyan | Purple | Blue
    | Brown | Green | Red | Black
  {
    /** The numeric value the enum gives this member. */
    function Value(): nibble {
      match this
      case White => 0
      case Orange => 1
      case Magenta => 2
      case LightBlue => 3
      case Yellow => 4
      case Lime => 5
      case Pink => 6
      case Gray => 7
      case LightGray => 8
      case Cyan => 9
      case Purple => 10
      case Blue => 11
      case Brown => 12
      case Green => 13
      case Red => 14
      case Black => 15
    }
  }

  /** Every member of the enum, listed in declaration order. */
  const AllColors: seq<WoolColor> :=
    [White, Orange, Magenta, LightBlue, Yellow, Lime, Pink, Gray,
     LightGray, Cyan, Purple, Blue, Brown, Green, Red, Black]

  /** The enum member whose value is `v`. */
  function ColorOf(v: nibble): (c: WoolColor)
    ensures c.Value() == v
  {
    AllColors[v]
  }

  /** The enum values are pairwise distinct and cover 0..15 exactly: `Value` and
      `ColorOf` are mutually inverse, so the enum has exactly sixteen members. */
  lemma ColorValuesAreBijective(c: WoolColor, v: nibble)
    ensures ColorOf(c.Value()) == c
    ensures c.Value() == v <==> c == ColorOf(v)
  {
  }

  /** The `type` tag of the metadata: exactly `'text'` or `'file'`. */
  datatype Kind = TextKind | FileKind

  /** `FileMetadata`: the tag, an optional file name and MIME type, and the
      creation time in milliseconds since the epoch. */
  datatype FileMetadata = FileMetadata(
    kind: Kind,
    name: Option<string>,
    mimeType: Option<string>,
    timestamp: int)

  /** `EncodedData`: the block sequence, the packet length in bytes, and the
      metadata of the encoded payload. */
  datatype EncodedData = EncodedData(
    blocks: seq<nibble>,
    originalSize: nat,
    metadata: FileMetadata)

  /** The errors the codec throws. */
  datatype CodecError =
    | MetadataTooLarge
    | TooShort
    | ChecksumMismatch
    | TruncatedMetadata
    | MetadataParseError
    | UnknownId(token: string)
}
