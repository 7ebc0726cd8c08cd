/** The decoded on-disk records the engine reads, and the external decoders
    it calls. Byte-level decoding of these records lives outside the engine;
    here each decoder is a function-valued field of `Codec`, so every result
    about the engine holds for whatever those decoders do. */
module Types {
  import opened Ints
  import opened Errors

  /** EROFS on-disk constants. */
  const MAGIC_NUMBER: uint32 := 0xE0F5_E1E2
  const SUPER_BLOCK_OFFSET: uint64 := 1024
  const SUPER_BLOCK_SIZE: nat := 128
  const INODE_COMPACT_SIZE: nat := 32
  const INODE_EXTENDED_SIZE: nat := 64
  const MIN_BLK_SIZE_BITS: nat := 9
  const MAX_BLK_SIZE_BITS: nat := 24

  /** The superblock fields the engine reads. */
  datatype SuperBlock = SuperBlock(
    magic: uint32,
    blkSizeBits: uint8,
    metaBlkAddr: uint32,
    rootNid: uint16)

  /** The data layouts an inode may declare. */
  datatype Layout = FlatPlain | CompressedFull | FlatInline | CompressedCompact | ChunkBased

  /** An inode's layout field: a recognised layout, or the raw tag that
      `Inode::layout` rejects with `InvalidLayout`. */
  datatype LayoutField = Known(layout: Layout) | Unrecognized(tag: uint8)

  /** The fields shared by both inode encodings, as their decoders produce them. */
  datatype InodeRecord = InodeRecord(
    dataSize: uint64,
    xattrSize: uint32,
    rawBlockAddr: uint32,
    layoutField: LayoutField,
    isFile: bool)

  datatype InodeFormat = Compact | Extended

  /** A decoded inode tagged with the node id it was read from. */
  datatype Inode = Inode(nid: uint64, format: InodeFormat, record: InodeRecord) {

    /** Size of the fixed on-disk struct. */
    function Size(): nat {
      match format
      case Compact => INODE_COMPACT_SIZE
      case Extended => INODE_EXTENDED_SIZE
    }

    function DataSize(): uint64 {
      record.dataSize
    }

    function DataLayout(): Result<Layout> {
      match record.layoutField
      case Known(l) => Ok(l)
      case Unrecognized(t) => Err(InvalidLayout(t))
    }
  }

  /** Chunk-size exponent of the chunk-based format: a 5-bit field. */
  type ChunkBits = b: int | 0 <= b < 32

  /** The chunk-based format descriptor decoded from an inode's raw block
      address field. */
  datatype ChunkFormat = ChunkFormat(isValid: bool, isIndexes: bool, chunkSizeBits: ChunkBits)

  /** The external collaborators of the engine: fixed-struct decoders, the
      compact/extended classifier, the chunk-format descriptor and the
      directory-entry lookup inside one directory block. */
  datatype Codec = Codec(
    decodeSuperBlock: seq<byte> -> Result<SuperBlock>,
    isCompactFormat: uint16 -> bool,
    decodeCompact: seq<byte> -> Result<InodeRecord>,
    decodeExtended: seq<byte> -> Result<InodeRecord>,
    chunkFormat: uint32 -> ChunkFormat,
    findNodeIdByName: (string, seq<byte>) -> Result<Option<uint64>>)
}
