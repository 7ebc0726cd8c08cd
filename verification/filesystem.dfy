/** Opening an image and resolving node ids to inodes: the superblock check,
    the two address helpers every other computation builds on, inode fetch
    with its compact/extended dispatch, and opening an inode as a file. */
module FileSystem {
  import opened Ints
  import opened Errors
  import opened Types
  import opened Image

  /** An opened image: the external decoders, the backing store contents and
      declared size, the validated superblock and the derived block size. */
  datatype EroFS = EroFS(
    codec: Codec,
    store: seq<byte>,
    imageSize: uint64,
    superBlock: SuperBlock,
    blockSize: nat)
  {
    /** What opening establishes and nothing afterwards changes. */
    predicate Valid() {
      && superBlock.magic == MAGIC_NUMBER
      && MIN_BLK_SIZE_BITS <= superBlock.blkSizeBits <= MAX_BLK_SIZE_BITS
      && blockSize == Pow2(superBlock.blkSizeBits)
    }
  }

  /** The checks opening applies to a decoded superblock. */
  predicate AcceptableSuperBlock(sb: SuperBlock) {
    sb.magic == MAGIC_NUMBER && MIN_BLK_SIZE_BITS <= sb.blkSizeBits <= MAX_BLK_SIZE_BITS
  }

  /** `from_image`: read and decode the superblock, then check its magic and
      its block-size exponent, in that order. */
  function FromImage(codec: Codec, store: seq<byte>, imageSize: uint64): (r: Result<EroFS>)
    ensures r.Ok? ==> r.value.Valid() && 512 <= r.value.blockSize <= 0x100_0000
    ensures r.Ok? ==> r.value.store == store && r.value.imageSize == imageSize && r.value.codec == codec
    ensures r.Ok? ==> SUPER_BLOCK_OFFSET + SUPER_BLOCK_SIZE <= imageSize
    ensures r.Ok? ==> SUPER_BLOCK_OFFSET + SUPER_BLOCK_SIZE <= |store|
    ensures r.Ok? ==>
              codec.decodeSuperBlock(store[SUPER_BLOCK_OFFSET..SUPER_BLOCK_OFFSET + SUPER_BLOCK_SIZE])
              == Ok(r.value.superBlock)
    ensures var raw := ReadExact(store, imageSize, SUPER_BLOCK_OFFSET, SUPER_BLOCK_SIZE);
            raw.Ok? && codec.decodeSuperBlock(raw.value).Ok? ==>
              var sb := codec.decodeSuperBlock(raw.value).value;
              && (r.Ok? <==> AcceptableSuperBlock(sb))
              && (sb.magic != MAGIC_NUMBER ==> r.Err? && r.error == InvalidSuperblock(BadMagic(sb.magic)))
              && (sb.magic == MAGIC_NUMBER && !AcceptableSuperBlock(sb) ==>
                    r.Err? && r.error == InvalidSuperblock(BadBlockSizeBits(sb.blkSizeBits)))
    ensures var raw := ReadExact(store, imageSize, SUPER_BLOCK_OFFSET, SUPER_BLOCK_SIZE);
            && (raw.Err? ==> r.Err? && r.error == raw.error)
            && (raw.Ok? && codec.decodeSuperBlock(raw.value).Err? ==>
                  r.Err? && r.error == codec.decodeSuperBlock(raw.value).error)
  {
    var sbBuf :- ReadExact(store, imageSize, SUPER_BLOCK_OFFSET, SUPER_BLOCK_SIZE);
    var sb :- codec.decodeSuperBlock(sbBuf);
    if sb.magic != MAGIC_NUMBER then
      Err(InvalidSuperblock(BadMagic(sb.magic)))
    else if !(MIN_BLK_SIZE_BITS <= sb.blkSizeBits <= MAX_BLK_SIZE_BITS) then
      Err(InvalidSuperblock(BadBlockSizeBits(sb.blkSizeBits)))
    else
      BlockSizeRange(sb.blkSizeBits);
      assert sbBuf == store[SUPER_BLOCK_OFFSET..SUPER_BLOCK_OFFSET + SUPER_BLOCK_SIZE];
      Ok(EroFS(codec, store, imageSize, sb, Pow2(sb.blkSizeBits)))
  }

  /** `block_offset`: the byte address of block number `block`, a left shift
      by the block-size exponent. */
  function BlockOffset(fs: EroFS, block: uint32): (off: nat)
    requires fs.Valid()
    ensures off == block * fs.blockSize
    ensures off < 0x100_0000_0000_0000
  {
    BlockSizeRange(fs.superBlock.blkSizeBits);
    BlockAddressBound(block, fs.blockSize);
    block * fs.blockSize
  }

  /** Below this bound the inode offset computation never wraps. */
  const NID_NO_WRAP_BOUND: nat := 0x800_0000_0000_0000 - 0x8_0000_0000_0000

  /** `get_inode_offset`: the inode slot of `nid` in the metadata area. The
      multiplication and the addition are not overflow-checked in the source;
      they wrap modulo 2^64 here, as a release build does. The result is the
      exact slot for node ids below `NID_NO_WRAP_BOUND`, and smaller than it
      whenever the exact slot does not fit in 64 bits. */
  function InodeOffset(fs: EroFS, nid: uint64): (off: uint64)
    requires fs.Valid()
    ensures nid < NID_NO_WRAP_BOUND ==>
              off == BlockOffset(fs, fs.superBlock.metaBlkAddr) + nid * INODE_COMPACT_SIZE
    ensures BlockOffset(fs, fs.superBlock.metaBlkAddr) + nid * INODE_COMPACT_SIZE < U64_LIMIT ==>
              off == BlockOffset(fs, fs.superBlock.metaBlkAddr) + nid * INODE_COMPACT_SIZE
    ensures BlockOffset(fs, fs.superBlock.metaBlkAddr) + nid * INODE_COMPACT_SIZE >= U64_LIMIT ==>
              off < BlockOffset(fs, fs.superBlock.metaBlkAddr) + nid * INODE_COMPACT_SIZE
  {
    var exact := BlockOffset(fs, fs.superBlock.metaBlkAddr) + nid * INODE_COMPACT_SIZE;
    assert nid < NID_NO_WRAP_BOUND ==> exact < U64_LIMIT;
    exact % U64_LIMIT
  }

  /** The struct size the format field at `off` selects. */
  function SlotSize(fs: EroFS, off: nat): nat
    requires off + 2 <= |fs.store|
  {
    if fs.codec.isCompactFormat(LE16(fs.store[off..off + 2])) then INODE_COMPACT_SIZE else INODE_EXTENDED_SIZE
  }

  /** The decoder the format field at `off` selects, applied to the struct. */
  function SlotRecord(fs: EroFS, off: nat): Result<InodeRecord>
    requires off + 2 <= |fs.store| && off + SlotSize(fs, off) <= |fs.store|
  {
    if fs.codec.isCompactFormat(LE16(fs.store[off..off + 2]))
    then fs.codec.decodeCompact(fs.store[off..off + INODE_COMPACT_SIZE])
    else fs.codec.decodeExtended(fs.store[off..off + INODE_EXTENDED_SIZE])
  }

  /** `get_inode`: read the 2-byte format field at the inode's slot, then the
      compact or the extended struct that field selects, and decode it. */
  function GetInode(fs: EroFS, nid: uint64): (r: Result<Inode>)
    requires fs.Valid()
    ensures var off := InodeOffset(fs, nid);
            r.Ok? ==>
              && r.value.nid == nid
              && off + r.value.Size() <= fs.imageSize
              && off + r.value.Size() <= |fs.store|
              && (r.value.format == Compact <==> fs.codec.isCompactFormat(LE16(fs.store[off..off + 2])))
              && (r.value.format == Compact ==>
                    fs.codec.decodeCompact(fs.store[off..off + INODE_COMPACT_SIZE]) == Ok(r.value.record))
              && (r.value.format == Extended ==>
                    fs.codec.decodeExtended(fs.store[off..off + INODE_EXTENDED_SIZE]) == Ok(r.value.record))
    ensures InodeOffset(fs, nid) + 2 > fs.imageSize ==> r.Err? && r.error.OutOfBounds?
    ensures var off := InodeOffset(fs, nid);
            r.Ok? <==>
              && off + 2 <= fs.imageSize && off + 2 <= |fs.store|
              && off + SlotSize(fs, off) <= fs.imageSize && off + SlotSize(fs, off) <= |fs.store|
              && SlotRecord(fs, off).Ok?
    ensures var off := InodeOffset(fs, nid);
            (&& off + 2 <= fs.imageSize && off + 2 <= |fs.store|
             && off + SlotSize(fs, off) <= fs.imageSize && off + SlotSize(fs, off) <= |fs.store|
             && SlotRecord(fs, off).Err?) ==> r == Err(SlotRecord(fs, off).error)
  {
    var offset := InodeOffset(fs, nid);
    var layoutBuf :- ReadExact(fs.store, fs.imageSize, offset, 2);
    assert layoutBuf == fs.store[offset..offset + 2];
    if fs.codec.isCompactFormat(LE16(layoutBuf)) then
      var inodeBuf :- ReadExact(fs.store, fs.imageSize, offset, INODE_COMPACT_SIZE);
      assert inodeBuf == fs.store[offset..offset + INODE_COMPACT_SIZE];
      var rec :- fs.codec.decodeCompact(inodeBuf);
      Ok(Inode(nid, Compact, rec))
    else
      var inodeBuf :- ReadExact(fs.store, fs.imageSize, offset, INODE_EXTENDED_SIZE);
      assert inodeBuf == fs.store[offset..offset + INODE_EXTENDED_SIZE];
      var rec :- fs.codec.decodeExtended(inodeBuf);
      Ok(Inode(nid, Extended, rec))
  }

  /** A file handle: a frozen inode bound to the image it came from. */
  datatype File = File(inode: Inode, fs: EroFS)

  /** `open_inode_file`: only regular files can be opened. */
  function OpenInodeFile(fs: EroFS, inode: Inode): (r: Result<File>)
    ensures r.Ok? <==> inode.record.isFile
    ensures r.Ok? ==> r.value.inode == inode && r.value.fs == fs
    ensures r.Err? ==> r.error == NotAFile(inode.nid)
  {
    if !inode.record.isFile then Err(NotAFile(inode.nid)) else Ok(File(inode, fs))
  }
}
