/** Mapping a logical file offset to the one physical block that holds it,
    for each data layout, and fetching that block. Each layout computes an
    `Extent` (physical start and length); `GetInodeBlock` reads it.

    `DataAddress` is the reference reading of the layouts: where byte `p` of
    a file lives in the image. `BlockFollowsLayout` proves that every fetched
    block consists of exactly those bytes. */
module Blocks {
  import opened Ints
  import opened Errors
  import opened Types
  import opened Image
  import opened FileSystem

  /** A physical byte range of the image. */
  datatype Extent = Extent(start: nat, len: nat)

  /** `div_ceil(data_size, block_size)`: how many blocks the data spans. */
  function BlockCount(fs: EroFS, inode: Inode): nat
    requires fs.Valid()
  {
    DivCeil(inode.DataSize(), fs.blockSize)
  }

  /** Which block of the data holds logical position `offset`. */
  function BlockIndex(fs: EroFS, offset: nat): nat
    requires fs.Valid()
  {
    DivModBasics(offset, fs.blockSize);
    offset / fs.blockSize
  }

  /** Logical position of the first byte of the block holding `offset`. */
  function BlockStart(fs: EroFS, offset: nat): nat
    requires fs.Valid()
  {
    MulMonotone(0, BlockIndex(fs, offset), fs.blockSize);
    BlockIndex(fs, offset) * fs.blockSize
  }

  /** Where the bytes stored right after an inode begin: past its fixed
      struct and its extended attributes. The inline tail of a FlatInline
      file and the chunk index table of a ChunkBased file both live here. */
  function InlineDataStart(fs: EroFS, inode: Inode): nat
    requires fs.Valid()
  {
    InodeOffset(fs, inode.nid) + inode.Size() + inode.record.xattrSize
  }

  // ---------------------------------------------------------------------
  // Flat layouts

  /** Block `index` of the block-addressed region. */
  function PlainExtent(fs: EroFS, inode: Inode, index: nat): (r: Result<Extent>)
    requires fs.Valid() && index < BlockCount(fs, inode)
    ensures r.Ok? <==> BlockOffset(fs, inode.record.rawBlockAddr) + index * fs.blockSize < U64_LIMIT
    ensures r.Err? ==> r.error == OutOfBounds(BlockOffsetOverflow)
    ensures r.Ok? ==> r.value.start == BlockOffset(fs, inode.record.rawBlockAddr) + index * fs.blockSize
    ensures r.Ok? ==> 0 < r.value.len <= fs.blockSize && index * fs.blockSize + r.value.len <= inode.DataSize()
    ensures r.Ok? ==> r.value.len == fs.blockSize || index * fs.blockSize + r.value.len == inode.DataSize()
  {
    DivCeilIndex(inode.DataSize(), fs.blockSize, index);
    var start := BlockOffset(fs, inode.record.rawBlockAddr) + index * fs.blockSize;
    if start >= U64_LIMIT then Err(OutOfBounds(BlockOffsetOverflow))
    else Ok(Extent(start, Min(fs.blockSize, inode.DataSize() - index * fs.blockSize)))
  }

  /** FlatPlain: the data occupies consecutive blocks from the raw block
      address; only the last block may be partial. */
  function FlatPlainBlock(fs: EroFS, inode: Inode, offset: uint64): (r: Result<Extent>)
    requires fs.Valid()
    ensures BlockIndex(fs, offset) >= BlockCount(fs, inode) <==>
              r == Err(OutOfRange(BlockIndex(fs, offset), BlockCount(fs, inode)))
    ensures offset < inode.DataSize() ==> BlockIndex(fs, offset) < BlockCount(fs, inode)
    ensures r.Ok? <==> BlockIndex(fs, offset) < BlockCount(fs, inode) &&
                       BlockOffset(fs, inode.record.rawBlockAddr) + BlockStart(fs, offset) < U64_LIMIT
    ensures r.Ok? ==> r.value.start == BlockOffset(fs, inode.record.rawBlockAddr) + BlockStart(fs, offset)
    ensures r.Ok? ==> r.value.len == Min(fs.blockSize, inode.DataSize() - BlockStart(fs, offset))
    ensures r.Ok? ==> 0 < r.value.len <= fs.blockSize && r.value.start < U64_LIMIT
    ensures r.Ok? ==> BlockStart(fs, offset) + r.value.len <= inode.DataSize()
    ensures r.Err? && !r.error.OutOfRange? ==> r.error == OutOfBounds(BlockOffsetOverflow)
  {
    var count := BlockCount(fs, inode);
    var index := BlockIndex(fs, offset);
    DivCeilCovers(inode.DataSize(), fs.blockSize, offset);
    if index >= count then Err(OutOfRange(index, count))
    else PlainExtent(fs, inode, index)
  }

  /** FlatInline: like FlatPlain, except that the last block is stored right
      after the inode (tail packing) and is `data_size % block_size` long. */
  function FlatInlineBlock(fs: EroFS, inode: Inode, offset: uint64): (r: Result<Extent>)
    requires fs.Valid()
    ensures BlockIndex(fs, offset) >= BlockCount(fs, inode) <==>
              r == Err(OutOfRange(BlockIndex(fs, offset), BlockCount(fs, inode)))
    ensures offset < inode.DataSize() ==> BlockIndex(fs, offset) < BlockCount(fs, inode)
    ensures BlockIndex(fs, offset) == BlockCount(fs, inode) - 1 ==>
              (r.Ok? <==> InlineDataStart(fs, inode) < U64_LIMIT)
    ensures BlockIndex(fs, offset) < BlockCount(fs, inode) - 1 ==>
              (r.Ok? <==> BlockOffset(fs, inode.record.rawBlockAddr) + BlockStart(fs, offset) < U64_LIMIT)
    ensures r.Ok? && BlockIndex(fs, offset) == BlockCount(fs, inode) - 1 ==>
              r.value.start == InlineDataStart(fs, inode) && r.value.len == inode.DataSize() % fs.blockSize
    ensures r.Ok? && BlockIndex(fs, offset) < BlockCount(fs, inode) - 1 ==>
              && r.value.start == BlockOffset(fs, inode.record.rawBlockAddr) + BlockStart(fs, offset)
              && r.value.len == fs.blockSize
    ensures r.Ok? ==> r.value.len <= fs.blockSize && r.value.start < U64_LIMIT
    ensures r.Ok? && offset < inode.DataSize() ==> BlockStart(fs, offset) + r.value.len <= inode.DataSize()
    ensures r.Err? && !r.error.OutOfRange? ==>
              r.error == OutOfBounds(if BlockIndex(fs, offset) == BlockCount(fs, inode) - 1
                                     then TailOffsetOverflow else BlockOffsetOverflow)
  {
    var count := BlockCount(fs, inode);
    var index := BlockIndex(fs, offset);
    DivCeilCovers(inode.DataSize(), fs.blockSize, offset);
    if index >= count then Err(OutOfRange(index, count))
    else if index == count - 1 then InlineTail(fs, inode, offset)
    else
      DivCeilIndex(inode.DataSize(), fs.blockSize, index + 1);
      MulAddDistrib(index, 1, fs.blockSize);
      PlainExtent(fs, inode, index)
  }

  /** The tail-packed last block of a FlatInline file: right after the
      inode and its extended attributes, `data_size % block_size` long. */
  function InlineTail(fs: EroFS, inode: Inode, offset: uint64): (r: Result<Extent>)
    requires fs.Valid()
    ensures r.Ok? <==> InlineDataStart(fs, inode) < U64_LIMIT
    ensures r.Err? ==> r.error == OutOfBounds(TailOffsetOverflow)
    ensures r.Ok? ==> r.value.start == InlineDataStart(fs, inode) && r.value.len == inode.DataSize() % fs.blockSize
    ensures r.Ok? ==> r.value.len < fs.blockSize
    ensures r.Ok? && offset < inode.DataSize() ==> BlockStart(fs, offset) + r.value.len <= inode.DataSize()
  {
    var start := InlineDataStart(fs, inode);
    if start >= U64_LIMIT then Err(OutOfBounds(TailOffsetOverflow))
    else
      TailWithinData(fs, inode, offset);
      Ok(Extent(start, inode.DataSize() % fs.blockSize))
  }

  /** The inline tail, `data_size % block_size` bytes from the start of the
      last block, ends exactly at the end of the data. */
  lemma TailWithinData(fs: EroFS, inode: Inode, offset: nat)
    requires fs.Valid()
    ensures offset < inode.DataSize() ==>
              BlockStart(fs, offset) + inode.DataSize() % fs.blockSize <= inode.DataSize()
    ensures inode.DataSize() % fs.blockSize < fs.blockSize
  {
    var bs, ds := fs.blockSize, inode.DataSize();
    DivModBasics(ds, bs);
    if offset < ds {
      DivMonotone(offset, ds, bs);
      MulMonotone(BlockIndex(fs, offset), ds / bs, bs);
    }
  }

  // ---------------------------------------------------------------------
  // Chunk-based layout

  lemma ChunkBitsBound(cf: ChunkFormat)
    ensures Pow2(cf.chunkSizeBits) <= 0x8000_0000
  {
    Pow2Monotone(cf.chunkSizeBits, 31);
    Pow2Constants();
  }

  /** `1 << (chunk_size_bits + blk_size_bits)`: a chunk is
      2^chunk_size_bits blocks. */
  function ChunkSize(fs: EroFS, cf: ChunkFormat): (size: nat)
    requires fs.Valid()
    ensures size == Pow2(cf.chunkSizeBits) * fs.blockSize
  {
    Pow2Add(cf.chunkSizeBits, fs.superBlock.blkSizeBits);
    Pow2(cf.chunkSizeBits + fs.superBlock.blkSizeBits)
  }

  /** `div_ceil(data_size, chunk_size)`. */
  function ChunkCount(fs: EroFS, inode: Inode, cf: ChunkFormat): nat
    requires fs.Valid()
  {
    DivCeil(inode.DataSize(), ChunkSize(fs, cf))
  }

  /** `offset >> chunk_bits`: the chunk holding `offset`. */
  function ChunkIndexOf(fs: EroFS, cf: ChunkFormat, offset: nat): (index: nat)
    requires fs.Valid()
    ensures index == BlockIndex(fs, offset) / Pow2(cf.chunkSizeBits)
  {
    NestedDivMod(offset, fs.blockSize, Pow2(cf.chunkSizeBits));
    DivModBasics(offset, ChunkSize(fs, cf));
    offset / ChunkSize(fs, cf)
  }

  /** `(offset % chunk_size) / block_size`: the block of its chunk holding
      `offset`. */
  function ChunkFixed(fs: EroFS, cf: ChunkFormat, offset: nat): (fixed: nat)
    requires fs.Valid()
    ensures fixed == BlockIndex(fs, offset) % Pow2(cf.chunkSizeBits)
    ensures fixed < Pow2(cf.chunkSizeBits)
  {
    NestedDivMod(offset, fs.blockSize, Pow2(cf.chunkSizeBits));
    DivModBasics(offset, ChunkSize(fs, cf));
    DivModBasics(offset % ChunkSize(fs, cf), fs.blockSize);
    DivModBasics(BlockIndex(fs, offset), Pow2(cf.chunkSizeBits));
    (offset % ChunkSize(fs, cf)) / fs.blockSize
  }

  /** The chunk index table entry for chunk `index`: a little-endian i32
      block address, 4 bytes per chunk, stored after the inode. */
  function ChunkEntry(fs: EroFS, inode: Inode, index: nat): (r: Result<int>)
    requires fs.Valid()
    ensures InlineDataStart(fs, inode) + 4 * index >= U64_LIMIT ==> r == Err(OutOfBounds(ChunkAddrOffsetOverflow))
    ensures var at := InlineDataStart(fs, inode) + 4 * index;
            r.Ok? <==> at + 4 <= fs.imageSize && at + 4 <= |fs.store|
    ensures r.Ok? ==>
              var at := InlineDataStart(fs, inode) + 4 * index;
              at + 4 <= |fs.store| && at + 4 <= fs.imageSize && r.value == AsI32(LE32(fs.store[at..at + 4]))
    ensures r.Ok? ==> r.value < 0x8000_0000
    ensures r.Err? ==> r.error.OutOfBounds?
  {
    var at := InlineDataStart(fs, inode) + index * 4;
    if at >= U64_LIMIT then Err(OutOfBounds(ChunkAddrOffsetOverflow))
    else
      var addrBuf :- ReadExact(fs.store, fs.imageSize, at, 4);
      assert addrBuf == fs.store[at..at + 4];
      Ok(AsI32(LE32(addrBuf)))
  }

  /** Block `fixed` of chunk `index`, once the format has been accepted. The
      u32 addition `chunk_addr + chunk_fixed` is not overflow-checked in the
      source; it is written with its wrap-around here, and never wraps. */
  function ChunkExtent(fs: EroFS, inode: Inode, cf: ChunkFormat, index: nat, fixed: nat): (r: Result<Extent>)
    requires fs.Valid() && fixed < Pow2(cf.chunkSizeBits)
    ensures index >= ChunkCount(fs, inode, cf) <==> r == Err(OutOfRange(index, ChunkCount(fs, inode, cf)))
    ensures r.Ok? <==> index < ChunkCount(fs, inode, cf) && ChunkEntry(fs, inode, index).Ok? &&
                       ChunkEntry(fs, inode, index).value > 0
    ensures index < ChunkCount(fs, inode, cf) && ChunkEntry(fs, inode, index).Err? ==>
              r == Err(ChunkEntry(fs, inode, index).error)
    ensures index < ChunkCount(fs, inode, cf) && ChunkEntry(fs, inode, index).Ok? ==>
              (ChunkEntry(fs, inode, index).value <= 0 <==> r == Err(CorruptedData(SparseChunk)))
    ensures r.Ok? ==>
              && ChunkEntry(fs, inode, index).Ok?
              && 0 < ChunkEntry(fs, inode, index).value
              && r.value.start == (ChunkEntry(fs, inode, index).value + fixed) * fs.blockSize
              && r.value.start < U64_LIMIT
    ensures r.Ok? ==>
              r.value.len == if index == ChunkCount(fs, inode, cf) - 1
                             then inode.DataSize() % fs.blockSize else fs.blockSize
  {
    var count := ChunkCount(fs, inode, cf);
    if index >= count then Err(OutOfRange(index, count))
    else
      var entry := ChunkEntry(fs, inode, index);
      if entry.Err? then Err(entry.error)
      else if entry.value <= 0 then Err(CorruptedData(SparseChunk))
      else
        var chunkAddr := entry.value;
        ChunkBitsBound(cf);
        var len := if index == count - 1 then inode.DataSize() % fs.blockSize else fs.blockSize;
        var block: uint32 := (chunkAddr + fixed) % U32_LIMIT;
        assert block == chunkAddr + fixed;
        Ok(Extent(BlockOffset(fs, block), len))
  }

  /** ChunkBased: the data is cut into chunks of 2^chunk_size_bits blocks;
      a table after the inode gives each chunk's first block. The format
      descriptor is checked first, then the chunk index, then the entry. */
  function ChunkBlock(fs: EroFS, inode: Inode, offset: uint64): (r: Result<Extent>)
    requires fs.Valid()
    ensures var cf := fs.codec.chunkFormat(inode.record.rawBlockAddr);
            && (!cf.isValid ==> r == Err(CorruptedData(InvalidChunkFormat(inode.record.rawBlockAddr))))
            && (cf.isValid && cf.isIndexes ==> r == Err(NotSupported(ChunkIndexes)))
            && (cf.isValid && !cf.isIndexes ==>
                  r == ChunkExtent(fs, inode, cf, ChunkIndexOf(fs, cf, offset), ChunkFixed(fs, cf, offset)))
    ensures r.Ok? ==> r.value.start < U64_LIMIT && r.value.len <= fs.blockSize
    ensures r.Ok? && offset < inode.DataSize() ==> BlockStart(fs, offset) + r.value.len <= inode.DataSize()
  {
    var cf := fs.codec.chunkFormat(inode.record.rawBlockAddr);
    if !cf.isValid then Err(CorruptedData(InvalidChunkFormat(inode.record.rawBlockAddr)))
    else if cf.isIndexes then Err(NotSupported(ChunkIndexes))
    else
      var r := ChunkExtent(fs, inode, cf, ChunkIndexOf(fs, cf, offset), ChunkFixed(fs, cf, offset));
      ChunkBlockWithinData(fs, inode, cf, offset, r);
      r
  }

  /** A chunk-based block never extends past the end of the data. */
  lemma ChunkBlockWithinData(fs: EroFS, inode: Inode, cf: ChunkFormat, offset: nat, r: Result<Extent>)
    requires fs.Valid()
    requires r == ChunkExtent(fs, inode, cf, ChunkIndexOf(fs, cf, offset), ChunkFixed(fs, cf, offset))
    ensures r.Ok? ==> r.value.len <= fs.blockSize
    ensures r.Ok? && offset < inode.DataSize() ==> BlockStart(fs, offset) + r.value.len <= inode.DataSize()
  {
    if r.Ok? {
      var bs, ds := fs.blockSize, inode.DataSize();
      DivModBasics(ds, bs);
      if offset < ds {
        var q := BlockIndex(fs, offset);
        var m := Pow2(cf.chunkSizeBits);
        var ci := ChunkIndexOf(fs, cf, offset);
        if ci == ChunkCount(fs, inode, cf) - 1 {
          DivMonotone(offset, ds, bs);
          MulMonotone(q, ds / bs, bs);
        } else {
          // a block of a chunk before the last one ends inside the data
          var cs := ChunkSize(fs, cf);
          DivCeilIndex(ds, cs, ci + 1);
          DivModBasics(q, m);
          UnitEndsInGroup(q, bs, m);
          MulAddDistrib(q, 1, bs);
        }
      }
    }
  }

  // ---------------------------------------------------------------------
  // Dispatch

  /** `get_inode_block` up to its final read: the extent holding `offset`,
      chosen by the inode's layout. */
  function MapBlock(fs: EroFS, inode: Inode, offset: uint64): (r: Result<Extent>)
    requires fs.Valid()
    ensures inode.DataLayout().Err? ==> r == Err(inode.DataLayout().error)
    ensures inode.DataLayout() == Ok(CompressedFull) || inode.DataLayout() == Ok(CompressedCompact) ==>
              r == Err(NotSupported(CompressedLayout))
    ensures inode.DataLayout() == Ok(FlatPlain) ==> r == FlatPlainBlock(fs, inode, offset)
    ensures inode.DataLayout() == Ok(FlatInline) ==> r == FlatInlineBlock(fs, inode, offset)
    ensures inode.DataLayout() == Ok(ChunkBased) ==> r == ChunkBlock(fs, inode, offset)
    ensures r.Ok? ==> r.value.start < U64_LIMIT && r.value.len <= fs.blockSize
    ensures r.Ok? && offset < inode.DataSize() ==> BlockStart(fs, offset) + r.value.len <= inode.DataSize()
  {
    var layout :- inode.DataLayout();
    match layout
    case FlatPlain => FlatPlainBlock(fs, inode, offset)
    case FlatInline => FlatInlineBlock(fs, inode, offset)
    case CompressedFull => Err(NotSupported(CompressedLayout))
    case CompressedCompact => Err(NotSupported(CompressedLayout))
    case ChunkBased => ChunkBlock(fs, inode, offset)
  }

  /** `get_inode_block`: the bytes of the block holding `offset`. */
  function GetInodeBlock(fs: EroFS, inode: Inode, offset: uint64): (r: Result<seq<byte>>)
    requires fs.Valid()
    ensures MapBlock(fs, inode, offset).Err? ==> r == Err(MapBlock(fs, inode, offset).error)
    ensures r.Ok? ==> MapBlock(fs, inode, offset).Ok? && |r.value| == MapBlock(fs, inode, offset).value.len
    ensures r.Ok? ==> |r.value| <= fs.blockSize
    ensures r.Ok? ==>
              var e := MapBlock(fs, inode, offset).value;
              (e.len > 0 ==> e.start + e.len <= |fs.store|) && forall i :: 0 <= i < |r.value| ==> r.value[i] == fs.store[e.start + i]
    ensures r.Ok? && offset < inode.DataSize() ==> BlockStart(fs, offset) + |r.value| <= inode.DataSize()
    ensures MapBlock(fs, inode, offset).Ok? ==>
              var e := MapBlock(fs, inode, offset).value;
              && (e.start + e.len > fs.imageSize ==> r.Err? && r.error.OutOfBounds?)
              && (fs.imageSize < e.start + e.len < U64_LIMIT ==> r == Err(OutOfBounds(ReadBeyondImage)))
              && (r.Ok? <==> e.start + e.len <= fs.imageSize && (e.len == 0 || e.start + e.len <= |fs.store|))
  {
    var e :- MapBlock(fs, inode, offset);
    ReadExact(fs.store, fs.imageSize, e.start, e.len)
  }

  // ---------------------------------------------------------------------
  // Reference reading of the layouts

  /** Where byte `p` of the file's data is stored, read off the layout
      alone: consecutive from the raw block address for FlatPlain; the same
      for FlatInline except in the last block, which sits after the inode;
      chunk base block plus position within the chunk for ChunkBased. `None`
      where the layout gives no address (compressed, invalid or sparse). */
  function DataAddress(fs: EroFS, inode: Inode, p: nat): Option<nat>
    requires fs.Valid()
  {
    match inode.DataLayout()
    case Err(_) => None
    case Ok(layout) =>
      match layout
      case FlatPlain =>
        Some(BlockOffset(fs, inode.record.rawBlockAddr) + p)
      case FlatInline =>
        if BlockIndex(fs, p) == BlockCount(fs, inode) - 1
        then DivModBasics(p, fs.blockSize); Some(InlineDataStart(fs, inode) + p % fs.blockSize)
        else Some(BlockOffset(fs, inode.record.rawBlockAddr) + p)
      case ChunkBased =>
        var cf := fs.codec.chunkFormat(inode.record.rawBlockAddr);
        var chunkSize := ChunkSize(fs, cf);
        if !cf.isValid || cf.isIndexes then None
        else
          var entry := ChunkEntry(fs, inode, ChunkIndexOf(fs, cf, p));
          if entry.Ok? && entry.value > 0 then
            MulMonotone(0, entry.value, fs.blockSize);
            DivModBasics(p, chunkSize);
            Some(entry.value * fs.blockSize + p % chunkSize)
          else None
      case CompressedFull => None
      case CompressedCompact => None
  }

  /** Byte `j` of block `b`, fetched for `offset`, is the file byte the
      layout places at `BlockStart(offset) + j`. */
  predicate ByteFollowsLayout(fs: EroFS, inode: Inode, offset: uint64, b: seq<byte>, j: nat)
    requires fs.Valid() && j < |b|
  {
    var a := DataAddress(fs, inode, BlockStart(fs, offset) + j);
    a.Some? && a.value < |fs.store| && b[j] == fs.store[a.value]
  }

  /** Every byte of a fetched block is the byte the layout places there. */
  lemma BlockFollowsLayout(fs: EroFS, inode: Inode, offset: uint64)
    requires fs.Valid()
    ensures GetInodeBlock(fs, inode, offset).Ok? ==>
              var b := GetInodeBlock(fs, inode, offset).value;
              forall j :: 0 <= j < |b| ==> ByteFollowsLayout(fs, inode, offset, b, j)
  {
    if GetInodeBlock(fs, inode, offset).Ok? {
      var b := GetInodeBlock(fs, inode, offset).value;
      forall j | 0 <= j < |b|
        ensures ByteFollowsLayout(fs, inode, offset, b, j)
      {
        assert j < fs.blockSize;
        ExtentAddress(fs, inode, offset, j);
      }
    }
  }

  /** The address arithmetic behind `BlockFollowsLayout`: byte `j` of the
      extent mapped for `offset` is where the layout puts file position
      `BlockStart(offset) + j`, for any `j` inside a block. */
  lemma ExtentAddress(fs: EroFS, inode: Inode, offset: uint64, j: nat)
    requires fs.Valid() && MapBlock(fs, inode, offset).Ok? && j < fs.blockSize
    ensures DataAddress(fs, inode, BlockStart(fs, offset) + j) == Some(MapBlock(fs, inode, offset).value.start + j)
  {
    var layout := inode.DataLayout().value;
    if layout == FlatPlain {
      PlainAddress(fs, inode, offset, j);
    } else if layout == FlatInline {
      InlineAddress(fs, inode, offset, j);
    } else {
      assert layout == ChunkBased;
      ChunkAddress(fs, inode, offset, j);
    }
  }

  /** `ExtentAddress` for the FlatPlain layout. */
  lemma PlainAddress(fs: EroFS, inode: Inode, offset: uint64, j: nat)
    requires fs.Valid() && inode.DataLayout() == Ok(FlatPlain)
    requires FlatPlainBlock(fs, inode, offset).Ok?
    ensures DataAddress(fs, inode, BlockStart(fs, offset) + j) == Some(FlatPlainBlock(fs, inode, offset).value.start + j)
  {
  }

  /** `ExtentAddress` for the FlatInline layout. */
  lemma InlineAddress(fs: EroFS, inode: Inode, offset: uint64, j: nat)
    requires fs.Valid() && inode.DataLayout() == Ok(FlatInline)
    requires FlatInlineBlock(fs, inode, offset).Ok? && j < fs.blockSize
    ensures DataAddress(fs, inode, BlockStart(fs, offset) + j) == Some(FlatInlineBlock(fs, inode, offset).value.start + j)
  {
    var p := BlockStart(fs, offset) + j;
    DivModUnique(p, fs.blockSize, BlockIndex(fs, offset), j);
    assert BlockIndex(fs, p) == BlockIndex(fs, offset);
  }

  /** `ExtentAddress` for the chunk-based layout. */
  lemma ChunkAddress(fs: EroFS, inode: Inode, offset: uint64, j: nat)
    requires fs.Valid() && inode.DataLayout() == Ok(ChunkBased)
    requires ChunkBlock(fs, inode, offset).Ok? && j < fs.blockSize
    ensures DataAddress(fs, inode, BlockStart(fs, offset) + j) == Some(ChunkBlock(fs, inode, offset).value.start + j)
  {
    var bs := fs.blockSize;
    var cf := fs.codec.chunkFormat(inode.record.rawBlockAddr);
    var m := Pow2(cf.chunkSizeBits);
    var p := BlockStart(fs, offset) + j;
    var fixed := ChunkFixed(fs, cf, offset);
    UnitPosition(offset, bs, m, j);
    var index := ChunkIndexOf(fs, cf, offset);
    assert ChunkIndexOf(fs, cf, p) == index;
    var base := ChunkEntry(fs, inode, index).value;
    assert ChunkBlock(fs, inode, offset) == ChunkExtent(fs, inode, cf, index, fixed);
    assert ChunkBlock(fs, inode, offset).value.start == (base + fixed) * bs;
    assert DataAddress(fs, inode, p) == Some(base * bs + p % ChunkSize(fs, cf));
    assert p % ChunkSize(fs, cf) == fixed * bs + j;
    MulAddDistrib(base, fixed, bs);
  }

  /** Two offsets in the same block fetch the same block. */
  lemma BlockLocal(fs: EroFS, inode: Inode, o: uint64, o': uint64)
    requires fs.Valid() && BlockIndex(fs, o) == BlockIndex(fs, o')
    ensures MapBlock(fs, inode, o) == MapBlock(fs, inode, o')
    ensures GetInodeBlock(fs, inode, o) == GetInodeBlock(fs, inode, o')
  {
  }
}
