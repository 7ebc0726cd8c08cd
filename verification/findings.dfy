/** The chunk-based layout gives every block of the last chunk the length
    `data_size % block_size`, though only the last block of the file is
    partial and a chunk may hold many blocks. Reading such a file stalls: the
    range loop is handed a block too short to contain the position it asked
    for. `TailCounterexample` exhibits one such image. Below it is the
    evidently intended mapping, where a chunk-based block is as long as its
    part of the data (as for FlatPlain), and the proof that a range read
    over it never stalls. */
module IntendedBlocks {
  import opened Ints
  import opened Errors
  import opened Types
  import opened Image
  import opened FileSystem
  import opened Blocks
  import opened RangeRead

  /** How much of the data the block holding `offset` covers. */
  function BlockPart(fs: EroFS, inode: Inode, offset: nat): (len: nat)
    requires fs.Valid()
    ensures len <= fs.blockSize
    ensures offset < inode.DataSize() ==> offset % fs.blockSize < len
    ensures BlockStart(fs, offset) + len <= inode.DataSize() || len == 0
  {
    DivModBasics(offset, fs.blockSize);
    if BlockStart(fs, offset) < inode.DataSize()
    then Min(fs.blockSize, inode.DataSize() - BlockStart(fs, offset))
    else 0
  }

  /** `get_inode_block` up to its read, with the chunk-based block length
      corrected; every other layout maps as written. */
  function MapBlockIntended(fs: EroFS, inode: Inode, offset: uint64): (r: Result<Extent>)
    requires fs.Valid()
    ensures r.Ok? <==> MapBlock(fs, inode, offset).Ok?
    ensures r.Err? ==> r == MapBlock(fs, inode, offset)
    ensures r.Ok? ==> r.value.start == MapBlock(fs, inode, offset).value.start && r.value.len <= fs.blockSize
    ensures r.Ok? && inode.DataLayout() != Ok(ChunkBased) ==> r == MapBlock(fs, inode, offset)
    ensures r.Ok? && inode.DataLayout() == Ok(ChunkBased) ==> r.value.len == BlockPart(fs, inode, offset)
  {
    var e :- MapBlock(fs, inode, offset);
    if inode.DataLayout() == Ok(ChunkBased) then Ok(Extent(e.start, BlockPart(fs, inode, offset)))
    else Ok(e)
  }

  /** `get_inode_block` with the corrected chunk-based length. */
  function GetInodeBlockIntended(fs: EroFS, inode: Inode, offset: uint64): (r: Result<seq<byte>>)
    requires fs.Valid()
    ensures MapBlockIntended(fs, inode, offset).Err? ==> r == Err(MapBlockIntended(fs, inode, offset).error)
    ensures r.Ok? ==> MapBlockIntended(fs, inode, offset).Ok? && |r.value| == MapBlockIntended(fs, inode, offset).value.len
    ensures r.Ok? ==> |r.value| <= fs.blockSize
    ensures r.Ok? ==>
              var e := MapBlockIntended(fs, inode, offset).value;
              (e.len > 0 ==> e.start + e.len <= |fs.store|) && forall i :: 0 <= i < |r.value| ==> r.value[i] == fs.store[e.start + i]
    ensures MapBlockIntended(fs, inode, offset).Ok? ==>
              var e := MapBlockIntended(fs, inode, offset).value;
              && (e.start + e.len > fs.imageSize ==> r.Err? && r.error.OutOfBounds?)
              && (fs.imageSize < e.start + e.len < U64_LIMIT ==> r == Err(OutOfBounds(ReadBeyondImage)))
              && (r.Ok? <==> e.start + e.len <= fs.imageSize && (e.len == 0 || e.start + e.len <= |fs.store|))
  {
    var e :- MapBlockIntended(fs, inode, offset);
    ReadExact(fs.store, fs.imageSize, e.start, e.len)
  }

  /** A corrected block never extends past the end of the data. */
  lemma IntendedWithinData(fs: EroFS, inode: Inode, offset: uint64)
    requires fs.Valid() && offset < inode.DataSize() && GetInodeBlockIntended(fs, inode, offset).Ok?
    ensures BlockStart(fs, offset) + |GetInodeBlockIntended(fs, inode, offset).value| <= inode.DataSize()
    ensures offset - offset % fs.blockSize == BlockStart(fs, offset)
  {
    assert MapBlock(fs, inode, offset).Ok?;
    DivModBasics(offset, fs.blockSize);
  }

  /** A FlatInline block holds every data position it is fetched for when
      the inline tail is not empty. */
  lemma InlineHoldsOffset(fs: EroFS, inode: Inode, offset: uint64)
    requires fs.Valid() && offset < inode.DataSize() && FlatInlineBlock(fs, inode, offset).Ok?
    requires inode.DataSize() % fs.blockSize != 0
    ensures offset % fs.blockSize < FlatInlineBlock(fs, inode, offset).value.len
  {
    var bs, ds := fs.blockSize, inode.DataSize();
    var index := BlockIndex(fs, offset);
    DivModBasics(offset, bs);
    if index == BlockCount(fs, inode) - 1 {
      // the last block is the inline tail and starts at `(ds / bs) * bs`
      DivModBasics(ds, bs);
      DivCeilIndex(ds, bs, ds / bs);
      DivMonotone(offset, ds, bs);
      assert index == ds / bs;
    }
  }

  /** Outside the FlatInline layout with a whole-block tail, a corrected
      extent always holds the position it was mapped for. */
  lemma IntendedHoldsOffset(fs: EroFS, inode: Inode, offset: uint64)
    requires fs.Valid() && offset < inode.DataSize() && MapBlockIntended(fs, inode, offset).Ok?
    requires inode.DataLayout() == Ok(FlatInline) ==> inode.DataSize() % fs.blockSize != 0
    ensures offset % fs.blockSize < MapBlockIntended(fs, inode, offset).value.len
  {
    DivModBasics(offset, fs.blockSize);
    if inode.DataLayout() == Ok(FlatInline) {
      InlineHoldsOffset(fs, inode, offset);
    }
  }

  /** `get_inode_block` with the corrected length, as a fetcher. */
  function IntendedFetch(fs: EroFS, inode: Inode): (f: Fetch)
    requires fs.Valid()
    ensures forall o: uint64 :: f(o) == GetInodeBlockIntended(fs, inode, o)
  {
    (o: uint64) => GetInodeBlockIntended(fs, inode, o)
  }

  lemma IntendedFetchFetchable(fs: EroFS, inode: Inode)
    requires fs.Valid()
    ensures Fetchable(IntendedFetch(fs, inode), fs.blockSize, inode.DataSize())
  {
    var f, bs := IntendedFetch(fs, inode), fs.blockSize;
    forall o: uint64, o': uint64 | SameBlock(bs, o, o')
      ensures f(o) == f(o')
    {
      IntendedBlockLocal(fs, inode, o, o');
    }
    forall o: uint64 | o < inode.DataSize() && f(o).Ok?
      ensures o - o % bs + |f(o).value| <= inode.DataSize()
    {
      IntendedWithinData(fs, inode, o);
    }
  }

  /** Two offsets in the same block fetch the same corrected block. */
  lemma IntendedBlockLocal(fs: EroFS, inode: Inode, o: uint64, o': uint64)
    requires fs.Valid() && SameBlock(fs.blockSize, o, o')
    ensures GetInodeBlockIntended(fs, inode, o) == GetInodeBlockIntended(fs, inode, o')
  {
    BlockLocal(fs, inode, o, o');
    assert BlockPart(fs, inode, o) == BlockPart(fs, inode, o');
  }

  /** A byte of a corrected block is the file byte the layout places there. */
  lemma IntendedByteFollowsLayout(fs: EroFS, inode: Inode, p: uint64)
    requires fs.Valid() && GetInodeBlockIntended(fs, inode, p).Ok?
    requires p % fs.blockSize < |GetInodeBlockIntended(fs, inode, p).value|
    ensures LayoutByte(fs, inode, p, GetInodeBlockIntended(fs, inode, p).value[p % fs.blockSize])
  {
    var b := GetInodeBlockIntended(fs, inode, p).value;
    var j := p % fs.blockSize;
    var e := MapBlockIntended(fs, inode, p).value;
    assert j < |b| == e.len <= fs.blockSize;
    assert b[j] == fs.store[e.start + j] && e.start + j < |fs.store|;
    assert MapBlock(fs, inode, p).Ok? && MapBlock(fs, inode, p).value.start == e.start;
    DivModBasics(p, fs.blockSize);
    assert BlockStart(fs, p) + j == p;
    ExtentAddress(fs, inode, p, j);
  }

  /** `read_inode_range` over the corrected mapping. Apart from FlatInline
      images whose inline tail would be a whole block, it never stalls, and
      a completed read returns the file bytes the layout places at the
      requested positions. */
  method ReadInodeRangeIntended(fs: EroFS, inode: Inode, fo: uint64, outLen: nat) returns (r: ReadOutcome)
    requires fs.Valid()
    ensures outLen == 0 || fo >= inode.DataSize() ==> r == Done([])
    ensures inode.DataLayout() == Ok(FlatInline) ==> inode.DataSize() % fs.blockSize != 0 ==> !r.Stuck?
    ensures inode.DataLayout() != Ok(FlatInline) ==> !r.Stuck?
    ensures r.Done? ==> |r.bytes| == if fo >= inode.DataSize() then 0 else Min(outLen, inode.DataSize() - fo)
    ensures r.Done? ==> forall k :: 0 <= k < |r.bytes| ==> LayoutByte(fs, inode, fo + k, r.bytes[k])
    ensures r.Done? <==> outLen == 0 || fo >= inode.DataSize() ||
                         Present(IntendedFetch(fs, inode), fs.blockSize, fo, Min(fo + outLen, inode.DataSize()))
    ensures r.Failed? ==> fo <= r.at < inode.DataSize() && GetInodeBlockIntended(fs, inode, r.at) == Err(r.error)
  {
    if outLen == 0 || fo >= inode.DataSize() {
      return Done([]);
    }
    IntendedFetchFetchable(fs, inode);
    var f := IntendedFetch(fs, inode);
    r := RangeLoop(f, fs.blockSize, inode.DataSize(), fo, outLen);
    if r.Stuck? {
      IntendedStallsOnlyOnWholeTail(fs, inode, r.at);
    }
    if r.Done? {
      IntendedCopiedFollowsLayout(fs, inode, fo, r.bytes);
    }
  }

  /** A position inside the data whose corrected block is fetched but does
      not contain it is in a FlatInline file with a whole-block tail. */
  lemma IntendedStallsOnlyOnWholeTail(fs: EroFS, inode: Inode, at: uint64)
    requires fs.Valid() && at < inode.DataSize()
    requires IntendedFetch(fs, inode)(at).Ok? && ByteOf(IntendedFetch(fs, inode), fs.blockSize, at).None?
    ensures inode.DataLayout() == Ok(FlatInline) && inode.DataSize() % fs.blockSize == 0
  {
    if !(inode.DataLayout() == Ok(FlatInline) && inode.DataSize() % fs.blockSize == 0) {
      assert MapBlockIntended(fs, inode, at).Ok?;
      IntendedHoldsOffset(fs, inode, at);
    }
  }

  /** Bytes copied from corrected blocks are the layout's bytes. */
  lemma IntendedCopiedFollowsLayout(fs: EroFS, inode: Inode, fo: uint64, bytes: seq<byte>)
    requires fs.Valid() && Copied(IntendedFetch(fs, inode), fs.blockSize, fo, bytes, 0)
    ensures forall k :: 0 <= k < |bytes| ==> LayoutByte(fs, inode, fo + k, bytes[k])
  {
    var f := IntendedFetch(fs, inode);
    forall k | 0 <= k < |bytes|
      ensures LayoutByte(fs, inode, fo + k, bytes[k])
    {
      assert ByteOf(f, fs.blockSize, fo + k) == Some(bytes[k]);
      var p: uint64 := fo + k;
      IntendedByteFollowsLayout(fs, inode, p);
    }
  }

  // ---------------------------------------------------------------------
  // The image that shows the difference

  /** The decoders of the example image: every superblock decodes to
      512-byte blocks with metadata at block 0 and root node 0, every inode
      is the compact inode of a 1 KiB chunk-based file with one-block
      chunks, and a directory block names node 5 when its first byte is 7. */
  function TailCodec(): Codec {
    Codec(
      (b: seq<byte>) => Ok(SuperBlock(MAGIC_NUMBER, 9, 0, 0)),
      (v: uint16) => true,
      (b: seq<byte>) => Ok(TailInode().record),
      (b: seq<byte>) => Err(CorruptedData(SparseChunk)),
      (v: uint32) => ChunkFormat(true, false, 0),
      (name: string, b: seq<byte>) => if |b| > 0 && b[0] == 7 then Ok(Some(5)) else Ok(None))
  }

  /** A 2.5 KiB image: the inode of node 0 at byte 0 with its chunk table
      right after it (chunk 0 at block 3, chunk 1 at block 4), the
      superblock at byte 1024, and the file's data in blocks 3 and 4. Block
      4 starts with the byte 7. */
  function TailStore(): (store: seq<byte>)
    ensures |store| == 2560
  {
    seq(2560, (i: int) => if i == 32 then 3 as byte else if i == 36 then 4 as byte else if i == 2048 then 7 as byte else 0 as byte)
  }

  /** The example image. */
  function TailImage(): (fs: EroFS)
    ensures fs.Valid() && fs.blockSize == 512 && fs.superBlock.rootNid == 0
  {
    Pow2Constants();
    EroFS(TailCodec(), TailStore(), 2560, SuperBlock(MAGIC_NUMBER, 9, 0, 0), 512)
  }

  /** Opening the example store with the example decoders yields the
      example image: the program can reach it. */
  lemma TailOpens()
    ensures FromImage(TailCodec(), TailStore(), 2560) == Ok(TailImage())
  {
    Pow2Constants();
  }

  function TailInode(): Inode {
    Inode(0, Compact, InodeRecord(1024, 0, 0, Known(ChunkBased), true))
  }

  /** Node 0 of the example image is the example file. */
  lemma TailInodeRead()
    ensures GetInode(TailImage(), 0) == Ok(TailInode())
  {
    var fs := TailImage();
    assert InodeOffset(fs, 0) == 0;
  }

  /** The chunk table of the example file. */
  lemma TailChunkTable()
    ensures ChunkEntry(TailImage(), TailInode(), 0) == Ok(3)
    ensures ChunkEntry(TailImage(), TailInode(), 1) == Ok(4)
    ensures InlineDataStart(TailImage(), TailInode()) == 32
  {
    var fs, inode := TailImage(), TailInode();
    assert InodeOffset(fs, 0) == 0;
    assert fs.store[32..36] == [3, 0, 0, 0];
    assert fs.store[36..40] == [4, 0, 0, 0];
  }

  /** As written: the block for offset 512 lies in the last chunk, so it is
      `1024 % 512 == 0` bytes long, and file byte 512 is not in it. */
  lemma TailAsWritten()
    ensures MapBlock(TailImage(), TailInode(), 512) == Ok(Extent(2048, 0))
    ensures GetInodeBlock(TailImage(), TailInode(), 512) == Ok([])
    ensures ByteOf(BlockFetch(TailImage(), TailInode()), 512, 512).None?
  {
    var fs, inode := TailImage(), TailInode();
    var cf := fs.codec.chunkFormat(0);
    TailChunkTable();
    assert ChunkSize(fs, cf) == 512;
    assert ChunkCount(fs, inode, cf) == 2;
    assert ChunkIndexOf(fs, cf, 512) == 1 && ChunkFixed(fs, cf, 512) == 0;
    assert ChunkBlock(fs, inode, 512) == Ok(Extent(2048, 0));
  }

  /** Corrected: the same block is the whole of block 4. */
  lemma TailIntended()
    ensures GetInodeBlockIntended(TailImage(), TailInode(), 512) == Ok(TailImage().store[2048..2560])
    ensures ByteOf(IntendedFetch(TailImage(), TailInode()), 512, 512) == Some(TailImage().store[2048])
  {
    var fs, inode := TailImage(), TailInode();
    TailAsWritten();
    assert BlockStart(fs, 512) == 512;
    assert BlockPart(fs, inode, 512) == 512;
    assert MapBlockIntended(fs, inode, 512) == Ok(Extent(2048, 512));
    assert ReadExact(fs.store, fs.imageSize, 2048, 512) == Ok(fs.store[2048..2560]);
  }

  /** The first block of the example file is the whole of block 3, under
      either length rule. */
  lemma TailFirstBlock()
    ensures GetInodeBlock(TailImage(), TailInode(), 0) == Ok(TailImage().store[1536..2048])
    ensures GetInodeBlockIntended(TailImage(), TailInode(), 0) == Ok(TailImage().store[1536..2048])
  {
    var fs, inode := TailImage(), TailInode();
    var cf := fs.codec.chunkFormat(0);
    TailChunkTable();
    assert ChunkSize(fs, cf) == 512;
    assert ChunkCount(fs, inode, cf) == 2;
    assert ChunkIndexOf(fs, cf, 0) == 0 && ChunkFixed(fs, cf, 0) == 0;
    assert MapBlock(fs, inode, 0) == Ok(Extent(1536, 512));
    assert BlockStart(fs, 0) == 0;
    assert BlockPart(fs, inode, 0) == 512;
    assert ReadExact(fs.store, fs.imageSize, 1536, 512) == Ok(fs.store[1536..2048]);
  }

  /** The discrepancy on the example: as written, a read of file byte 512
      cannot complete; corrected, it can. */
  lemma TailCounterexample()
    ensures !Present(BlockFetch(TailImage(), TailInode()), 512, 512, 513)
    ensures Present(IntendedFetch(TailImage(), TailInode()), 512, 512, 513)
  {
    TailAsWritten();
    TailIntended();
  }

  /** Byte 512 of the example file is the first byte of block 4. */
  lemma TailAddress()
    ensures DataAddress(TailImage(), TailInode(), 512) == Some(2048)
  {
    var fs, inode := TailImage(), TailInode();
    var cf := fs.codec.chunkFormat(0);
    TailChunkTable();
    assert ChunkSize(fs, cf) == 512;
    assert ChunkIndexOf(fs, cf, 512) == 1;
  }

  /** Reading one byte at offset 512 of the example file as written: the
      read stalls before copying anything. */
  method TailReadAsWritten() returns (r: ReadOutcome)
    ensures r == Stuck(512, [])
  {
    var fs, inode := TailImage(), TailInode();
    TailCounterexample();
    r := ReadInodeRange(fs, inode, 512, 1);
    assert Min(512 + 1, inode.DataSize()) == 513;
    assert !r.Done?;
    TailNothingPast(r.at);
    assert r.at == 512;
    TailAsWritten();
    assert !r.Failed?;
  }

  /** As written, no stretch of the example file starting at byte 512 is
      present, however short. */
  lemma TailNothingPast(at: nat)
    requires Present(BlockFetch(TailImage(), TailInode()), 512, 512, at)
    ensures at <= 512
  {
    TailAsWritten();
  }

  /** The same read over the corrected mapping returns the byte. */
  method TailReadIntended() returns (r: ReadOutcome)
    ensures r == Done([TailImage().store[2048]])
  {
    var fs, inode := TailImage(), TailInode();
    TailCounterexample();
    r := ReadInodeRangeIntended(fs, inode, 512, 1);
    assert r.Done? && |r.bytes| == 1;
    TailByte(r.bytes[0]);
    assert r.bytes == [r.bytes[0]];
  }

  /** The only byte the layout places at position 512 of the example file. */
  lemma TailByte(b: byte)
    requires LayoutByte(TailImage(), TailInode(), 512, b)
    ensures b == TailImage().store[2048]
  {
    TailAddress();
  }
}
