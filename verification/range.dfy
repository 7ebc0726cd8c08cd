/** `read_inode_range`: copy file bytes starting at a logical offset into a
    caller buffer, one block at a time, until the buffer is full or the data
    ends. The loop is stated once, over any block fetcher that behaves like
    `get_inode_block`; `ReadInodeRange` instantiates it with the real one. */
module RangeRead {
  import opened Ints
  import opened Errors
  import opened Types
  import opened FileSystem
  import opened Blocks

  /** How a range read ends. `Done(bytes)` is `Ok(bytes.len())` with `bytes`
      copied to the front of the buffer. `Failed(at, e)` is the error of the
      block fetch at offset `at`. `Stuck(at, bytes)` means the block fetched at
      `at` has no byte at that position: the source loop then copies nothing
      and goes round forever; `bytes` is what was copied before. */
  datatype ReadOutcome =
    | Done(bytes: seq<byte>)
    | Failed(at: nat, error: Error)
    | Stuck(at: nat, bytes: seq<byte>)

  /** A block fetcher: the block holding a logical offset, as a byte string. */
  type Fetch = uint64 -> Result<seq<byte>>

  /** What the loop needs of a fetcher, all of which `get_inode_block`
      provides: blocks are at most `bs` long, every offset of one block gets
      the same answer, and a block fetched inside the data ends inside it. */
  predicate Fetchable(fetch: Fetch, bs: nat, ds: uint64) {
    && bs > 0
    && (forall o: uint64 :: fetch(o).Ok? ==> |fetch(o).value| <= bs)
    && (forall o: uint64, o': uint64 {:trigger SameBlock(bs, o, o')} :: SameBlock(bs, o, o') ==> fetch(o) == fetch(o'))
    && (forall o: uint64 :: o < ds && fetch(o).Ok? ==> o - o % bs + |fetch(o).value| <= ds)
  }

  /** Offsets `o` and `o'` fall in the same block of size `bs`. */
  predicate SameBlock(bs: nat, o: nat, o': nat)
    requires bs > 0
  {
    o / bs == o' / bs
  }

  /** File byte `p` as the fetcher presents it: byte `p % bs` of the block
      holding `p`, when that block is that long. */
  function ByteOf(fetch: Fetch, bs: nat, p: nat): Option<byte>
    requires bs > 0
  {
    if p < U64_LIMIT && fetch(p).Ok? && p % bs < |fetch(p).value|
    then Some(fetch(p).value[p % bs]) else None
  }

  /** `bytes[from..]` are the fetcher's bytes at file positions `fo + from`
      onwards. */
  predicate Copied(fetch: Fetch, bs: nat, fo: nat, bytes: seq<byte>, from: nat)
    requires bs > 0
  {
    forall k :: from <= k < |bytes| ==> ByteOf(fetch, bs, fo + k) == Some(bytes[k])
  }

  /** The bytes copied out of one block are the fetcher's bytes at the
      corresponding file positions. */
  lemma ReadStep(fetch: Fetch, bs: nat, ds: uint64, o: uint64, n: nat)
    requires Fetchable(fetch, bs, ds) && o < ds
    requires fetch(o).Ok? && o % bs + n <= |fetch(o).value|
    ensures o + n <= ds
    ensures Copied(fetch, bs, o, fetch(o).value[o % bs..o % bs + n], 0)
  {
    var block := fetch(o).value;
    var piece := block[o % bs..o % bs + n];
    forall k | 0 <= k < |piece|
      ensures ByteOf(fetch, bs, o + k) == Some(piece[k])
    {
      InBlock(o, bs, k);
      var o': uint64 := o + k;
      assert SameBlock(bs, o', o);
    }
  }

  /** Every position in `[from, to)` is present in its block. */
  predicate Present(fetch: Fetch, bs: nat, from: nat, to: nat)
    requires bs > 0
  {
    forall p :: from <= p < to ==> ByteOf(fetch, bs, p).Some?
  }

  /** Appending the bytes of one pass keeps everything copied so far
      accounted for. */
  lemma CopiedAppend(fetch: Fetch, bs: nat, fo: nat, out: seq<byte>, piece: seq<byte>)
    requires bs > 0 && Copied(fetch, bs, fo, out, 0) && Copied(fetch, bs, fo + |out|, piece, 0)
    ensures Copied(fetch, bs, fo, out + piece, 0)
  {
    var out' := out + piece;
    forall k | 0 <= k < |out'|
      ensures ByteOf(fetch, bs, fo + k) == Some(out'[k])
    {
      if k >= |out| {
        assert out'[k] == piece[k - |out|];
        assert ByteOf(fetch, bs, fo + |out| + (k - |out|)) == Some(piece[k - |out|]);
      }
    }
  }

  /** Copied bytes are present bytes. */
  lemma CopiedPresent(fetch: Fetch, bs: nat, fo: nat, out: seq<byte>)
    requires bs > 0 && Copied(fetch, bs, fo, out, 0)
    ensures Present(fetch, bs, fo, fo + |out|)
  {
    forall p | fo <= p < fo + |out|
      ensures ByteOf(fetch, bs, p).Some?
    {
      assert ByteOf(fetch, bs, fo + (p - fo)) == Some(out[p - fo]);
    }
  }

  /** The loop of `read_inode_range` over a fetcher: copy from each block
      the bytes between the current offset and the end of the block, the
      buffer or the data, whichever comes first. The source loop never ends
      when a pass copies nothing; that case returns `Stuck` here. */
  method RangeLoop(fetch: Fetch, bs: nat, ds: uint64, fo: uint64, outLen: nat) returns (r: ReadOutcome)
    requires Fetchable(fetch, bs, ds) && fo <= ds
    ensures r.Done? ==> |r.bytes| == Min(outLen, ds - fo) && Copied(fetch, bs, fo, r.bytes, 0)
    ensures r.Failed? ==> fo <= r.at < Min(fo + outLen, ds) && fetch(r.at) == Err(r.error)
    ensures r.Failed? ==> Present(fetch, bs, fo, r.at)
    ensures r.Stuck? ==> r.at == fo + |r.bytes| < Min(fo + outLen, ds) && Copied(fetch, bs, fo, r.bytes, 0)
    ensures r.Stuck? ==> fetch(r.at).Ok? && ByteOf(fetch, bs, r.at).None?
    ensures r.Done? <==> Present(fetch, bs, fo, Min(fo + outLen, ds))
  {
    var out: seq<byte> := [];
    var offset: uint64 := fo;
    while |out| < outLen && offset < ds
      invariant offset == fo + |out| <= ds && |out| <= outLen
      invariant Copied(fetch, bs, fo, out, 0)
      decreases outLen - |out|
    {
      var fetched := fetch(offset);
      if fetched.Err? {
        CopiedPresent(fetch, bs, fo, out);
        assert ByteOf(fetch, bs, offset).None?;
        return Failed(offset, fetched.error);
      }
      var block := fetched.value;
      var inBlock := offset % bs;
      var available := if |block| > inBlock then |block| - inBlock else 0;
      var n := Min(outLen - |out|, available);
      if n == 0 {
        assert ByteOf(fetch, bs, offset).None?;
        return Stuck(offset, out);
      }
      ReadStep(fetch, bs, ds, offset, n);
      CopiedAppend(fetch, bs, fo, out, block[inBlock..inBlock + n]);
      out := out + block[inBlock..inBlock + n];
      offset := offset + n;
    }
    CopiedPresent(fetch, bs, fo, out);
    return Done(out);
  }

  // ---------------------------------------------------------------------
  // The engine's range read

  /** `get_inode_block` of one inode, as a fetcher. */
  function BlockFetch(fs: EroFS, inode: Inode): (f: Fetch)
    requires fs.Valid()
    ensures forall o: uint64 :: f(o) == GetInodeBlock(fs, inode, o)
  {
    (o: uint64) => GetInodeBlock(fs, inode, o)
  }

  lemma BlockFetchFetchable(fs: EroFS, inode: Inode)
    requires fs.Valid()
    ensures Fetchable(BlockFetch(fs, inode), fs.blockSize, inode.DataSize())
  {
    var f, bs := BlockFetch(fs, inode), fs.blockSize;
    forall o: uint64, o': uint64 | SameBlock(bs, o, o')
      ensures f(o) == f(o')
    {
      BlockLocal(fs, inode, o, o');
    }
    forall o: uint64 | o < inode.DataSize() && f(o).Ok?
      ensures o - o % bs + |f(o).value| <= inode.DataSize()
    {
      DivModBasics(o, bs);
    }
  }

  /** `b` is file byte `p` as the layout places it in the image. */
  predicate LayoutByte(fs: EroFS, inode: Inode, p: nat, b: byte)
    requires fs.Valid()
  {
    var a := DataAddress(fs, inode, p);
    a.Some? && a.value < |fs.store| && b == fs.store[a.value]
  }

  /** A byte of a fetched block is the file byte the layout places at its
      position. */
  lemma BlockByteFollowsLayout(fs: EroFS, inode: Inode, p: uint64)
    requires fs.Valid() && GetInodeBlock(fs, inode, p).Ok?
    requires p % fs.blockSize < |GetInodeBlock(fs, inode, p).value|
    ensures LayoutByte(fs, inode, p, GetInodeBlock(fs, inode, p).value[p % fs.blockSize])
  {
    var b := GetInodeBlock(fs, inode, p).value;
    var j := p % fs.blockSize;
    DivModBasics(p, fs.blockSize);
    assert BlockStart(fs, p) + j == p;
    BlockFollowsLayout(fs, inode, p);
    assert ByteFollowsLayout(fs, inode, p, b, j);
    assert DataAddress(fs, inode, BlockStart(fs, p) + j) == DataAddress(fs, inode, p);
  }

  /** Every byte copied through `BlockFetch` is the file byte the layout
      places at its position. */
  lemma CopiedFollowsLayout(fs: EroFS, inode: Inode, fo: nat, bytes: seq<byte>)
    requires fs.Valid() && Copied(BlockFetch(fs, inode), fs.blockSize, fo, bytes, 0)
    ensures forall k :: 0 <= k < |bytes| ==> LayoutByte(fs, inode, fo + k, bytes[k])
  {
    forall k | 0 <= k < |bytes|
      ensures LayoutByte(fs, inode, fo + k, bytes[k])
    {
      var p := fo + k;
      var f := BlockFetch(fs, inode);
      assert ByteOf(f, fs.blockSize, p) == Some(bytes[k]);
      assert p < U64_LIMIT;
      assert f(p) == GetInodeBlock(fs, inode, p);
      assert GetInodeBlock(fs, inode, p).Ok? && p % fs.blockSize < |GetInodeBlock(fs, inode, p).value|;
      assert bytes[k] == GetInodeBlock(fs, inode, p).value[p % fs.blockSize];
      BlockByteFollowsLayout(fs, inode, p);
    }
  }

  /** `read_inode_range`: nothing to do for an empty buffer or an offset at
      or past the end of the data; otherwise run the block loop. A completed
      read returns exactly the file bytes the layout places at the requested
      positions, as many as the buffer and the data allow. */
  method ReadInodeRange(fs: EroFS, inode: Inode, fo: uint64, outLen: nat) returns (r: ReadOutcome)
    requires fs.Valid()
    ensures outLen == 0 || fo >= inode.DataSize() ==> r == Done([])
    ensures r.Done? ==> |r.bytes| == if fo >= inode.DataSize() then 0 else Min(outLen, inode.DataSize() - fo)
    ensures r.Done? ==> forall k :: 0 <= k < |r.bytes| ==> LayoutByte(fs, inode, fo + k, r.bytes[k])
    ensures r.Done? <==> outLen == 0 || fo >= inode.DataSize() ||
                         Present(BlockFetch(fs, inode), fs.blockSize, fo, Min(fo + outLen, inode.DataSize()))
    ensures r.Failed? ==> fo <= r.at < inode.DataSize() && GetInodeBlock(fs, inode, r.at) == Err(r.error)
    ensures r.Failed? ==> Present(BlockFetch(fs, inode), fs.blockSize, fo, r.at)
    ensures r.Stuck? ==>
              && fo <= r.at < inode.DataSize()
              && GetInodeBlock(fs, inode, r.at).Ok?
              && |GetInodeBlock(fs, inode, r.at).value| <= r.at % fs.blockSize
    ensures r.Stuck? ==>
              && r.at == fo + |r.bytes|
              && Present(BlockFetch(fs, inode), fs.blockSize, fo, r.at)
              && forall k :: 0 <= k < |r.bytes| ==> LayoutByte(fs, inode, fo + k, r.bytes[k])
  {
    if outLen == 0 || fo >= inode.DataSize() {
      return Done([]);
    }
    BlockFetchFetchable(fs, inode);
    r := RangeLoop(BlockFetch(fs, inode), fs.blockSize, inode.DataSize(), fo, outLen);
    if r.Done? || r.Stuck? {
      CopiedFollowsLayout(fs, inode, fo, r.bytes);
    }
    if r.Stuck? {
      CopiedPresent(BlockFetch(fs, inode), fs.blockSize, fo, r.bytes);
    }
  }
}
