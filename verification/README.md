# erofs-rs address-mapping engine, in Dafny

This project models the read path of the erofs-rs EROFS image reader, the part that
turns "bytes `[offset, offset + n)` of file `f`" into reads of the image:

- opening an image: reading the 128-byte superblock at byte 1024, then checking its
  magic number (0xE0F5E1E2) and its block-size exponent (9 to 24);
- the two address helpers: `block_offset` (a block number shifted by the block-size
  exponent) and `get_inode_offset` (the inode slot of a node id in the metadata
  area, 32 bytes per node id);
- `get_inode`: reading the 2-byte format field and then the compact (32-byte) or
  extended (64-byte) inode it selects;
- `get_inode_block` for every data layout:
  - FlatPlain: consecutive blocks;
  - FlatInline: consecutive blocks, except the last one, which is stored right
    after the inode;
  - ChunkBased: a table of little-endian i32 chunk addresses after the inode;
  - compressed layouts: rejected as not supported;
- `read_inode_range`: the loop that copies file bytes block by block;
- the path walk of the build without the standard library: split on '/', skip
  empty parts and ".", and look each remaining part up in the blocks of the
  current directory; then `open_path` and `open_inode_file`. The walk reads
  directory blocks with `get_inode_block` as written; `PathWalk.BlockRule` also
  gives the corrected scan of the finding below, for comparison;
- `read_exact_at`: bounds checks, then `read_at` calls until the buffer is full.

The image is its contents `store` plus the image size the caller declared. Byte-level
decoders of the on-disk records are outside the engine. They are function-valued
fields of `Types.Codec`, so every result holds for every decoder. These are the
superblock and inode struct decoders, the compact/extended classifier, the
chunk-format descriptor and the directory-entry lookup.

`Errors.Error` mirrors the error variants of erofs/src/error.rs:5-25. Each message
string is replaced by a small value naming the check that failed, so contracts can
say which error an input produces.

`Blocks.DataAddress` is the reference reading of the layouts: where byte `p` of a file
lives in the image. The main results are:

- every block `get_inode_block` returns consists of exactly those bytes
  (`Blocks.BlockFollowsLayout`);
- a completed `read_inode_range` returns exactly the file bytes the layout places
  at the requested positions (`RangeRead.ReadInodeRange`).

Files: `ints.dfy` (machine integers, powers of two, division facts), `error.dfy`,
`types.dfy`, `image.dfy`, `filesystem.dfy`, `blocks.dfy`, `range.dfy`, `findings.dfy`
(the corrected chunk-based block length and the image that shows the difference),
`path.dfy`.

## Model

| member | source | states |
|---|---|---|
| Image.ReadExact | erofs/src/filesystem.rs:350-376 | A range whose end overflows u64 is `ReadRangeOverflow` and one past the declared image size is `ReadBeyondImage`, both before any read. A read succeeds exactly when it lies inside the image size and, unless empty, inside the store; a short store is "unexpected EOF". Its bytes are the store's bytes at the offset. |
| Image.ReadExactAt | erofs/src/filesystem.rs:350-376 | The `read_at` retry loop fills the buffer with the store's bytes whatever short reads the backing grants. It fails with "unexpected EOF" exactly when the range lies inside the image size but the store ends before it does. Its result equals `ReadExact`. |
| Image.AsI32 | erofs/src/filesystem.rs:265-268 | `i32::from_le_bytes` is the two's-complement reading of the u32: in range, and congruent to it modulo 2^32. |
| FileSystem.FromImage | erofs/src/filesystem.rs:37-68 | Opening succeeds iff the superblock can be read and decoded, its magic is right and its block-size exponent is within 9..=24. The magic is checked before the exponent, each with its own error. The block size is 2^bits, between 512 and 16 MiB. |
| FileSystem.BlockOffset | erofs/src/filesystem.rs:345-347 | The left shift is multiplication by the block size and never leaves 64 bits. |
| FileSystem.InodeOffset | erofs/src/filesystem.rs:341-343 | The unchecked inode-offset computation is the exact slot `meta block offset + 32 * nid` whenever that slot fits in 64 bits. When the exact slot exceeds 64 bits, the result wraps to something smaller. |
| FileSystem.GetInode | erofs/src/filesystem.rs:117-152 | Fetching succeeds exactly when the format field, and then the compact or extended struct it selects, lie inside both the image size and the store, and the selected decoder accepts the struct. A decoder failure is returned unchanged. A fetched inode carries its node id and the record decoded from its slot. A format field outside the image is an out-of-bounds error. |
| FileSystem.OpenInodeFile | erofs/src/filesystem.rs:107-115 | Only regular files open. Any other inode gives `NotAFile` with its node id. |
| Blocks.PlainExtent | erofs/src/filesystem.rs:187-192 | Block `index` starts `index` blocks after the raw block address. Its start must fit in a u64. It holds `min(block size, rest of data)` bytes, so it is full-sized or it ends exactly at the end of the data. |
| Blocks.FlatPlainBlock | erofs/src/filesystem.rs:181-196 | An offset past the block count is `OutOfRange(index, count)`, and every offset inside the data is in range. Mapping succeeds exactly when the block is in range and its start fits in a u64. The block starts at the raw address plus the block's own start and never passes the end of the data. |
| Blocks.FlatInlineBlock | erofs/src/filesystem.rs:197-226 | Same as FlatPlain, except that the last block is the inline tail after the inode, and only the last block. A block before the last succeeds exactly when its start fits in a u64; the last one exactly when the tail start does. |
| Blocks.InlineTail | erofs/src/filesystem.rs:204-214 | The tail starts after the inode and its extended attributes, overflow checked. It is `data_size % block_size` bytes long, shorter than a block, and never passes the end of the data. |
| Blocks.TailWithinData | erofs/src/filesystem.rs:204-211 | The inline tail read for an offset inside the data stays inside the data. |
| Blocks.ChunkSize | erofs/src/filesystem.rs:244-245 | A chunk is 2^chunk_bits blocks. |
| Blocks.ChunkIndexOf | erofs/src/filesystem.rs:247 | The right shift picks the chunk: the block index divided by the blocks per chunk. |
| Blocks.ChunkFixed | erofs/src/filesystem.rs:248 | The block within the chunk: the block index modulo the blocks per chunk. |
| Blocks.ChunkEntry | erofs/src/filesystem.rs:253-268 | Chunk `index`'s table entry is the i32 stored 4*index bytes past the inode. It is read exactly when those 4 bytes lie inside the image size and the store. An entry position past u64 is an overflow error, and every failure is out of bounds. |
| Blocks.ChunkExtent | erofs/src/filesystem.rs:246-283 | A chunk index past the chunk count gives `OutOfRange`, and only that gives it. An unreadable entry passes its error on, and a non-positive entry gives the sparse-chunk error. Mapping succeeds exactly in the remaining case. The block then starts at block `entry + fixed`, whose u32 sum never wraps. Its length is the as-written one: the block size, or `data_size % block_size` in the last chunk. |
| Blocks.ChunkBlock | erofs/src/filesystem.rs:230-284 | Checks happen in order: an invalid format is `CorruptedData`, then an indexed format is `NotSupported`, then the chunk is mapped. The block never passes the end of the data. |
| Blocks.ChunkBlockWithinData | erofs/src/filesystem.rs:275-279 | Under either length rule, a block of a chunk-based file never extends past the end of the data. |
| Blocks.MapBlock | erofs/src/filesystem.rs:180-285 | The layout field picks the mapping, and an unrecognised layout is `InvalidLayout`. Both compressed layouts are `NotSupported`. Every block is at most one block long and inside the data. |
| Blocks.GetInodeBlock | erofs/src/filesystem.rs:179-286 | Mapping errors propagate unchanged. An extent ending past the declared image size fails out of bounds, for every layout. A block is returned exactly when its extent lies inside the image size and, unless empty, inside the store. Its bytes are the store's bytes at the extent, as many as the extent is long. |
| Blocks.BlockFollowsLayout | erofs/src/filesystem.rs:179-286 | Every byte of a fetched block is the store byte `DataAddress` assigns to that file position. |
| Blocks.ExtentAddress | erofs/src/filesystem.rs:179-286 | Byte `j` of a mapped block sits at the extent's start plus `j` under the reference reading, for every layout. |
| Blocks.PlainAddress | erofs/src/filesystem.rs:181-196 | The FlatPlain case of `ExtentAddress`: byte j of the block sits at the raw block address plus the file position. |
| Blocks.InlineAddress | erofs/src/filesystem.rs:197-226 | The FlatInline case of `ExtentAddress`: within the tail block, positions are counted from the inline data start. |
| Blocks.ChunkAddress | erofs/src/filesystem.rs:244-280 | The chunk-based case of `ExtentAddress`: block `entry + fixed` at byte `j` is the chunk base plus the position within the chunk. |
| Blocks.BlockLocal | erofs/src/filesystem.rs:182-183 | All offsets in the same block get the same extent and the same bytes. |
| RangeRead.ReadStep | erofs/src/filesystem.rs:167-173 | One loop step copies `n` bytes that are the file's bytes at the current offset and stays inside the data. |
| RangeRead.RangeLoop | erofs/src/filesystem.rs:164-176 | The copy loop over any block-local fetch has three outcomes. It completes with `min(len, size - offset)` copied bytes exactly when every requested byte is present in its block. A fetch error ends it at the first failing position. A block too short for the position asked for ends it with no progress, where the source loops forever. |
| RangeRead.BlockFetchFetchable | erofs/src/filesystem.rs:179-286 | `get_inode_block` is block-local and returns at most one block inside the data: what the copy loop relies on. |
| RangeRead.BlockByteFollowsLayout | erofs/src/filesystem.rs:167-171 | The byte the loop copies from a block for position `p` is the layout's byte `p`. |
| RangeRead.CopiedFollowsLayout | erofs/src/filesystem.rs:164-174 | Every byte the loop copied is the layout's byte at its file position. |
| RangeRead.ReadInodeRange | erofs/src/filesystem.rs:154-177 | An empty buffer or an offset at or past the end gives 0 bytes. A completed read returns `min(len, size - offset)` bytes, each the file byte the layout places there. It completes iff every requested byte is present. A failure reports the first failing block. A stall reports where, with the correct bytes before it. |
| IntendedBlocks.BlockPart | erofs/src/filesystem.rs:191-192 | The share of the data in the block holding an offset. It contains that offset, stays within a block and within the data. |
| IntendedBlocks.MapBlockIntended | erofs/src/filesystem.rs:275-279 | The corrected mapping: the same success, errors and start as `get_inode_block`. The chunk-based length becomes the block's share of the data, and every other layout is unchanged. |
| IntendedBlocks.GetInodeBlockIntended | erofs/src/filesystem.rs:275-282 | The corrected block is the store's bytes at the corrected extent. As for `get_inode_block`, an extent past the image size fails out of bounds, and the read succeeds exactly inside the image size and the store. |
| IntendedBlocks.IntendedWithinData | erofs/src/filesystem.rs:275-279 | A corrected block stays inside the data. |
| IntendedBlocks.InlineHoldsOffset | erofs/src/filesystem.rs:204-214 | When the data is not a whole number of blocks, the FlatInline block fetched for an offset inside the data contains that offset. |
| IntendedBlocks.IntendedHoldsOffset | erofs/src/filesystem.rs:275-279 | Every corrected block fetched for an offset inside the data contains that offset, except a FlatInline whole-block tail. |
| IntendedBlocks.IntendedFetchFetchable | erofs/src/filesystem.rs:275-279 | The corrected fetch is block-local and inside the data. |
| IntendedBlocks.IntendedBlockLocal | erofs/src/filesystem.rs:182-183 | All offsets in the same block get the same corrected block. |
| IntendedBlocks.IntendedByteFollowsLayout | erofs/src/filesystem.rs:275-279 | Bytes of corrected blocks are the layout's bytes. |
| IntendedBlocks.IntendedStallsOnlyOnWholeTail | erofs/src/filesystem.rs:167-173 | With the corrected mapping, the loop can meet a fetched block that does not contain its position only in a FlatInline file whose size is a whole number of blocks. |
| IntendedBlocks.IntendedCopiedFollowsLayout | erofs/src/filesystem.rs:164-174 | Bytes copied from corrected blocks are the layout's bytes at their file positions. |
| IntendedBlocks.ReadInodeRangeIntended | erofs/src/filesystem.rs:154-177 | Over the corrected mapping, a range read never stalls, except FlatInline with a whole-block tail. It completes exactly when every byte is present and returns the layout's bytes. |
| IntendedBlocks.TailChunkTable | erofs/src/filesystem.rs:253-268 | In the example image, the file's chunk table starts at byte 32 and sends chunk 0 to block 3 and chunk 1 to block 4. |
| IntendedBlocks.TailOpens | erofs/src/filesystem.rs:37-68 | Opening the example store with the example decoders succeeds and yields the example image, so the program can reach it. |
| IntendedBlocks.TailInodeRead | erofs/src/filesystem.rs:117-140 | Node 0 of the example image is the example file, read as a compact inode at byte 0. |
| IntendedBlocks.TailFirstBlock | erofs/src/filesystem.rs:244-282 | The first block of the example file is the whole of block 3 under either length rule. |
| IntendedBlocks.TailAsWritten | erofs/src/filesystem.rs:275-279 | In the example, the block for offset 512 is mapped as written to an empty extent at byte 2048, so file byte 512 is in no block. |
| IntendedBlocks.TailIntended | erofs/src/filesystem.rs:275-279 | Corrected, the same block is the 512 bytes of block 4. |
| IntendedBlocks.TailCounterexample | erofs/src/filesystem.rs:275-279 | File byte 512 of the example is missing as written and present corrected. |
| IntendedBlocks.TailAddress | erofs/src/filesystem.rs:244-280 | File byte 512 of the example lives at image byte 2048. |
| IntendedBlocks.TailReadAsWritten | erofs/src/filesystem.rs:164-174 | Reading one byte at offset 512 of the example stalls before copying anything. |
| IntendedBlocks.TailReadIntended | erofs/src/filesystem.rs:154-177 | The same read over the corrected mapping returns image byte 2048. |
| PathWalk.Split | erofs/src/filesystem.rs:320 | `split('/')` yields at least one part and no part contains '/'. |
| PathWalk.JoinSplit | erofs/src/filesystem.rs:320 | Splitting loses nothing: the parts joined with '/' give back the path. |
| PathWalk.SplitJoin | erofs/src/filesystem.rs:320 | Joining loses nothing: separator-free parts come back unchanged from splitting their join. |
| PathWalk.SplitConcat | erofs/src/filesystem.rs:320 | The parts of `a/b` are the parts of `a` followed by those of `b`. |
| PathWalk.FirstAnswer | erofs/src/filesystem.rs:329-336 | The block loop's result is "not found" iff every block says so. Otherwise it is the answer of the first block that did not say "not found", found or failed. |
| PathWalk.DirBlockOffset | erofs/src/filesystem.rs:329-330 | The offset `i * block_size` of a directory block lies inside the data. |
| PathWalk.DirBlock | erofs/src/filesystem.rs:330 | The directory scan fetches blocks with `get_inode_block` as written (`AsWritten`) or with the corrected chunk-based length (`Corrected`). The two agree on every directory that is not chunk-based. |
| PathWalk.CorrectedDirBlockCovers | erofs/src/filesystem.rs:329-330 | With the corrected length, every block the scan reads from a FlatPlain or chunk-based directory is its whole share of the data, `min(block size, data size - i * block size)`. |
| PathWalk.LookupInDir | erofs/src/filesystem.rs:325-336 | With `AsWritten`, this is the program's lookup of one part. A directory without blocks contains nothing. A name is not found iff every block says so. Otherwise the first block whose lookup found it or failed decides. |
| PathWalk.LookupRulesAgree | erofs/src/filesystem.rs:325-336 | Outside chunk-based directories the corrected block length changes no lookup. |
| PathWalk.DecidingBlock | erofs/src/filesystem.rs:329-335 | The deciding block of a lookup exists and every earlier block said "not found". |
| PathWalk.Significant | erofs/src/filesystem.rs:321-323 | The parts the walk looks up are never empty or ".", every other part is kept, and there are no more of them than parts. `SignificantOne` and `SignificantAppend` fix order and multiplicity. |
| PathWalk.SignificantOne | erofs/src/filesystem.rs:321-323 | A single part is looked up exactly when it is neither empty nor ".". |
| PathWalk.SignificantAppend | erofs/src/filesystem.rs:320-323 | The parts looked up for `p + q` are those of `p` followed by those of `q`: the walk keeps the path's order and repeats. |
| PathWalk.Step | erofs/src/filesystem.rs:324-336 | One step reads the inode of the current node and looks the part up in its blocks. An unreadable inode ends the walk with its error, and an inode without blocks gives "not found". |
| PathWalk.Walk | erofs/src/filesystem.rs:319-337 | A walk over parts that are all empty or "." stays at its starting node. |
| PathWalk.WalkAnswers | erofs/src/filesystem.rs:319-337 | Wherever a walk ends other than where it started, it ends with the answer some step gave for one of its significant parts: a node found, "not found", or an error. |
| PathWalk.WalkSignificant | erofs/src/filesystem.rs:320-323 | Empty and "." parts do not change the walk's result. |
| PathWalk.WalkSkipsAll | erofs/src/filesystem.rs:320-323 | Parts that are all empty or "." leave the walk at its starting node. |
| PathWalk.WalkAppend | erofs/src/filesystem.rs:319-337 | Walking `p + q` is walking `p`, then walking `q` from the node reached. An error or a missing part in `p` ends the walk with that result. |
| PathWalk.GetPathInodeStr | erofs/src/filesystem.rs:318-339 | Resolution walks from the root node with `get_inode_block` as written. Walk errors propagate and a missing part gives `None`. A reached node is fetched as an inode carrying that node id. A path of only empty and "." parts gives the root inode, and "not found" needs at least one part that names something. |
| PathWalk.RootPath | erofs/src/filesystem.rs:319-338 | Every spelling of the root ("", "/", ".", "./", "//.", ...) resolves to the root inode. |
| PathWalk.ResolveConcat | erofs/src/filesystem.rs:318-339 | Resolving `a/b` is resolving `a` and then resolving `b` from there. |
| PathWalk.OpenPath | erofs/src/filesystem.rs:85-91 | Opening a path succeeds iff it resolves to a regular file. An unresolved path gives `PathNotFound` carrying the path. Resolution errors propagate. |
| PathWalk.TailDirFirst | erofs/src/filesystem.rs:329-335 | Read as a directory, the first block of the example file is full under both rules and does not hold "x". |
| PathWalk.TailDirSecond | erofs/src/filesystem.rs:275-279 | The second block is empty as written, so "x" is not in it; corrected, it is block 4 and names node 5. |
| PathWalk.TailLookup | erofs/src/filesystem.rs:325-336 | As written, looking "x" up in the example directory finds nothing; the corrected scan finds node 5. |
| PathWalk.TailPathAsWritten | erofs/src/filesystem.rs:318-339 | The program reports the path "x" of the example image as not found, and `open_path` gives `PathNotFound`. |
| PathWalk.TailPathCorrected | erofs/src/filesystem.rs:318-339 | The corrected walk resolves "x" in the example image to node 5. |

## Left out

- Asynchrony, `Arc` sharing and `Clone` are left out: every operation is a pure function of the image, or a method without state.
- The `std` build's `new`, `open` and `get_path_inode` are left out. They walk `Path::components` instead of splitting on '/', and `std::path` is not part of this model. `open_str` only forwards to `open_path`, and the `super_block` and `block_size` accessors only return fields.
- The on-disk struct decoders, `Inode::is_compact_format`, `ChunkBasedFormat` and `dirent::find_nodeid_by_name` are not part of this model. They are parameters, the fields of `Types.Codec`.
- Error messages are left out: each string payload is replaced by a value naming the failed check. `NotAFile` carries the node id. `Display` is not modelled.
- `read_at` I/O errors are left out: the backing store in `Image.ReadExactAt` never fails, it only grants short reads.
- `usize` is taken to be 64 bits wide.
- Overflow panics of debug builds are left out. `get_inode_offset` wraps modulo 2^64 as in a release build. The u32 sum `chunk_addr + chunk_fixed` is written with its wrap-around and proved never to wrap. The remaining unchecked `usize` arithmetic stays far below 2^64, because block and chunk indices are bounded by the 64-bit data size divided by at least 512. That arithmetic is modelled on unbounded integers.
- Types.ChunkBits: the chunk-size exponent is taken as the format's 5-bit field (0..31). The no-wrap proof of `chunk_addr + chunk_fixed` and the bound on `1usize << chunk_bits` rest on it.
- RangeRead.ReadInodeRange: returns the copied bytes instead of filling the caller's buffer. Where the source loops forever, on a block too short for the position asked for, it returns a `Stuck` outcome. A failed read does not report the bytes already written into the buffer.
- IntendedBlocks.ReadInodeRangeIntended: makes no promise that a FlatInline file whose size is a whole number of blocks does not stall. `get_inode_block` maps the last block of such a file to a zero-length inline tail (erofs/src/filesystem.rs:204-211). The model keeps that behaviour as written.
- FileSystem.GetInode: names the read error only for a format field outside the image. A struct read that fails is only known to be an error.

## Findings

| source | as written | input that shows it | evidently intended | confidence | as-written member | corrected member |
|---|---|---|---|---|---|---|
| erofs/src/filesystem.rs:275-279 | every block of the last chunk of a chunk-based file gets length `data_size % block_size` | `IntendedBlocks.TailImage`, which opening accepts (`TailOpens`): 512-byte blocks, one-block chunks, a 1024-byte chunk-based file at node 0 with chunks at blocks 3 and 4. `read_inode_range` of 1 byte at offset 512 gets an empty block and never advances | each block is as long as its share of the data, `min(block_size, data_size - block start)`, as FlatPlain computes at lines 191-192 | high; not executed | IntendedBlocks.TailReadAsWritten | IntendedBlocks.ReadInodeRangeIntended |
| erofs/src/filesystem.rs:329-335 | the directory scan of `get_path_inode_str` fetches chunk-based blocks with the length of lines 275-279, so every block of the last chunk is cut to `data_size % block_size` bytes and the entries past that cut are never looked at | the same image read as a directory whose second block names node 5 "x": `get_path_inode_str("x")` is `Ok(None)` and `open_path("x")` is `PathNotFound` | every directory block is scanned in full | high; not executed | PathWalk.TailPathAsWritten | PathWalk.CorrectedDirBlockCovers |
