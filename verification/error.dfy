/** The error kinds of the decoder and its `Result` alias. The Rust variants
    carry human-readable messages; here each message is replaced by a small
    value naming which check failed, so that contracts can say which error a
    given input produces. */
module Errors {
  import opened Ints

  /** Which superblock field was rejected when an image is opened. */
  datatype SuperblockIssue =
    | BadMagic(magic: uint32)
    | BadBlockSizeBits(bits: uint8)

  /** Why a read or an address computation left the image. */
  datatype BoundsIssue =
    | ReadRangeOverflow        // offset + length does not fit in a u64
    | ReadBeyondImage          // offset + length exceeds the declared image size
    | UnexpectedEof            // the backing store returned zero bytes early
    | BlockOffsetOverflow      // block-addressed start does not fit in a u64
    | TailOffsetOverflow       // inline tail start does not fit in a u64
    | ChunkAddrOffsetOverflow  // chunk index entry position does not fit in a u64

  datatype Unsupported = CompressedLayout | ChunkIndexes

  datatype Corruption =
    | InvalidChunkFormat(format: uint32)
    | SparseChunk

  datatype Error =
    | InvalidSuperblock(issue: SuperblockIssue)
    | InvalidDirentFileType(fileType: uint8)
    | InvalidLayout(layout: uint8)
    | PathNotFound(path: string)
    | NotAFile(nid: uint64)
    | NotADirectory(message: string)
    | OutOfBounds(bounds: BoundsIssue)
    | OutOfRange(got: nat, max: nat)
    | NotSupported(feature: Unsupported)
    | CorruptedData(corruption: Corruption)

  datatype Result<+T> = Ok(value: T) | Err(error: Error) {

    predicate IsFailure() {
      Err?
    }

    function PropagateFailure<U>(): Result<U>
      requires Err?
    {
      Err(error)
    }

    function Extract(): T
      requires Ok?
    {
      value
    }
  }

  datatype Option<+T> = None | Some(value: T)
}
