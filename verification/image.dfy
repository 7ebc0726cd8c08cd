/** The single bounds-checked read primitive every physical read goes
    through, and little-endian decoding of the small integers the engine
    reads directly. The backing store is modelled by its contents `store`;
    the image size is what the caller declared when opening, which may differ
    from how many bytes the store really holds. */
module Image {
  import opened Ints
  import opened Errors

  /** What a complete read of `len` bytes at `offset` yields. */
  function ReadExact(store: seq<byte>, imageSize: uint64, offset: uint64, len: nat): (r: Result<seq<byte>>)
    ensures offset + len >= U64_LIMIT ==> r == Err(OutOfBounds(ReadRangeOverflow))
    ensures offset + len < U64_LIMIT && offset + len > imageSize ==> r == Err(OutOfBounds(ReadBeyondImage))
    ensures r.Ok? <==> offset + len <= imageSize && (len == 0 || offset + len <= |store|)
    ensures r == Err(OutOfBounds(UnexpectedEof)) <==> offset + len <= imageSize && 0 < len && |store| < offset + len
    ensures r.Ok? ==> |r.value| == len && forall i :: 0 <= i < len ==> r.value[i] == store[offset + i]
    ensures r.Err? ==> r.error.OutOfBounds?
  {
    if offset + len >= U64_LIMIT then Err(OutOfBounds(ReadRangeOverflow))
    else if offset + len > imageSize then Err(OutOfBounds(ReadBeyondImage))
    else if len == 0 then Ok([])
    else if offset + len > |store| then Err(OutOfBounds(UnexpectedEof))
    else Ok(store[offset..offset + len])
  }

  /** A backing store: its contents, and a schedule `grant` deciding how many
      bytes each `read_at` call hands back (short reads are allowed). */
  datatype Backing = Backing(bytes: seq<byte>, grant: (nat, nat) -> nat) {

    /** One `read_at(pos, buf)` call with `want` bytes of buffer left: at
        least one byte while data remains, zero only at end of data. */
    function ReadAt(pos: nat, want: nat): (n: nat)
      ensures n <= want
      ensures want > 0 && pos < |bytes| ==> 0 < n && pos + n <= |bytes|
      ensures pos >= |bytes| ==> n == 0
    {
      if want == 0 || pos >= |bytes| then 0
      else
        var cap := Min(want, |bytes| - pos);
        var g := grant(pos, want);
        if g < 1 then 1 else if g > cap then cap else g
    }
  }

  /** `read_exact_at`: bounds checks, then `read_at` calls until the buffer
      is full. `calls` counts the backing reads issued. */
  method ReadExactAt(backing: Backing, imageSize: uint64, offset: uint64, len: nat)
    returns (r: Result<seq<byte>>, calls: nat)
    ensures offset + len >= U64_LIMIT ==> r == Err(OutOfBounds(ReadRangeOverflow)) && calls == 0
    ensures offset + len < U64_LIMIT && offset + len > imageSize ==>
              r == Err(OutOfBounds(ReadBeyondImage)) && calls == 0
    ensures r.Ok? <==> offset + len <= imageSize && (len == 0 || offset + len <= |backing.bytes|)
    ensures r.Ok? ==> |r.value| == len && forall i :: 0 <= i < len ==> r.value[i] == backing.bytes[offset + i]
    ensures r == Err(OutOfBounds(UnexpectedEof)) <==>
              offset + len <= imageSize && 0 < len && |backing.bytes| < offset + len
    ensures r == ReadExact(backing.bytes, imageSize, offset, len)
  {
    if offset + len >= U64_LIMIT {
      return Err(OutOfBounds(ReadRangeOverflow)), 0;
    }
    if offset + len > imageSize {
      return Err(OutOfBounds(ReadBeyondImage)), 0;
    }
    var filled: nat := 0;
    var out: seq<byte> := [];
    calls := 0;
    while filled < len
      invariant filled <= len
      invariant |out| == filled
      invariant filled == 0 || offset + filled <= |backing.bytes|
      invariant forall i :: 0 <= i < filled ==> out[i] == backing.bytes[offset + i]
      invariant filled > 0 ==> calls > 0
      decreases len - filled
    {
      var n := backing.ReadAt(offset + filled, len - filled);
      calls := calls + 1;
      if n == 0 {
        return Err(OutOfBounds(UnexpectedEof)), calls;
      }
      out := out + backing.bytes[offset + filled..offset + filled + n];
      filled := filled + n;
    }
    if len > 0 {
      assert out == backing.bytes[offset..offset + len];
    }
    return Ok(out), calls;
  }

  /** `u16::from_le_bytes`. */
  function LE16(b: seq<byte>): uint16
    requires |b| == 2
  {
    b[0] as int + 0x100 * b[1] as int
  }

  /** `u32::from_le_bytes`. */
  function LE32(b: seq<byte>): uint32
    requires |b| == 4
  {
    b[0] as int + 0x100 * b[1] as int + 0x1_0000 * b[2] as int + 0x100_0000 * b[3] as int
  }

  /** Reinterpreting a u32 as an `i32` (two's complement). */
  function AsI32(v: uint32): (r: int)
    ensures -0x8000_0000 <= r < 0x8000_0000
    ensures r % U32_LIMIT == v
  {
    if v < 0x8000_0000 then v else v - U32_LIMIT
  }
}
