/** The chain table (FAT): 8-byte rows of two integers, indexed by block number. */
module Fat {
  import opened Image
  import opened Outcomes

  /** Byte width of one row, and the buffer length `struct.unpack('ll', ...)` accepts. */
  const RowWidth: nat := 8

  /** One row of the table; `next` is the successor block or a terminator. */
  datatype FatRow = FatRow(tag: int, next: int)

  /** The number of steps of `range(0, size, 8)`. */
  function RowCount(size: int): (n: nat)
    ensures size <= 8 * n
    ensures n == 0 || 8 * (n - 1) < size
  {
    if size <= 0 then 0 else (size + 7) / 8
  }

  /** The cursor position after `f.read(previous)` on a freshly opened image. */
  function Origin(image: seq<Byte>, previous: int): nat
    requires ReadCount(previous)
    ensures Origin(image, previous) <= |image|
  {
    Stop(image, 0, previous)
  }

  /** The row stored at byte offset `at` of the image. */
  function RowAt(image: seq<Byte>, at: nat): FatRow
    requires at + 8 <= |image|
  {
    FatRow(Int32At(image, at), Int32At(image, at + 4))
  }

  /** `FatBlock.read_inf`: skip `previous` bytes, read one 8-byte chunk per
      step of `range(0, size, 8)`, then unpack every chunk as two integers.
      Row `i` of the result is the pair of integers at `origin + 8 * i`.
      A skip count below -1 raises ValueError whatever the FAT size. */
  method ReadInf(image: seq<Byte>, size: int, previous: int) returns (r: Result<seq<FatRow>>)
    ensures !ReadCount(previous) ==> r == Err(ValueError)
    ensures ReadCount(previous) ==>
      var o, n := Origin(image, previous), RowCount(size);
      r.Ok? <==> n == 0 || o + 8 * n <= |image|
    ensures r.Ok? ==>
      var o := Origin(image, previous);
      && |r.value| == RowCount(size)
      && forall i :: 0 <= i < |r.value| ==>
           o + 8 * i + 8 <= |image| && r.value[i] == RowAt(image, o + 8 * i)
    ensures r.Err? && ReadCount(previous) ==> r.error == UnpackError
  {
    if !ReadCount(previous) {
      return Err(ValueError);
    }
    var o := Origin(image, previous);
    var n := RowCount(size);
    var fatBinary := ReadChunks(image, o, RowWidth, n);
    var fatTable: seq<FatRow> := [];
    for i := 0 to |fatBinary|
      invariant |fatTable| == i
      invariant forall j :: 0 <= j < i ==> o + 8 * j + 8 <= |image| && fatTable[j] == RowAt(image, o + 8 * j)
    {
      var note := fatBinary[i];
      if |note| != RowWidth {
        return Err(UnpackError);
      }
      ChunkInt32(image, o, RowWidth, i, 0);
      ChunkInt32(image, o, RowWidth, i, 4);
      fatTable := fatTable + [FatRow(Int32At(note, 0), Int32At(note, 4))];
    }
    if n > 0 {
      assert |fatBinary[n - 1]| == 8;
    }
    return Ok(fatTable);
  }
}
