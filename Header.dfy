/** The superblock: three integers at the very start of the image. */
module Header {
  import opened Image
  import opened Outcomes

  /** Byte length that `struct.unpack('lll', ...)` accepts. */
  const HeaderFormatSize: nat := 3 * IntWidth

  /** The decoded superblock; `size` is the byte length the caller asked to read. */
  datatype Superblock = Superblock(size: int, blockSize: int, fatSize: int, rootSize: int)

  /** `struct.unpack('lll', info)`: the three integers of a 12-byte buffer. */
  function Unpack3(info: seq<Byte>): (t: seq<int>)
    requires |info| == HeaderFormatSize
    ensures |t| == 3
  {
    [Int32At(info, 0), Int32At(info, 4), Int32At(info, 8)]
  }

  /** `Superblock.read_inf`: read the first `size` bytes, unpack them as three
      integers and copy them into a list. */
  method ReadInf(image: seq<Byte>, size: int) returns (r: Result<seq<int>>)
    ensures r.Ok? <==> ReadCount(size) && |Take(image, 0, size)| == HeaderFormatSize
    ensures size == HeaderFormatSize ==> (r.Ok? <==> |image| >= HeaderFormatSize)
    ensures r.Ok? ==> r.value == [Int32At(image, 0), Int32At(image, 4), Int32At(image, 8)]
    ensures r.Err? ==> r.error == if ReadCount(size) then UnpackError else ValueError
  {
    if !ReadCount(size) {
      return Err(ValueError);
    }
    var info := Take(image, 0, size);
    if |info| != HeaderFormatSize {
      return Err(UnpackError);
    }
    var unpacked := Unpack3(info);
    var param: seq<int> := [];
    for k := 0 to |unpacked|
      invariant param == unpacked[..k]
    {
      param := param + [unpacked[k]];
    }
    Int32AtShift(info, image, 0, 0);
    Int32AtShift(info, image, 4, 4);
    Int32AtShift(info, image, 8, 8);
    return Ok(param);
  }

  /** `Superblock.__init__` without its report file: block size, FAT byte
      length and root capacity, in that order. */
  method Init(image: seq<Byte>, size: int) returns (r: Result<Superblock>)
    ensures r.Ok? <==> ReadCount(size) && |Take(image, 0, size)| == HeaderFormatSize
    ensures r.Ok? ==> r.value == Superblock(size, Int32At(image, 0), Int32At(image, 4), Int32At(image, 8))
    ensures r.Err? ==> r.error == if ReadCount(size) then UnpackError else ValueError
  {
    var info := ReadInf(image, size);
    if info.Err? {
      return Err(info.error);
    }
    return Ok(Superblock(size, info.value[0], info.value[1], info.value[2]));
  }

  /** The 12 header bytes of a superblock with the given fields. */
  function EncodeHeader(blockSize: int, fatSize: int, rootSize: int): (h: seq<Byte>)
    requires IsInt32(blockSize) && IsInt32(fatSize) && IsInt32(rootSize)
    ensures |h| == HeaderFormatSize
  {
    EncodeInt32(blockSize) + EncodeInt32(fatSize) + EncodeInt32(rootSize)
  }

  /** An image that starts with an encoded header decodes to that header's
      three fields, in order, whatever follows it. */
  lemma HeaderRoundTrip(blockSize: int, fatSize: int, rootSize: int, rest: seq<Byte>)
    requires IsInt32(blockSize) && IsInt32(fatSize) && IsInt32(rootSize)
    ensures var image := EncodeHeader(blockSize, fatSize, rootSize) + rest;
      && |Take(image, 0, HeaderFormatSize)| == HeaderFormatSize
      && Int32At(image, 0) == blockSize
      && Int32At(image, 4) == fatSize
      && Int32At(image, 8) == rootSize
  {
    var image := EncodeHeader(blockSize, fatSize, rootSize) + rest;
    DecodeEncodeInt32(blockSize);
    DecodeEncodeInt32(fatSize);
    DecodeEncodeInt32(rootSize);
    Int32AtShift(EncodeInt32(blockSize), image, 0, 0);
    Int32AtShift(EncodeInt32(fatSize), image, 0, 4);
    Int32AtShift(EncodeInt32(rootSize), image, 0, 8);
  }
}
