/** The backing disk image: an immutable byte sequence read through
    Python-style sequential reads, and the fixed-width integers stored in it. */
module Image {

  /** One byte of the image. */
  type Byte = b: int | 0 <= b < 256

  /** Width in bytes of every integer field (struct code 'l', fixed at 4 bytes). */
  const IntWidth: nat := 4

  const TwoTo31: int := 0x8000_0000
  const TwoTo32: int := 0x1_0000_0000

  function Min(a: int, b: int): int { if a <= b then a else b }

  function Max(a: int, b: int): int { if a <= b then b else a }

  /** A run of `n` NUL bytes. */
  function Nuls(n: nat): (z: seq<Byte>)
    ensures |z| == n
  {
    seq(n, _ => 0)
  }

  /** The counts a buffered binary `f.read(n)` accepts: -1 (read to the end
      of the file) or a non-negative count. Any other negative count raises
      ValueError. */
  predicate ReadCount(n: int) { n >= -1 }

  /** The cursor position after `f.read(n)` from position `pos` of a file
      opened in binary mode: -1 reads to the end of the file, a non-negative
      count stops early at the end of the file. */
  function Stop(image: seq<Byte>, pos: nat, n: int): (q: nat)
    requires pos <= |image| && ReadCount(n)
    ensures pos <= q <= |image|
    ensures n >= 0 ==> q == Min(pos + n, |image|)
    ensures n == -1 ==> q == |image|
  {
    if n == -1 || pos + n > |image| then |image| else pos + n
  }

  /** The bytes returned by `f.read(n)` at position `pos`. */
  function Take(image: seq<Byte>, pos: nat, n: int): (r: seq<Byte>)
    requires pos <= |image| && ReadCount(n)
    ensures |r| == Stop(image, pos, n) - pos
  {
    image[pos..Stop(image, pos, n)]
  }

  /** The three counts of `f.read(skip1)`, `f.read(skip2)`, `f.read(n)` are all accepted. */
  predicate ReadsAccepted(skip1: int, skip2: int, n: int)
  {
    ReadCount(skip1) && ReadCount(skip2) && ReadCount(n)
  }

  /** The bytes returned by `open(...)`, `f.read(skip1)`, `f.read(skip2)`, `f.read(n)`. */
  function ReadAt(image: seq<Byte>, skip1: int, skip2: int, n: int): seq<Byte>
    requires ReadsAccepted(skip1, skip2, n)
  {
    Take(image, Stop(image, Stop(image, 0, skip1), skip2), n)
  }

  /** The slice image[offset .. offset + n], clipped at the end of the image. */
  function Slice(image: seq<Byte>, offset: nat, n: nat): (r: seq<Byte>)
    ensures |r| <= n
    ensures |r| == n <==> n == 0 || offset + n <= |image|
  {
    image[Min(offset, |image|)..Min(offset + n, |image|)]
  }

  /** The `i`-th of a run of `width`-byte chunks read one after the other from `origin`. */
  function Chunk(image: seq<Byte>, origin: nat, width: nat, i: nat): seq<Byte>
  {
    Slice(image, origin + width * i, width)
  }

  /** `for _ in range(count): chunks.append(f.read(width))` with the cursor at
      `origin`: chunk `j` is the clipped slice at `origin + width * j`. */
  method ReadChunks(image: seq<Byte>, origin: nat, width: nat, count: nat) returns (chunks: seq<seq<Byte>>)
    requires origin <= |image|
    ensures |chunks| == count
    ensures forall j :: 0 <= j < count ==> chunks[j] == Chunk(image, origin, width, j)
  {
    chunks := [];
    var pos := origin;
    for i := 0 to count
      invariant |chunks| == i
      invariant pos == Min(origin + width * i, |image|)
      invariant forall j :: 0 <= j < i ==> chunks[j] == Chunk(image, origin, width, j)
    {
      assert width * (i + 1) == width * i + width;
      chunks := chunks + [Take(image, pos, width)];
      pos := Stop(image, pos, width);
    }
  }

  /** The integer at offset `k` of a chunk is the integer at the chunk's own
      offset plus `k` in the image. */
  lemma ChunkInt32(image: seq<Byte>, origin: nat, width: nat, i: nat, k: nat)
    requires |Chunk(image, origin, width, i)| == width && k + IntWidth <= width
    ensures origin + width * i + k + IntWidth <= |image|
    ensures Int32At(Chunk(image, origin, width, i), k) == Int32At(image, origin + width * i + k)
  {
    var c := Chunk(image, origin, width, i);
    var at := origin + width * i;
    assert c == image[at..at + width];
    assert c[k..k + IntWidth] == image[at + k..at + k + IntWidth];
    Int32AtShift(c, image, k, at + k);
  }

  /** Skipping two non-negative counts and reading `n` bytes is the clipped
      slice at the sum of the two counts. */
  lemma ReadAtIsSlice(image: seq<Byte>, skip1: nat, skip2: nat, n: nat)
    ensures ReadAt(image, skip1, skip2, n) == Slice(image, skip1 + skip2, n)
  {
  }

  predicate IsInt32(x: int) { -TwoTo31 <= x < TwoTo31 }

  /** The unsigned little-endian value of four bytes. */
  function Unsigned32(b0: int, b1: int, b2: int, b3: int): int
  {
    b0 + 256 * b1 + 65536 * b2 + 16777216 * b3
  }

  /** The little-endian two's-complement integer in bytes s[k .. k + 4]. */
  function Int32At(s: seq<Byte>, k: nat): (x: int)
    requires k + IntWidth <= |s|
    ensures IsInt32(x)
    ensures x < 0 <==> s[k + 3] >= 128
  {
    var u := Unsigned32(s[k], s[k + 1], s[k + 2], s[k + 3]);
    if u >= TwoTo31 then u - TwoTo32 else u
  }

  /** The 4 little-endian two's-complement bytes of `x`. */
  function EncodeInt32(x: int): (b: seq<Byte>)
    requires IsInt32(x)
    ensures |b| == IntWidth
  {
    var u0 := if x < 0 then x + TwoTo32 else x;
    var u1 := u0 / 256;
    var u2 := u1 / 256;
    var u3 := u2 / 256;
    [u0 % 256, u1 % 256, u2 % 256, u3]
  }

  /** Division by 256 recovers both parts of `256 * q + r`. */
  lemma Split256(q: int, r: int)
    requires 0 <= r < 256
    ensures (256 * q + r) / 256 == q && (256 * q + r) % 256 == r
  {
  }

  /** Decoding an encoded integer gives the integer back. */
  lemma DecodeEncodeInt32(x: int)
    requires IsInt32(x)
    ensures Int32At(EncodeInt32(x), 0) == x
  {
    var u0 := if x < 0 then x + TwoTo32 else x;
    var u1 := u0 / 256;
    var u2 := u1 / 256;
    var u3 := u2 / 256;
    assert u0 == 256 * u1 + u0 % 256;
    assert u1 == 256 * u2 + u1 % 256;
    assert u2 == 256 * u3 + u2 % 256;
    assert u3 < 256;
    var b := EncodeInt32(x);
    assert u0 == Unsigned32(b[0], b[1], b[2], b[3]);
  }

  /** Encoding a decoded integer gives the four bytes back. */
  lemma EncodeDecodeInt32(s: seq<Byte>, k: nat)
    requires k + IntWidth <= |s|
    ensures EncodeInt32(Int32At(s, k)) == s[k..k + IntWidth]
  {
    var b0: int, b1: int, b2: int, b3: int := s[k], s[k + 1], s[k + 2], s[k + 3];
    var u0 := Unsigned32(b0, b1, b2, b3);
    Split256(b1 + 256 * b2 + 65536 * b3, b0);
    var u1 := b1 + 256 * b2 + 65536 * b3;
    assert u0 / 256 == u1 && u0 % 256 == b0;
    Split256(b2 + 256 * b3, b1);
    assert u1 / 256 == b2 + 256 * b3 && u1 % 256 == b1;
    Split256(b3, b2);
    assert (b2 + 256 * b3) / 256 == b3 && (b2 + 256 * b3) % 256 == b2;
    var b := EncodeInt32(Int32At(s, k));
    assert b == [b0, b1, b2, b3];
  }

  /** Decoding looks only at the four bytes it is given. */
  lemma Int32AtShift(s: seq<Byte>, t: seq<Byte>, k: nat, j: nat)
    requires k + IntWidth <= |s| && j + IntWidth <= |t|
    requires s[k..k + IntWidth] == t[j..j + IntWidth]
    ensures Int32At(s, k) == Int32At(t, j)
  {
    assert s[k] == s[k..k + IntWidth][0] && t[j] == t[j..j + IntWidth][0];
    assert s[k + 1] == s[k..k + IntWidth][1] && t[j + 1] == t[j..j + IntWidth][1];
    assert s[k + 2] == s[k..k + IntWidth][2] && t[j + 2] == t[j..j + IntWidth][2];
    assert s[k + 3] == s[k..k + IntWidth][3] && t[j + 3] == t[j..j + IntWidth][3];
  }
}
