/** Directory records: a 12-byte NUL-padded name, the first block and the
    attribute, 20 bytes in all; and the root directory's batch of them. */
module Root {
  import opened Image
  import opened Outcomes
  import Fat

  /** Byte width of the name field (struct code '12s'). */
  const NameWidth: nat := 12

  /** Byte length that `struct.unpack('12sll', ...)` accepts. */
  const RecordWidth: nat := 20

  /** Attribute value that marks a directory; every other value is a file. */
  const FolderAttr: int := 1

  /** One directory record (the source's `File` named tuple). */
  datatype Entry = Entry(name: seq<Byte>, firstBlock: int, attr: int)

  predicate AllNul(s: seq<Byte>) { forall k :: 0 <= k < |s| ==> s[k] == 0 }

  /** Neither the first nor the last byte is NUL. */
  predicate NoEdgeNul(s: seq<Byte>) { s == [] || (s[0] != 0 && s[|s| - 1] != 0) }

  /** `.strip('\x00')`: remove NUL bytes from both ends. */
  function StripNul(s: seq<Byte>): (r: seq<Byte>)
    ensures NoEdgeNul(r)
    ensures |r| <= |s|
    ensures r == [] <==> AllNul(s)
    decreases |s|
  {
    if |s| > 0 && s[0] == 0 then StripNul(s[1..])
    else if |s| > 0 && s[|s| - 1] == 0 then StripNul(s[..|s| - 1])
    else s
  }

  /** Stripping removes NUL bytes only: the field is the stripped name with
      a run of `a` NULs before it and a run of `b` NULs after it. */
  lemma {:induction false} StripNulShape(s: seq<Byte>) returns (a: nat, b: nat)
    ensures s == Nuls(a) + StripNul(s) + Nuls(b)
    decreases |s|
  {
    if |s| > 0 && s[0] == 0 {
      var a', b' := StripNulShape(s[1..]);
      a, b := a' + 1, b';
      assert Nuls(a) == [0] + Nuls(a');
      calc {
        s;
        [s[0]] + s[1..];
        [0] + (Nuls(a') + StripNul(s) + Nuls(b'));
        Nuls(a) + StripNul(s) + Nuls(b);
      }
    } else if |s| > 0 && s[|s| - 1] == 0 {
      var a', b' := StripNulShape(s[..|s| - 1]);
      a, b := a', b' + 1;
      assert Nuls(b) == Nuls(b') + [0];
      calc {
        s;
        s[..|s| - 1] + [s[|s| - 1]];
        (Nuls(a') + StripNul(s) + Nuls(b')) + [0];
        Nuls(a) + StripNul(s) + Nuls(b);
      }
    } else {
      a, b := 0, 0;
      assert s == Nuls(0) + StripNul(s) + Nuls(0);
    }
  }

  /** Stripping undoes NUL padding on either side of a name that does not
      itself begin or end with NUL. */
  lemma {:induction false} StripNulOfPadded(a: nat, name: seq<Byte>, b: nat)
    requires NoEdgeNul(name)
    ensures StripNul(Nuls(a) + name + Nuls(b)) == name
    decreases a + b
  {
    var s := Nuls(a) + name + Nuls(b);
    if a > 0 {
      assert s[1..] == Nuls(a - 1) + name + Nuls(b);
      StripNulOfPadded(a - 1, name, b);
    } else if name == [] && b > 0 {
      assert s[1..] == Nuls(0) + name + Nuls(b - 1);
      StripNulOfPadded(0, name, b - 1);
    } else if b > 0 {
      assert s[0] == name[0];
      assert s[..|s| - 1] == Nuls(0) + name + Nuls(b - 1);
      StripNulOfPadded(0, name, b - 1);
    } else {
      assert s == name;
    }
  }

  /** The name field `b"report.txt\x00\x00"` decodes to `report.txt`. */
  lemma ReportTxtName()
    ensures var name := [114, 101, 112, 111, 114, 116, 46, 116, 120, 116];
      StripNul(name + [0, 0]) == name
  {
    var name: seq<Byte> := [114, 101, 112, 111, 114, 116, 46, 116, 120, 116];
    StripNulOfPadded(0, name, 2);
    assert Nuls(0) + name + Nuls(2) == name + [0, 0];
  }

  /** `struct.unpack('12sll', chunk)` followed by the name decoding. */
  function DecodeRecord(chunk: seq<Byte>): (r: Result<Entry>)
    ensures r.Ok? <==> |chunk| == RecordWidth
    ensures r.Err? ==> r.error == UnpackError
    ensures r.Ok? ==> && |r.value.name| <= NameWidth && NoEdgeNul(r.value.name)
                      && IsInt32(r.value.firstBlock) && IsInt32(r.value.attr)
  {
    if |chunk| != RecordWidth then Err(UnpackError)
    else Ok(Entry(StripNul(chunk[..NameWidth]), Int32At(chunk, 12), Int32At(chunk, 16)))
  }

  /** A name that fits the field and survives NUL stripping unchanged. */
  predicate ValidName(name: seq<Byte>) { |name| <= NameWidth && NoEdgeNul(name) }

  /** The 20 bytes of a record: the name padded with NULs to 12 bytes, then
      the first block and the attribute. */
  function EncodeRecord(e: Entry): (chunk: seq<Byte>)
    requires ValidName(e.name) && IsInt32(e.firstBlock) && IsInt32(e.attr)
    ensures |chunk| == RecordWidth
  {
    e.name + Nuls(NameWidth - |e.name|) + EncodeInt32(e.firstBlock) + EncodeInt32(e.attr)
  }

  /** Decoding an encoded record gives the record back. */
  lemma RecordRoundTrip(e: Entry)
    requires ValidName(e.name) && IsInt32(e.firstBlock) && IsInt32(e.attr)
    ensures DecodeRecord(EncodeRecord(e)) == Ok(e)
  {
    var chunk := EncodeRecord(e);
    assert chunk[..NameWidth] == Nuls(0) + e.name + Nuls(NameWidth - |e.name|);
    StripNulOfPadded(0, e.name, NameWidth - |e.name|);
    DecodeEncodeInt32(e.firstBlock);
    DecodeEncodeInt32(e.attr);
    Int32AtShift(EncodeInt32(e.firstBlock), chunk, 0, 12);
    Int32AtShift(EncodeInt32(e.attr), chunk, 0, 16);
  }

  /** The record decoded from the `i`-th chunk of a batch at `origin`. */
  function RecordAt(image: seq<Byte>, origin: nat, width: nat, i: nat): Result<Entry>
  {
    DecodeRecord(Chunk(image, origin, width, i))
  }

  /** The `i`-th record of the batch decodes and has a non-empty name. */
  predicate Live(image: seq<Byte>, origin: nat, width: nat, i: nat)
  {
    RecordAt(image, origin, width, i).Ok? && RecordAt(image, origin, width, i).value.name != []
  }

  /** Record `i` is the first of the batch that fails to decode: every
      record before it decodes with a non-empty name. */
  predicate FailsFirstAt(image: seq<Byte>, origin: nat, width: nat, i: nat)
  {
    RecordAt(image, origin, width, i).Err? && forall j :: 0 <= j < i ==> Live(image, origin, width, j)
  }

  /** `RootBlock.read_inf`: skip `previous` bytes, read `numFiles` records of
      `nameSize + firstBlockNum + atrSize` bytes each, then decode them in
      order, stopping before the first record whose name is empty. A skip
      count below -1 raises ValueError. */
  method ReadInf(image: seq<Byte>, numFiles: int, nameSize: nat, firstBlockNum: nat, atrSize: nat,
                 previous: int) returns (r: Result<seq<Entry>>)
    ensures !ReadCount(previous) ==> r == Err(ValueError)
    ensures ReadCount(previous) ==>
      var o, w, n := Fat.Origin(image, previous), nameSize + firstBlockNum + atrSize, Max(numFiles, 0);
      r.Ok? ==> && |r.value| <= n
                && (forall k :: 0 <= k < |r.value| ==> r.value[k].name != [])
                && (forall k :: 0 <= k < |r.value| ==> Live(image, o, w, k) && RecordAt(image, o, w, k) == Ok(r.value[k]))
                && (|r.value| < n ==> RecordAt(image, o, w, |r.value|).Ok? && RecordAt(image, o, w, |r.value|).value.name == [])
    ensures ReadCount(previous) ==>
      var o, w, n := Fat.Origin(image, previous), nameSize + firstBlockNum + atrSize, Max(numFiles, 0);
      r.Err? ==> r.error == UnpackError && exists i :: 0 <= i < n && FailsFirstAt(image, o, w, i)
  {
    if !ReadCount(previous) {
      return Err(ValueError);
    }
    var o := Fat.Origin(image, previous);
    var w := nameSize + firstBlockNum + atrSize;
    var n := Max(numFiles, 0);
    var rootFilesBinary := ReadChunks(image, o, w, n);
    var rootFiles: seq<Entry> := [];
    for i := 0 to |rootFilesBinary|
      invariant |rootFiles| == i
      invariant forall k :: 0 <= k < i ==> Live(image, o, w, k) && RecordAt(image, o, w, k) == Ok(rootFiles[k])
    {
      var file := DecodeRecord(rootFilesBinary[i]);
      assert file == RecordAt(image, o, w, i);
      if file.Err? {
        assert 0 <= i < n && FailsFirstAt(image, o, w, i);
        assert exists i' :: 0 <= i' < n && FailsFirstAt(image, o, w, i');
        assert file.error == UnpackError;
        return Err(file.error);
      }
      if file.value.name != [] {
        rootFiles := rootFiles + [file.value];
      } else {
        break;
      }
    }
    return Ok(rootFiles);
  }
}
