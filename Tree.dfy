/** Directory expansion (`find_inner_file`): every entry maps to "not a
    folder" or to the expansion of the records read from its first block. */
module Tree {
  import opened Image
  import opened Outcomes
  import opened Fat
  import opened Root
  import Chain

  /** The value stored for an entry: the string 'Not Folder', or the nested map. */
  datatype Node = NotFolder | Folder(items: seq<Item>)

  /** One key/value pair of a map, in insertion order. */
  datatype Item = Item(entry: Entry, node: Node)

  /** The shared `inner_content` variable: first a list of records, then
      rebound to the map returned by the recursive call. */
  datatype Content = Records(records: seq<Entry>) | Mapping(map_: seq<Item>)

  /** The keys of a map, in insertion order. */
  function Keys(items: seq<Item>): (ks: seq<Entry>)
    ensures |ks| == |items|
    ensures forall k :: 0 <= k < |items| ==> ks[k] == items[k].entry
  {
    seq(|items|, k requires 0 <= k < |items| => items[k].entry)
  }

  predicate Distinct(s: seq<Entry>) { forall i, j :: 0 <= i < j < |s| ==> s[i] != s[j] }

  /** The distinct elements of `s` in order of first occurrence: the key
      order of a dictionary filled by assigning the elements of `s` in turn. */
  function Dedup(s: seq<Entry>): (d: seq<Entry>)
    ensures Distinct(d)
    ensures forall x :: x in d <==> x in s
  {
    if s == [] then []
    else
      var d := Dedup(s[..|s| - 1]);
      if s[|s| - 1] in d then d else d + [s[|s| - 1]]
  }

  /** The position of `key` among the keys of `items`. */
  function KeyIndex(items: seq<Item>, key: Entry): (i: nat)
    requires key in Keys(items)
    ensures i < |items| && items[i].entry == key
    ensures forall j :: 0 <= j < i ==> items[j].entry != key
  {
    if items[0].entry == key then 0
    else
      assert Keys(items)[1..] == Keys(items[1..]);
      1 + KeyIndex(items[1..], key)
  }

  /** `file_map[key] = node`: an existing key keeps its position and gets the
      new value; a new key is added at the end. */
  function Assign(items: seq<Item>, key: Entry, node: Node): (r: seq<Item>)
    requires Distinct(Keys(items))
    ensures Keys(r) == if key in Keys(items) then Keys(items) else Keys(items) + [key]
    ensures forall k :: 0 <= k < |r| ==>
      r[k] == if k < |items| && items[k].entry != key then items[k] else Item(key, node)
  {
    if key in Keys(items) then
      var i := KeyIndex(items, key);
      assert forall k :: 0 <= k < |items| && k != i ==> Keys(items)[k] != Keys(items)[i];
      assert forall k :: 0 <= k < |items| && k != i ==> items[k].entry != key;
      var r := items[..i] + [Item(key, node)] + items[i + 1..];
      assert forall k :: 0 <= k < |r| ==> r[k] == if k == i then Item(key, node) else items[k];
      assert Keys(r) == Keys(items);
      r
    else
      items + [Item(key, node)]
  }

  predicate IsDir(e: Entry) { e.attr == FolderAttr }

  /** The number of directory entries in `s`. */
  function CountDirs(s: seq<Entry>): nat
  {
    if s == [] then 0 else CountDirs(s[..|s| - 1]) + (if IsDir(s[|s| - 1]) then 1 else 0)
  }

  lemma {:induction false} CountDirsPrefix(s: seq<Entry>, i: nat)
    requires i <= |s|
    ensures CountDirs(s[..i]) <= CountDirs(s)
    decreases |s|
  {
    if i < |s| {
      assert s[..|s| - 1][..i] == s[..i];
      CountDirsPrefix(s[..|s| - 1], i);
    } else {
      assert s[..i] == s;
    }
  }

  /** Python's list indexing `fat_table[i]`: negative indices count from the
      end, anything else outside the list raises IndexError. */
  function PyIndex(i: int, n: nat): (r: Option<nat>)
    ensures r.Some? <==> -(n as int) <= i < n
    ensures r.Some? ==> r.value < n && (r.value == i || r.value == i + n)
  {
    if 0 <= i < n then Some(i) else if -(n as int) <= i < 0 then Some(i + n) else None
  }

  /** The three reads of a directory entry are all accepted: `system_size`,
      `block_size * first_block` and `file_length` are each -1 or more. */
  predicate DirReadable(vol: Chain.Volume, fileLength: int, e: Entry)
  {
    ReadsAccepted(vol.systemSize, vol.blockSize * e.firstBlock, fileLength)
  }

  /** The `file_length` bytes read for a directory entry: `f.read(system_size)`,
      `f.read(block_size * first_block)`, `f.read(file_length)`. */
  function DirChunk(vol: Chain.Volume, fileLength: int, e: Entry): seq<Byte>
    requires DirReadable(vol, fileLength, e)
  {
    ReadAt(vol.image, vol.systemSize, vol.blockSize * e.firstBlock, fileLength)
  }

  /** The child record of a directory entry whose chunk decodes. */
  function Child(vol: Chain.Volume, fileLength: int, e: Entry): Entry
    requires DirReadable(vol, fileLength, e) && |DirChunk(vol, fileLength, e)| == RecordWidth
  {
    DecodeRecord(DirChunk(vol, fileLength, e)).value
  }

  /** Expanding `entries` with recursion budget `depth` returns a map: at most
      one entry of the batch is a directory, and every directory entry
      succeeds. */
  predicate ExpandsOk(vol: Chain.Volume, fileLength: int, entries: seq<Entry>, depth: nat)
    decreases depth, 1
  {
    && CountDirs(entries) <= 1
    && forall k :: 0 <= k < |entries| && IsDir(entries[k]) ==> DirOk(vol, fileLength, entries[k], depth)
  }

  /** A directory entry's reads are accepted, its block is in the table and
      its successor is a terminator (so `while True` exits), its chunk holds
      exactly one record, and that record expands within the remaining budget. */
  predicate DirOk(vol: Chain.Volume, fileLength: int, e: Entry, depth: nat)
    decreases depth, 0
  {
    var row := PyIndex(e.firstBlock, |vol.fat|);
    && DirReadable(vol, fileLength, e)
    && row.Some?
    && Chain.IsTerminator(vol.fat[row.value].next)
    && |DirChunk(vol, fileLength, e)| == RecordWidth
    && depth > 0
    && ExpandsOk(vol, fileLength, [Child(vol, fileLength, e)], depth - 1)
  }

  /** The error a directory entry raises by itself, in the order the source
      meets them: a refused read, a block outside the table, a successor that
      is not a terminator, the `.append` on the dictionary left by an earlier
      directory of the batch (`seenDir`), a chunk that does not unpack, the
      spent recursion budget. None when the entry reaches the recursive call. */
  function LocalError(vol: Chain.Volume, fileLength: int, e: Entry, seenDir: bool, depth: nat): Option<Error>
  {
    if !DirReadable(vol, fileLength, e) then Some(ValueError)
    else if PyIndex(e.firstBlock, |vol.fat|).None? then Some(IndexError)
    else if !Chain.IsTerminator(vol.fat[PyIndex(e.firstBlock, |vol.fat|).value].next) then Some(Hangs)
    else if seenDir then Some(AttributeError)
    else if |DirChunk(vol, fileLength, e)| != RecordWidth then Some(UnpackError)
    else if depth == 0 then Some(RecursionLimit)
    else None
  }

  /** Entry `i` is where the batch first fails: the entries before it expand,
      the entries up to and including it do not. */
  predicate FailsAt(vol: Chain.Volume, fileLength: int, s: seq<Entry>, i: nat, depth: nat)
  {
    i < |s| && ExpandsOk(vol, fileLength, s[..i], depth) && !ExpandsOk(vol, fileLength, s[..i + 1], depth)
  }

  /** Every prefix of an expandable batch is expandable. */
  lemma ExpandsOkPrefix(vol: Chain.Volume, fileLength: int, s: seq<Entry>, k: nat, depth: nat)
    requires k <= |s| && ExpandsOk(vol, fileLength, s, depth)
    ensures ExpandsOk(vol, fileLength, s[..k], depth)
  {
    CountDirsPrefix(s, k);
    assert forall j :: 0 <= j < k ==> s[..k][j] == s[j];
  }

  /** A batch fails at one entry at most, and failing there fails the batch. */
  lemma FailsAtUnique(vol: Chain.Volume, fileLength: int, s: seq<Entry>, i: nat, depth: nat)
    requires FailsAt(vol, fileLength, s, i, depth)
    ensures !ExpandsOk(vol, fileLength, s, depth)
    ensures forall j: nat :: FailsAt(vol, fileLength, s, j, depth) ==> j == i
  {
    if ExpandsOk(vol, fileLength, s, depth) {
      ExpandsOkPrefix(vol, fileLength, s, i + 1, depth);
    }
    forall j: nat | FailsAt(vol, fileLength, s, j, depth) ensures j == i {
      if i < j {
        assert s[..j][..i + 1] == s[..i + 1];
        ExpandsOkPrefix(vol, fileLength, s[..j], i + 1, depth);
        assert false;
      } else if j < i {
        assert s[..i][..j + 1] == s[..j + 1];
        ExpandsOkPrefix(vol, fileLength, s[..i], j + 1, depth);
        assert false;
      }
    }
  }

  /** A directory entry fails the batch where it stands when an earlier
      directory is in the batch or it cannot expand. */
  lemma DirStepFails(vol: Chain.Volume, fileLength: int, s: seq<Entry>, i: nat, depth: nat)
    requires i < |s| && IsDir(s[i]) && ExpandsOk(vol, fileLength, s[..i], depth)
    requires CountDirs(s[..i]) == 1 || !DirOk(vol, fileLength, s[i], depth)
    ensures FailsAt(vol, fileLength, s, i, depth)
  {
    assert s[..i + 1][..i] == s[..i];
    assert s[..i + 1][i] == s[i];
  }

  /** An entry that raises an error of its own fails the batch where it stands. */
  lemma LocalErrorFails(vol: Chain.Volume, fileLength: int, s: seq<Entry>, i: nat, depth: nat)
    requires i < |s| && IsDir(s[i]) && ExpandsOk(vol, fileLength, s[..i], depth)
    requires LocalError(vol, fileLength, s[i], CountDirs(s[..i]) == 1, depth).Some?
    ensures FailsAt(vol, fileLength, s, i, depth)
  {
    DirStepFails(vol, fileLength, s, i, depth);
  }

  /** `items` is the expansion of `entries`: its keys are the distinct entries
      in first-occurrence order, and every pair is expanded. */
  predicate Expanded(vol: Chain.Volume, fileLength: int, entries: seq<Entry>, items: seq<Item>)
  {
    && Keys(items) == Dedup(entries)
    && forall k :: 0 <= k < |items| ==> ItemExpanded(vol, fileLength, items[k])
  }

  /** A file maps to NotFolder; a directory maps to the expansion of the
      single record read from its first block. */
  predicate ItemExpanded(vol: Chain.Volume, fileLength: int, item: Item)
    decreases item
  {
    if IsDir(item.entry) then
      && item.node.Folder?
      && DirReadable(vol, fileLength, item.entry)
      && |DirChunk(vol, fileLength, item.entry)| == RecordWidth
      && Keys(item.node.items) == Dedup([Child(vol, fileLength, item.entry)])
      && forall k :: 0 <= k < |item.node.items| ==> ItemExpanded(vol, fileLength, item.node.items[k])
    else item.node == NotFolder
  }

  /** Every pair of a map is expanded. */
  predicate AllExpanded(vol: Chain.Volume, fileLength: int, items: seq<Item>)
  {
    forall k :: 0 <= k < |items| ==> ItemExpanded(vol, fileLength, items[k])
  }

  /** Assigning an expanded value keeps every pair expanded. */
  lemma AssignExpanded(vol: Chain.Volume, fileLength: int, items: seq<Item>, key: Entry, node: Node)
    requires Distinct(Keys(items)) && AllExpanded(vol, fileLength, items)
    requires ItemExpanded(vol, fileLength, Item(key, node))
    ensures AllExpanded(vol, fileLength, Assign(items, key, node))
  {
  }

  /** One more entry keeps the batch expandable when it is a file, or a
      directory that succeeds and is the first of the batch. */
  lemma ExpandsOkStep(vol: Chain.Volume, fileLength: int, s: seq<Entry>, x: Entry, depth: nat)
    requires ExpandsOk(vol, fileLength, s, depth)
    requires IsDir(x) ==> CountDirs(s) == 0 && DirOk(vol, fileLength, x, depth)
    ensures ExpandsOk(vol, fileLength, s + [x], depth)
  {
    assert (s + [x])[..|s|] == s;
  }

  /** A batch with two directory entries in a prefix fails. */
  lemma TwoDirsFail(vol: Chain.Volume, fileLength: int, s: seq<Entry>, i: nat, depth: nat)
    requires i <= |s| && CountDirs(s[..i]) >= 2
    ensures !ExpandsOk(vol, fileLength, s, depth)
    ensures CountDirs(s) >= 2
  {
    CountDirsPrefix(s, i);
  }

  /** A directory after one earlier directory makes the batch hold two. */
  lemma SecondDirCounts(s: seq<Entry>, i: nat)
    requires i < |s| && IsDir(s[i]) && CountDirs(s[..i]) == 1
    ensures CountDirs(s) >= 2
  {
    assert s[..i + 1][..i] == s[..i];
    CountDirsPrefix(s, i + 1);
  }

  /** A directory reads exactly one `file_length`-byte chunk, so it maps to a
      map with exactly one key: the record decoded from its first block. */
  lemma FolderHasOneChild(vol: Chain.Volume, fileLength: int, item: Item)
    requires ItemExpanded(vol, fileLength, item) && IsDir(item.entry)
    ensures item.node.Folder? && |item.node.items| == 1
    ensures item.node.items[0].entry == Child(vol, fileLength, item.entry)
  {
    assert Dedup([Child(vol, fileLength, item.entry)]) == [Child(vol, fileLength, item.entry)];
  }

  /** With a non-negative layout the chunk of a directory is the clipped slice
      at `system_size + block_size * first_block`. */
  lemma DirChunkIsSlice(vol: Chain.Volume, fileLength: nat, e: Entry)
    requires vol.systemSize >= 0 && vol.blockSize >= 0 && e.firstBlock >= 0
    ensures DirReadable(vol, fileLength, e)
    ensures DirChunk(vol, fileLength, e) == Slice(vol.image, vol.systemSize + vol.blockSize * e.firstBlock, fileLength)
  {
    assert vol.blockSize * e.firstBlock >= 0;
    ReadAtIsSlice(vol.image, vol.systemSize, vol.blockSize * e.firstBlock, fileLength);
  }

  /** An entry has only one expansion. */
  lemma {:induction false} ItemExpandedUnique(vol: Chain.Volume, fileLength: int, a: Item, b: Item)
    requires a.entry == b.entry
    requires ItemExpanded(vol, fileLength, a) && ItemExpanded(vol, fileLength, b)
    ensures a == b
    decreases a
  {
    if IsDir(a.entry) {
      var xs, ys := a.node.items, b.node.items;
      assert Keys(xs) == Keys(ys);
      forall k | 0 <= k < |xs| ensures xs[k] == ys[k] {
        assert xs[k].entry == Keys(xs)[k] == Keys(ys)[k] == ys[k].entry;
        ItemExpandedUnique(vol, fileLength, xs[k], ys[k]);
      }
      assert xs == ys;
    }
  }

  /** A batch has only one expansion: the map `find_inner_file` returns is
      determined by the entries and the volume. */
  lemma ExpandedUnique(vol: Chain.Volume, fileLength: int, entries: seq<Entry>, xs: seq<Item>, ys: seq<Item>)
    requires Expanded(vol, fileLength, entries, xs) && Expanded(vol, fileLength, entries, ys)
    ensures xs == ys
  {
    forall k | 0 <= k < |xs| ensures xs[k] == ys[k] {
      assert xs[k].entry == Keys(xs)[k] == Keys(ys)[k] == ys[k].entry;
      ItemExpandedUnique(vol, fileLength, xs[k], ys[k]);
    }
  }

  /** `e` is the failure the batch reports: the batch fails at some entry;
      where that entry has an error of its own, `e` is that error, and
      otherwise (it reached the recursive call) `e` is what the expansion of
      its one child record reports with one level less of budget. */
  predicate Reported(vol: Chain.Volume, fileLength: int, s: seq<Entry>, depth: nat, e: Error)
    decreases depth
  {
    && (exists i: nat :: i < |s| && FailsAt(vol, fileLength, s, i, depth))
    && forall i: nat :: i < |s| && FailsAt(vol, fileLength, s, i, depth) ==>
         var own := LocalError(vol, fileLength, s[i], CountDirs(s[..i]) == 1, depth);
         if own.Some? then own.value == e
         else depth > 0 && Reported(vol, fileLength, [Child(vol, fileLength, s[i])], depth - 1, e)
  }

  /** Failing at entry `i` with its own error, or, when it has none, with
      what its child's expansion reports, is the report of the batch. */
  lemma ReportAt(vol: Chain.Volume, fileLength: int, s: seq<Entry>, i: nat, depth: nat, e: Error)
    requires FailsAt(vol, fileLength, s, i, depth)
    requires var own := LocalError(vol, fileLength, s[i], CountDirs(s[..i]) == 1, depth);
      if own.Some? then own.value == e
      else depth > 0 && Reported(vol, fileLength, [Child(vol, fileLength, s[i])], depth - 1, e)
    ensures !ExpandsOk(vol, fileLength, s, depth)
    ensures Reported(vol, fileLength, s, depth, e)
  {
    FailsAtUnique(vol, fileLength, s, i, depth);
  }

  /** A batch reports one error at most: the error `find_inner_file` raises
      is determined by the entries and the volume, down through the nested
      expansions. */
  lemma {:induction false} ReportedUnique(vol: Chain.Volume, fileLength: int, s: seq<Entry>, depth: nat, e1: Error, e2: Error)
    requires Reported(vol, fileLength, s, depth, e1) && Reported(vol, fileLength, s, depth, e2)
    ensures e1 == e2
    decreases depth
  {
    var i: nat :| i < |s| && FailsAt(vol, fileLength, s, i, depth);
    var own := LocalError(vol, fileLength, s[i], CountDirs(s[..i]) == 1, depth);
    if own.None? {
      ReportedUnique(vol, fileLength, [Child(vol, fileLength, s[i])], depth - 1, e1, e2);
    }
  }

  /** A directory that reached the recursive call, whose child's expansion
      reports `e`, fails the batch where it stands, and the batch reports `e`. */
  lemma NestedFailure(vol: Chain.Volume, fileLength: int, s: seq<Entry>, i: nat, depth: nat, e: Error)
    requires i < |s| && IsDir(s[i]) && ExpandsOk(vol, fileLength, s[..i], depth)
    requires LocalError(vol, fileLength, s[i], CountDirs(s[..i]) == 1, depth).None?
    requires Reported(vol, fileLength, [Child(vol, fileLength, s[i])], depth - 1, e)
    ensures !ExpandsOk(vol, fileLength, s, depth)
    ensures Reported(vol, fileLength, s, depth, e)
  {
    var c := [Child(vol, fileLength, s[i])];
    var j: nat :| j < |c| && FailsAt(vol, fileLength, c, j, depth - 1);
    FailsAtUnique(vol, fileLength, c, j, depth - 1);
    DirStepFails(vol, fileLength, s, i, depth);
    ReportAt(vol, fileLength, s, i, depth, e);
  }

  /** Where the batch first fails at an entry that reached the recursive
      call, the batch reports exactly what the expansion of that entry's
      child record reports, with one level less of budget. */
  lemma NestedReports(vol: Chain.Volume, fileLength: int, s: seq<Entry>, i: nat, depth: nat, e: Error)
    requires FailsAt(vol, fileLength, s, i, depth)
    requires LocalError(vol, fileLength, s[i], CountDirs(s[..i]) == 1, depth).None?
    ensures depth > 0
    ensures Reported(vol, fileLength, s, depth, e)
      <==> Reported(vol, fileLength, [Child(vol, fileLength, s[i])], depth - 1, e)
  {
    if Reported(vol, fileLength, [Child(vol, fileLength, s[i])], depth - 1, e) {
      ReportAt(vol, fileLength, s, i, depth, e);
    }
  }

  /** Where the batch first fails at an entry with an error of its own, that
      error is the one report of the batch: a second directory whose loop
      exits reports AttributeError, a directory whose successor is not a
      terminator reports Hangs, and so on in the order of `LocalError`. */
  lemma ReportedIsLocal(vol: Chain.Volume, fileLength: int, s: seq<Entry>, i: nat, depth: nat, e: Error)
    requires FailsAt(vol, fileLength, s, i, depth)
    requires LocalError(vol, fileLength, s[i], CountDirs(s[..i]) == 1, depth).Some?
    ensures Reported(vol, fileLength, s, depth, e)
      <==> e == LocalError(vol, fileLength, s[i], CountDirs(s[..i]) == 1, depth).value
  {
    var own := LocalError(vol, fileLength, s[i], CountDirs(s[..i]) == 1, depth).value;
    ReportAt(vol, fileLength, s, i, depth, own);
  }

  /** A second directory of the batch whose reads are accepted, whose block
      is in the table and whose chain stops there leaves `while True` and then
      raises AttributeError at `.append`: the batch reports that error and no
      other. */
  lemma SecondDirectoryReports(vol: Chain.Volume, fileLength: int, s: seq<Entry>, i: nat, depth: nat)
    requires i < |s| && IsDir(s[i]) && ExpandsOk(vol, fileLength, s[..i], depth) && CountDirs(s[..i]) == 1
    requires DirReadable(vol, fileLength, s[i]) && PyIndex(s[i].firstBlock, |vol.fat|).Some?
    requires Chain.IsTerminator(vol.fat[PyIndex(s[i].firstBlock, |vol.fat|).value].next)
    ensures !ExpandsOk(vol, fileLength, s, depth)
    ensures forall e :: Reported(vol, fileLength, s, depth, e) <==> e == AttributeError
  {
    LocalErrorFails(vol, fileLength, s, i, depth);
    FailsAtUnique(vol, fileLength, s, i, depth);
    forall e ensures Reported(vol, fileLength, s, depth, e) <==> e == AttributeError {
      ReportedIsLocal(vol, fileLength, s, i, depth, e);
    }
  }

  /** A directory whose reads are accepted and whose block is in the table,
      but whose successor is not a terminator, keeps `while True` spinning:
      the batch reports Hangs and no other error. */
  lemma NonTerminatorReports(vol: Chain.Volume, fileLength: int, s: seq<Entry>, i: nat, depth: nat)
    requires i < |s| && IsDir(s[i]) && ExpandsOk(vol, fileLength, s[..i], depth)
    requires DirReadable(vol, fileLength, s[i]) && PyIndex(s[i].firstBlock, |vol.fat|).Some?
    requires !Chain.IsTerminator(vol.fat[PyIndex(s[i].firstBlock, |vol.fat|).value].next)
    ensures !ExpandsOk(vol, fileLength, s, depth)
    ensures forall e :: Reported(vol, fileLength, s, depth, e) <==> e == Hangs
  {
    LocalErrorFails(vol, fileLength, s, i, depth);
    FailsAtUnique(vol, fileLength, s, i, depth);
    forall e ensures Reported(vol, fileLength, s, depth, e) <==> e == Hangs {
      ReportedIsLocal(vol, fileLength, s, i, depth, e);
    }
  }

  /** An entry that raises an error of its own fails the batch, and the batch
      reports exactly that error. */
  lemma LocalReport(vol: Chain.Volume, fileLength: int, s: seq<Entry>, i: nat, depth: nat)
    requires i < |s| && IsDir(s[i]) && ExpandsOk(vol, fileLength, s[..i], depth)
    requires LocalError(vol, fileLength, s[i], CountDirs(s[..i]) == 1, depth).Some?
    ensures !ExpandsOk(vol, fileLength, s, depth)
    ensures Reported(vol, fileLength, s, depth, LocalError(vol, fileLength, s[i], CountDirs(s[..i]) == 1, depth).value)
  {
    LocalErrorFails(vol, fileLength, s, i, depth);
    ReportAt(vol, fileLength, s, i, depth, LocalError(vol, fileLength, s[i], CountDirs(s[..i]) == 1, depth).value);
  }

  /** `for fb in inner_content_binary: inner_content.append(decode(fb))`:
      each chunk is unpacked and appended in turn. Appending to the
      dictionary that replaced the list raises AttributeError once the first
      chunk has unpacked. */
  method AppendDecoded(innerContentBinary: seq<seq<Byte>>, innerContent: Content) returns (r: Result<Content>)
    ensures innerContent.Records? ==>
      (r.Ok? <==> forall t :: 0 <= t < |innerContentBinary| ==> |innerContentBinary[t]| == RecordWidth)
    ensures innerContent.Records? && r.Ok? ==>
      var old_ := innerContent.records;
      && r.value.Records?
      && |r.value.records| == |old_| + |innerContentBinary|
      && r.value.records[..|old_|] == old_
      && forall t :: 0 <= t < |innerContentBinary| ==>
           DecodeRecord(innerContentBinary[t]) == Ok(r.value.records[|old_| + t])
    ensures innerContent.Records? && r.Err? ==> r.error == UnpackError
    ensures innerContent.Mapping? ==>
      r == if innerContentBinary == [] then Ok(innerContent)
           else if |innerContentBinary[0]| == RecordWidth then Err(AttributeError)
           else Err(UnpackError)
  {
    var content := innerContent;
    for j := 0 to |innerContentBinary|
      invariant innerContent.Mapping? ==> j == 0 && content == innerContent
      invariant innerContent.Records? ==>
        && content.Records?
        && |content.records| == |innerContent.records| + j
        && content.records[..|innerContent.records|] == innerContent.records
        && forall t :: 0 <= t < j ==>
             |innerContentBinary[t]| == RecordWidth
             && DecodeRecord(innerContentBinary[t]) == Ok(content.records[|innerContent.records| + t])
    {
      var fb := DecodeRecord(innerContentBinary[j]);
      if fb.Err? {
        return Err(fb.error);
      }
      if content.Mapping? {
        return Err(AttributeError);
      }
      content := Records(content.records + [fb.value]);
    }
    return Ok(content);
  }

  /** One directory entry of a batch: the `while True` that reads its first
      block, the unpacking of the shared chunk list into the shared
      `inner_content`, and the recursive call. It returns the nested map and
      the new shared state, or the error the batch then raises. */
  method ExpandDir(fileList: seq<Entry>, i: nat, vol: Chain.Volume, fileLength: int, depth: nat,
                   binarySoFar: seq<seq<Byte>>, contentSoFar: Content)
      returns (r: Result<seq<Item>>, innerContentBinary: seq<seq<Byte>>, innerContent: Content)
    requires i < |fileList| && IsDir(fileList[i]) && ExpandsOk(vol, fileLength, fileList[..i], depth)
    requires CountDirs(fileList[..i]) <= 1
    requires CountDirs(fileList[..i]) == 0 ==> binarySoFar == [] && contentSoFar == Records([])
    requires CountDirs(fileList[..i]) == 1 ==>
      |binarySoFar| == 1 && |binarySoFar[0]| == RecordWidth && contentSoFar.Mapping?
    ensures r.Ok? ==>
      && CountDirs(fileList[..i]) == 0
      && DirOk(vol, fileLength, fileList[i], depth)
      && ItemExpanded(vol, fileLength, Item(fileList[i], Folder(r.value)))
      && |innerContentBinary| == 1 && |innerContentBinary[0]| == RecordWidth
      && innerContent == Mapping(r.value)
    ensures r.Err? ==> !ExpandsOk(vol, fileLength, fileList, depth) && Reported(vol, fileLength, fileList, depth, r.error)
    ensures r.Err? && r.error == AttributeError ==> CountDirs(fileList) >= 2
    decreases depth, 0
  {
    var file := fileList[i];
    var seenDir := CountDirs(fileList[..i]) == 1;
    innerContentBinary, innerContent := binarySoFar, contentSoFar;
    if !DirReadable(vol, fileLength, file) {
      LocalReport(vol, fileLength, fileList, i, depth);
      return Err(ValueError), innerContentBinary, innerContent;
    }
    var chunk := ReadAt(vol.image, vol.systemSize, vol.blockSize * file.firstBlock, fileLength);
    innerContentBinary := innerContentBinary + [chunk];
    var row := PyIndex(file.firstBlock, |vol.fat|);
    if row.None? {
      LocalReport(vol, fileLength, fileList, i, depth);
      return Err(IndexError), innerContentBinary, innerContent;
    }
    if !Chain.IsTerminator(vol.fat[row.value].next) {
      LocalReport(vol, fileLength, fileList, i, depth);
      return Err(Hangs), innerContentBinary, innerContent;
    }
    var appended := AppendDecoded(innerContentBinary, innerContent);
    if appended.Err? {
      if seenDir {
        assert LocalError(vol, fileLength, file, seenDir, depth) == Some(AttributeError);
        LocalReport(vol, fileLength, fileList, i, depth);
        SecondDirCounts(fileList, i);
      } else {
        assert innerContentBinary == [chunk];
        assert LocalError(vol, fileLength, file, seenDir, depth) == Some(UnpackError);
        LocalReport(vol, fileLength, fileList, i, depth);
      }
      return Err(appended.error), innerContentBinary, innerContent;
    }
    assert !seenDir && innerContentBinary == [chunk];
    assert DecodeRecord(innerContentBinary[0]) == Ok(appended.value.records[0]);
    innerContent := appended.value;
    assert innerContent.records == [Child(vol, fileLength, file)];
    if depth == 0 {
      LocalReport(vol, fileLength, fileList, i, depth);
      return Err(RecursionLimit), innerContentBinary, innerContent;
    }
    var sub := FindInnerFile(innerContent.records, vol, fileLength, depth - 1);
    if sub.Err? {
      assert LocalError(vol, fileLength, file, seenDir, depth) == None;
      NestedFailure(vol, fileLength, fileList, i, depth, sub.error);
      assert CountDirs(innerContent.records) <= 1;
      return Err(sub.error), innerContentBinary, innerContent;
    }
    innerContent := Mapping(sub.value);
    return Ok(sub.value), innerContentBinary, innerContent;
  }

  /** `find_inner_file` over one batch of entries, with the state it shares
      across the batch: the list of chunks read (`inner_content_binary`) and
      `inner_content`, which is never reset. The source's `while True` reads
      the same block again and again until the successor of the entry's first
      block is a terminator; that test never changes, so the loop runs once
      or forever (Hangs). The batch fails exactly when it is not expandable;
      it then fails at one entry, with that entry's own error when it has one
      and otherwise with the error its child's expansion reports
      (`Reported`, which `ReportedUnique` shows is a single error). */
  method FindInnerFile(fileList: seq<Entry>, vol: Chain.Volume, fileLength: int, depth: nat)
      returns (r: Result<seq<Item>>)
    ensures r.Ok? <==> ExpandsOk(vol, fileLength, fileList, depth)
    ensures r.Ok? ==> Expanded(vol, fileLength, fileList, r.value)
    ensures r.Ok? ==> forall e :: e in fileList <==> e in Keys(r.value)
    ensures r.Err? ==> Reported(vol, fileLength, fileList, depth, r.error)
    ensures r.Err? && r.error == AttributeError ==> CountDirs(fileList) >= 2
    decreases depth, 1
  {
    var fileMap: seq<Item> := [];
    var innerContentBinary: seq<seq<Byte>> := [];
    var innerContent := Records([]);
    for i := 0 to |fileList|
      invariant Keys(fileMap) == Dedup(fileList[..i])
      invariant AllExpanded(vol, fileLength, fileMap)
      invariant ExpandsOk(vol, fileLength, fileList[..i], depth)
      invariant CountDirs(fileList[..i]) <= 1
      invariant CountDirs(fileList[..i]) == 0 ==> innerContentBinary == [] && innerContent == Records([])
      invariant CountDirs(fileList[..i]) == 1 ==>
        |innerContentBinary| == 1 && |innerContentBinary[0]| == RecordWidth && innerContent.Mapping?
    {
      var file := fileList[i];
      assert fileList[..i + 1] == fileList[..i] + [file];
      if file.attr == FolderAttr {
        var sub;
        sub, innerContentBinary, innerContent :=
          ExpandDir(fileList, i, vol, fileLength, depth, innerContentBinary, innerContent);
        if sub.Err? {
          return Err(sub.error);
        }
        AssignExpanded(vol, fileLength, fileMap, file, Folder(sub.value));
        ExpandsOkStep(vol, fileLength, fileList[..i], file, depth);
        fileMap := Assign(fileMap, file, Folder(sub.value));
      } else {
        AssignExpanded(vol, fileLength, fileMap, file, NotFolder);
        ExpandsOkStep(vol, fileLength, fileList[..i], file, depth);
        fileMap := Assign(fileMap, file, NotFolder);
      }
    }
    assert fileList[..|fileList|] == fileList;
    return Ok(fileMap);
  }
}
