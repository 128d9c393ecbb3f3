/** Flattening the directory map (`make_paths`): a pre-order walk that lists
    every node's name, full path, first block and attribute. */
module Paths {
  import opened Image
  import opened Root
  import opened Tree

  /** The path separator '/'. */
  const Slash: Byte := 47

  /** The default prefix of the top-level call, the path "/". */
  const RootPrefix: seq<Byte> := [Slash]

  /** One node as listed: its name, `prefix + name`, first block and attribute. */
  datatype PathRecord = PathRecord(name: seq<Byte>, path: seq<Byte>, firstBlock: int, attr: int)

  /** The `Storage` named tuple: four parallel lists. */
  datatype Storage = Storage(names: seq<seq<Byte>>, paths: seq<seq<Byte>>, firstBlocks: seq<int>, attrs: seq<int>)

  /** The four lists of `s` are, index by index, the records `recs`. */
  predicate Lists(s: Storage, recs: seq<PathRecord>)
  {
    && |s.names| == |recs| && |s.paths| == |recs| && |s.firstBlocks| == |recs| && |s.attrs| == |recs|
    && forall i :: 0 <= i < |recs| ==>
         recs[i] == PathRecord(s.names[i], s.paths[i], s.firstBlocks[i], s.attrs[i])
  }

  /** The record of one pair of the map, listed under `prefix`. */
  function Record(it: Item, prefix: seq<Byte>): PathRecord
  {
    PathRecord(it.entry.name, prefix + it.entry.name, it.entry.firstBlock, it.entry.attr)
  }

  /** The prefix under which the children of `it` are listed: `prefix + name + '/'`. */
  function ChildPrefix(it: Item, prefix: seq<Byte>): seq<Byte>
  {
    prefix + it.entry.name + [Slash]
  }

  /** Whether `make_paths` descends into `it`: only entries whose attribute is 1. */
  predicate Descends(it: Item) { IsDir(it.entry) && it.node.Folder? }

  /** The records of the whole map, in pre-order. */
  function Flatten(items: seq<Item>, prefix: seq<Byte>): seq<PathRecord>
    decreases Folder(items), |items| + 1
  {
    FlattenUpTo(items, |items|, prefix)
  }

  /** The records of the first `i` pairs of the map: each pair's own record,
      then the records of its children when it is a directory. */
  function FlattenUpTo(items: seq<Item>, i: nat, prefix: seq<Byte>): seq<PathRecord>
    requires i <= |items|
    decreases Folder(items), i
  {
    if i == 0 then []
    else
      var it := items[i - 1];
      FlattenUpTo(items, i - 1, prefix) + [Record(it, prefix)]
        + (if Descends(it) then Flatten(it.node.items, ChildPrefix(it, prefix)) else [])
  }

  /** Every directory entry of the map, at every level, maps to a nested map
      (iterating the value of a directory entry needs a map). */
  predicate Shaped(items: seq<Item>)
    decreases Folder(items)
  {
    forall k :: 0 <= k < |items| && IsDir(items[k].entry) ==>
      items[k].node.Folder? && Shaped(items[k].node.items)
  }

  /** A map built by `find_inner_file` is shaped. */
  lemma {:induction false} ExpandedShaped(vol: Chain.Volume, fileLength: int, items: seq<Item>)
    requires AllExpanded(vol, fileLength, items)
    ensures Shaped(items)
    decreases Folder(items)
  {
    forall k | 0 <= k < |items| && IsDir(items[k].entry)
      ensures items[k].node.Folder? && Shaped(items[k].node.items)
    {
      assert ItemExpanded(vol, fileLength, items[k]);
      ExpandedShaped(vol, fileLength, items[k].node.items);
    }
  }

  /** `make_paths(file_map, prefix)`: the four lists are the pre-order records
      of the map. */
  method MakePaths(fileMap: seq<Item>, prefix: seq<Byte>) returns (storage: Storage)
    requires Shaped(fileMap)
    ensures Lists(storage, Flatten(fileMap, prefix))
    decreases Folder(fileMap)
  {
    storage := Storage([], [], [], []);
    for i := 0 to |fileMap|
      invariant Lists(storage, FlattenUpTo(fileMap, i, prefix))
    {
      var file := fileMap[i];
      storage := Storage(storage.names + [file.entry.name], storage.paths + [prefix + file.entry.name],
                         storage.firstBlocks + [file.entry.firstBlock], storage.attrs + [file.entry.attr]);
      if file.entry.attr == FolderAttr {
        var inner := MakePaths(file.node.items, prefix + file.entry.name + [Slash]);
        storage := Storage(storage.names + inner.names, storage.paths + inner.paths,
                           storage.firstBlocks + inner.firstBlocks, storage.attrs + inner.attrs);
      }
    }
  }

  /** Path `r.path` starts with `prefix` and ends with `r.name`, with room for both. */
  predicate Under(prefix: seq<Byte>, r: PathRecord)
  {
    && |prefix| + |r.name| <= |r.path|
    && r.path[..|prefix|] == prefix
    && r.path[|r.path| - |r.name|..] == r.name
  }

  /** Every path listed under `prefix` starts with `prefix`, and every name is
      a suffix of its path. */
  lemma {:induction false} FlattenUnder(items: seq<Item>, i: nat, prefix: seq<Byte>)
    requires i <= |items|
    ensures forall r :: r in FlattenUpTo(items, i, prefix) ==> Under(prefix, r)
    decreases Folder(items), i
  {
    if i > 0 {
      var it := items[i - 1];
      FlattenUnder(items, i - 1, prefix);
      assert Under(prefix, Record(it, prefix));
      if Descends(it) {
        var p := ChildPrefix(it, prefix);
        FlattenUnder(it.node.items, |it.node.items|, p);
        forall r | r in Flatten(it.node.items, p) ensures Under(prefix, r) {
          assert Under(p, r);
          assert r.path[..|prefix|] == r.path[..|p|][..|prefix|];
        }
      }
    }
  }

  /** The records of a shorter prefix of the map come first. */
  lemma {:induction false} FlattenUpToPrefix(items: seq<Item>, k: nat, j: nat, prefix: seq<Byte>)
    requires k <= j <= |items|
    ensures FlattenUpTo(items, k, prefix) <= FlattenUpTo(items, j, prefix)
    decreases j
  {
    if k < j {
      FlattenUpToPrefix(items, k, j - 1, prefix);
    }
  }

  /** Pre-order: the record of pair `k` sits right after the records of the
      pairs before it; a directory's own record is followed by exactly the
      records of its children, listed under `prefix + name + '/'`; anything
      else is followed directly by the next pair's record. */
  lemma PreOrder(items: seq<Item>, k: nat, prefix: seq<Byte>)
    requires k < |items|
    ensures var flat, p := Flatten(items, prefix), |FlattenUpTo(items, k, prefix)|;
      && p < |flat|
      && flat[p] == Record(items[k], prefix)
      && (Descends(items[k]) ==>
            var sub := Flatten(items[k].node.items, ChildPrefix(items[k], prefix));
            p + 1 + |sub| <= |flat| && flat[p + 1..p + 1 + |sub|] == sub)
      && (!Descends(items[k]) && k + 1 < |items| ==> p + 1 < |flat| && flat[p + 1] == Record(items[k + 1], prefix))
  {
    var flat := Flatten(items, prefix);
    var head := FlattenUpTo(items, k, prefix);
    var next := FlattenUpTo(items, k + 1, prefix);
    FlattenUpToPrefix(items, k + 1, |items|, prefix);
    assert next <= flat;
    assert next[|head|] == Record(items[k], prefix);
    if Descends(items[k]) {
      var sub := Flatten(items[k].node.items, ChildPrefix(items[k], prefix));
      assert next[|head| + 1..] == sub;
    }
    if !Descends(items[k]) && k + 1 < |items| {
      FlattenUpToPrefix(items, k + 2, |items|, prefix);
      assert FlattenUpTo(items, k + 2, prefix)[|next|] == Record(items[k + 1], prefix);
    }
  }

  /** A folder "docs" (first block 3) holding "a.txt" (first block 5) lists
      "/docs" and then "/docs/a.txt". */
  lemma DocsExample()
    ensures var docs, txt := [100, 111, 99, 115], [97, 46, 116, 120, 116];
      var fileMap := [Item(Entry(docs, 3, 1), Folder([Item(Entry(txt, 5, 0), NotFolder)]))];
      Flatten(fileMap, RootPrefix)
        == [PathRecord(docs, [Slash] + docs, 3, 1), PathRecord(txt, [Slash] + docs + [Slash] + txt, 5, 0)]
  {
    var docs: seq<Byte>, txt: seq<Byte> := [100, 111, 99, 115], [97, 46, 116, 120, 116];
    var child := [Item(Entry(txt, 5, 0), NotFolder)];
    var fileMap := [Item(Entry(docs, 3, 1), Folder(child))];
    var p := [Slash] + docs + [Slash];
    assert !Descends(child[0]) && FlattenUpTo(child, 0, p) == [];
    assert FlattenUpTo(child, 1, p) == [Record(child[0], p)];
    assert Descends(fileMap[0]) && ChildPrefix(fileMap[0], RootPrefix) == p;
    assert FlattenUpTo(fileMap, 1, RootPrefix) == [Record(fileMap[0], RootPrefix)] + Flatten(child, p);
  }
}
