/** The two queries over the flattened lists: substring search over the names
    (`search` without printing), and the decision part of `save_file_content`. */
module Query {
  import opened Image
  import opened Outcomes
  import opened Root
  import Chain

  /** Python's `q in s` on strings: `q` occurs as a contiguous run of `s`
      (the empty string occurs in every string). */
  predicate Contains(s: seq<Byte>, q: seq<Byte>)
  {
    exists i :: 0 <= i <= |s| && q <= s[i..]
  }

  /** The indices below `n` whose name contains `query`, in increasing order. */
  function Matches(names: seq<seq<Byte>>, query: seq<Byte>, n: nat): (m: seq<nat>)
    requires n <= |names|
    ensures |m| <= n
    ensures forall k :: 0 <= k < |m| ==> m[k] < n && Contains(names[m[k]], query)
    ensures forall k, l :: 0 <= k < l < |m| ==> m[k] < m[l]
    ensures forall i :: 0 <= i < n && Contains(names[i], query) ==> i in m
  {
    if n == 0 then []
    else Matches(names, query, n - 1) + (if Contains(names[n - 1], query) then [n - 1] else [])
  }

  /** `search(file_list, files_path, print_info=False, user_input=query)`:
      the paths, in order, of the zipped pairs whose name contains the query. */
  method Search(query: seq<Byte>, fileList: seq<seq<Byte>>, filesPath: seq<seq<Byte>>)
      returns (searchResult: seq<seq<Byte>>)
    ensures var m := Matches(fileList, query, Min(|fileList|, |filesPath|));
      |searchResult| == |m| && forall k :: 0 <= k < |m| ==> searchResult[k] == filesPath[m[k]]
    ensures |searchResult| <= Min(|fileList|, |filesPath|)
  {
    searchResult := [];
    for i := 0 to Min(|fileList|, |filesPath|)
      invariant var m := Matches(fileList, query, i);
        |searchResult| == |m| && forall k :: 0 <= k < |m| ==> searchResult[k] == filesPath[m[k]]
    {
      assert Matches(fileList, query, i + 1)
        == Matches(fileList, query, i) + (if Contains(fileList[i], query) then [i] else []);
      if Contains(fileList[i], query) {
        searchResult := searchResult + [filesPath[i]];
      }
    }
  }

  /** The empty query is contained in every name, so it matches every index. */
  lemma {:induction false} EmptyQueryMatchesAll(names: seq<seq<Byte>>, n: nat)
    requires n <= |names|
    ensures Matches(names, [], n) == seq(n, i => i)
  {
    if n > 0 {
      EmptyQueryMatchesAll(names, n - 1);
      assert [] <= names[n - 1][0..];
      assert seq(n, i => i) == seq(n - 1, i => i) + [n - 1];
    }
  }

  /** A query that is no name's substring matches nothing. */
  lemma {:induction false} NoMatch(names: seq<seq<Byte>>, query: seq<Byte>, n: nat)
    requires n <= |names|
    requires forall i :: 0 <= i < n ==> !Contains(names[i], query)
    ensures Matches(names, query, n) == []
  {
    if n > 0 {
      NoMatch(names, query, n - 1);
    }
  }

  /** The position `files_names.index(query)`: the first index holding `query`. */
  function FirstIndex(names: seq<seq<Byte>>, query: seq<Byte>): (i: nat)
    requires query in names
    ensures i < |names| && names[i] == query
    ensures forall j :: 0 <= j < i ==> names[j] != query
  {
    if names[0] == query then 0 else 1 + FirstIndex(names[1..], query)
  }

  /** The reply of `save_file_content`: 'Wrong path', "It's a folder", or the
      content read for the file saved under `fileName`. */
  datatype SaveOutcome = WrongPath | ItsAFolder | Saved(fileName: seq<Byte>, content: seq<Byte>)

  /** What the lookup needs from its caller: the attribute list covers the
      found position, and for a file the block list does too and the chain
      from its first block ends. */
  predicate CanDecide(filesAttr: seq<int>, filesBlocks: seq<int>, vol: Chain.Volume,
                      filesNames: seq<seq<Byte>>, query: seq<Byte>)
  {
    query in filesNames ==>
      var position := FirstIndex(filesNames, query);
      && position < |filesAttr|
      && (filesAttr[position] != FolderAttr ==>
            position < |filesBlocks| && Chain.ChainEnds(vol.fat, filesBlocks[position]))
  }

  /** The decision part of `save_file_content` for the query `query`: the
      reply, or the error `read_file` raises for the file found. */
  function SaveFileContent(filesAttr: seq<int>, filesBlocks: seq<int>, vol: Chain.Volume,
                           filesNames: seq<seq<Byte>>, query: seq<Byte>): (r: Result<SaveOutcome>)
    requires CanDecide(filesAttr, filesBlocks, vol, filesNames, query)
    ensures r == Ok(WrongPath) <==> query !in filesNames
    ensures r == Ok(ItsAFolder) <==> query in filesNames && filesAttr[FirstIndex(filesNames, query)] == FolderAttr
    ensures r.Err? <==>
      && query in filesNames
      && var position := FirstIndex(filesNames, query);
      && filesAttr[position] != FolderAttr
      && !Chain.AllReadable(vol, Chain.Walk(vol.fat, filesBlocks[position], |vol.fat|).value)
    ensures r.Err? ==> r.error == ValueError
    ensures r.Ok? && r.value.Saved? ==>
      var blocks := Chain.Walk(vol.fat, filesBlocks[FirstIndex(filesNames, query)], |vol.fat|).value;
      r.value.fileName == query && Chain.AllReadable(vol, blocks) && r.value.content == Chain.Gather(vol, blocks)
  {
    if query in filesNames then
      var position := FirstIndex(filesNames, query);
      if filesAttr[position] == FolderAttr then Ok(ItsAFolder)
      else
        var result := Chain.ReadFile(filesBlocks[position], vol);
        if result.Err? then Err(result.error) else Ok(Saved(filesNames[position], result.value))
    else Ok(WrongPath)
  }

  /** When index `j` is the first holding the query, the outcome is decided by
      entry `j` alone: a folder, or the chain read from its first block. */
  lemma SaveAtFirstMatch(filesAttr: seq<int>, filesBlocks: seq<int>, vol: Chain.Volume,
                         filesNames: seq<seq<Byte>>, query: seq<Byte>, j: nat)
    requires j < |filesNames| && j < |filesAttr| && j < |filesBlocks| && filesNames[j] == query
    requires forall i :: 0 <= i < j ==> filesNames[i] != query
    requires filesAttr[j] != FolderAttr ==> Chain.ChainEnds(vol.fat, filesBlocks[j])
    ensures CanDecide(filesAttr, filesBlocks, vol, filesNames, query)
    ensures SaveFileContent(filesAttr, filesBlocks, vol, filesNames, query)
      == if filesAttr[j] == FolderAttr then Ok(ItsAFolder)
         else match Chain.ReadFile(filesBlocks[j], vol)
           case Ok(content) => Ok(Saved(query, content))
           case Err(e) => Err(e)
  {
    var position := FirstIndex(filesNames, query);
    assert !(position < j) && !(j < position);
  }

  /** A file whose first block is the last of its chain is saved with exactly
      that block's payload, unless that block's read is refused. */
  lemma SaveSingleBlock(filesAttr: seq<int>, filesBlocks: seq<int>, vol: Chain.Volume,
                        filesNames: seq<seq<Byte>>, query: seq<Byte>, j: nat)
    requires j < |filesNames| && j < |filesAttr| && j < |filesBlocks| && filesNames[j] == query
    requires forall i :: 0 <= i < j ==> filesNames[i] != query
    requires filesAttr[j] != FolderAttr
    requires 0 <= filesBlocks[j] < |vol.fat| && Chain.IsTerminator(vol.fat[filesBlocks[j]].next)
    ensures CanDecide(filesAttr, filesBlocks, vol, filesNames, query)
    ensures SaveFileContent(filesAttr, filesBlocks, vol, filesNames, query)
      == if Chain.BlockReadable(vol, filesBlocks[j]) then Ok(Saved(query, Chain.Payload(vol, filesBlocks[j])))
         else Err(ValueError)
  {
    assert Chain.Walk(vol.fat, filesBlocks[j], 0) == Some([filesBlocks[j]]);
    Chain.EndsWithinTable(vol.fat, filesBlocks[j], 0);
    SaveAtFirstMatch(filesAttr, filesBlocks, vol, filesNames, query, j);
  }
}
