/** File content reconstruction: following a chain of blocks through the
    FAT and concatenating each block's payload (`read_file`). */
module Chain {
  import opened Image
  import opened Outcomes
  import opened Fat

  /** A `next` value that ends a chain: -1, 0, 254 or 255. */
  predicate IsTerminator(x: int) { x == -1 || x == 0 || x == 254 || x == 255 }

  /** What every block read needs: the image, the byte length of superblock,
      FAT and root together (`system_size`), the block size and the table. */
  datatype Volume = Volume(image: seq<Byte>, systemSize: int, blockSize: int, fat: seq<FatRow>)

  /** The blocks visited from `place` when the chain meets a terminator
      within `fuel` further links without leaving the table; None otherwise. */
  function Walk(fat: seq<FatRow>, place: int, fuel: nat): (w: Option<seq<nat>>)
    ensures w.Some? ==> 0 < |w.value| <= fuel + 1 && w.value[0] == place
    ensures w.Some? ==> forall i :: 0 <= i < |w.value| ==> w.value[i] < |fat|
    decreases fuel
  {
    if !(0 <= place < |fat|) then None
    else if IsTerminator(fat[place].next) then Some([place])
    else if fuel == 0 then None
    else match Walk(fat, fat[place].next, fuel - 1)
      case None => None
      case Some(rest) => Some([place] + rest)
  }

  /** The chain from `place` ends within as many links as the table has rows. */
  predicate ChainEnds(fat: seq<FatRow>, place: int)
  {
    Walk(fat, place, |fat|).Some?
  }

  /** More fuel does not change a walk that already ends. */
  lemma {:induction false} WalkStable(fat: seq<FatRow>, place: int, k: nat, k': nat)
    requires k <= k' && Walk(fat, place, k).Some?
    ensures Walk(fat, place, k') == Walk(fat, place, k)
    decreases k
  {
    if !IsTerminator(fat[place].next) {
      WalkStable(fat, fat[place].next, k - 1, k' - 1);
    }
  }

  /** A walk is followed by the walk from the next block, one step shorter. */
  lemma WalkStep(fat: seq<FatRow>, place: int)
    requires ChainEnds(fat, place) && !IsTerminator(fat[place].next)
    ensures ChainEnds(fat, fat[place].next)
    ensures Walk(fat, place, |fat|).value == [place] + Walk(fat, fat[place].next, |fat|).value
  {
    WalkStable(fat, fat[place].next, |fat| - 1, |fat|);
  }

  /** The three reads of block `place` are all accepted: `system_size`,
      `block_size * place` and `block_size` are each -1 or more. */
  predicate BlockReadable(vol: Volume, place: int)
  {
    ReadsAccepted(vol.systemSize, vol.blockSize * place, vol.blockSize)
  }

  /** Every block of `blocks` can be read. */
  predicate AllReadable(vol: Volume, blocks: seq<nat>)
  {
    forall i :: 0 <= i < |blocks| ==> BlockReadable(vol, blocks[i])
  }

  /** A walk is readable exactly when its first block and the rest are. */
  lemma AllReadableCons(vol: Volume, b: nat, rest: seq<nat>)
    ensures AllReadable(vol, [b] + rest) <==> BlockReadable(vol, b) && AllReadable(vol, rest)
  {
    if BlockReadable(vol, b) && AllReadable(vol, rest) {
      forall i | 0 <= i < |[b] + rest| ensures BlockReadable(vol, ([b] + rest)[i]) {
        if i > 0 { assert ([b] + rest)[i] == rest[i - 1]; }
      }
    }
    if AllReadable(vol, [b] + rest) {
      assert ([b] + rest)[0] == b;
      forall i | 0 <= i < |rest| ensures BlockReadable(vol, rest[i]) {
        assert ([b] + rest)[i + 1] == rest[i];
      }
    }
  }

  /** The bytes of block `place`: `f.read(system_size)`, `f.read(block_size * place)`,
      then `f.read(block_size)`. */
  function Payload(vol: Volume, place: int): seq<Byte>
    requires BlockReadable(vol, place)
  {
    ReadAt(vol.image, vol.systemSize, vol.blockSize * place, vol.blockSize)
  }

  /** The payloads of `blocks`, concatenated in order. */
  function Gather(vol: Volume, blocks: seq<nat>): seq<Byte>
    requires AllReadable(vol, blocks)
  {
    if blocks == [] then [] else Payload(vol, blocks[0]) + Gather(vol, blocks[1..])
  }

  /** `read_file`: the payload of `place`, followed by the content read from
      its successor unless the successor is a terminator. A read with a count
      below -1 raises ValueError, which ends the whole recursion. */
  function ReadFile(place: int, vol: Volume): (r: Result<seq<Byte>>)
    requires ChainEnds(vol.fat, place)
    ensures r.Ok? <==> AllReadable(vol, Walk(vol.fat, place, |vol.fat|).value)
    ensures r.Ok? ==> r.value == Gather(vol, Walk(vol.fat, place, |vol.fat|).value)
    ensures r.Err? ==> r.error == ValueError
    ensures IsTerminator(vol.fat[place].next) ==>
      r == if BlockReadable(vol, place) then Ok(Payload(vol, place)) else Err(ValueError)
    decreases |Walk(vol.fat, place, |vol.fat|).value|
  {
    if !BlockReadable(vol, place) then Err(ValueError)
    else
      var content := Payload(vol, place);
      if IsTerminator(vol.fat[place].next) then Ok(content)
      else
        WalkStep(vol.fat, place);
        AllReadableCons(vol, place, Walk(vol.fat, vol.fat[place].next, |vol.fat|).value);
        var rest := ReadFile(vol.fat[place].next, vol);
        if rest.Err? then rest else Ok(content + rest.value)
  }

  /** With a non-negative layout every read is accepted. */
  lemma NonNegativeReadable(vol: Volume, blocks: seq<nat>)
    requires vol.systemSize >= 0 && vol.blockSize >= 0
    ensures AllReadable(vol, blocks)
  {
    forall i | 0 <= i < |blocks| ensures BlockReadable(vol, blocks[i]) {
      assert vol.blockSize * blocks[i] >= 0;
    }
  }

  /** With a non-negative layout every payload is the clipped slice
      image[system_size + block_size * b .. + block_size]. */
  lemma {:induction false} GatherSlices(vol: Volume, blocks: seq<nat>)
    requires vol.systemSize >= 0 && vol.blockSize >= 0
    ensures AllReadable(vol, blocks)
    ensures Gather(vol, blocks) == ConcatSlices(vol, blocks)
  {
    NonNegativeReadable(vol, blocks);
    if blocks != [] {
      ReadAtIsSlice(vol.image, vol.systemSize, vol.blockSize * blocks[0], vol.blockSize);
      GatherSlices(vol, blocks[1..]);
    }
  }

  /** The clipped slices of `blocks`, concatenated in order. */
  function ConcatSlices(vol: Volume, blocks: seq<nat>): seq<Byte>
    requires vol.systemSize >= 0 && vol.blockSize >= 0
  {
    if blocks == [] then []
    else Slice(vol.image, vol.systemSize + vol.blockSize * blocks[0], vol.blockSize) + ConcatSlices(vol, blocks[1..])
  }

  /** With a non-negative layout reading never fails, and the content of a
      file is the concatenation, in chain order, of the clipped slices of the
      blocks its chain visits. */
  lemma ReadFileIsSlices(place: int, vol: Volume)
    requires ChainEnds(vol.fat, place) && vol.systemSize >= 0 && vol.blockSize >= 0
    ensures ReadFile(place, vol) == Ok(ConcatSlices(vol, Walk(vol.fat, place, |vol.fat|).value))
  {
    GatherSlices(vol, Walk(vol.fat, place, |vol.fat|).value);
  }

  /** A negative block size below -1 makes reading any file fail, because
      the final `f.read(block_size)` of the first block is refused. */
  lemma NegativeBlockSizeFails(place: int, vol: Volume)
    requires ChainEnds(vol.fat, place) && vol.blockSize < -1
    ensures ReadFile(place, vol) == Err(ValueError)
  {
    assert Walk(vol.fat, place, |vol.fat|).value[0] == place;
  }

  /** From the table [(_, 1), (_, 255)], reading block 0 gives block 0's
      payload followed by block 1's, unless one of their reads is refused. */
  lemma TwoBlockFile(vol: Volume, t0: int, t1: int)
    requires vol.fat == [FatRow(t0, 1), FatRow(t1, 255)]
    ensures ChainEnds(vol.fat, 0)
    ensures ReadFile(0, vol)
      == if BlockReadable(vol, 0) && BlockReadable(vol, 1) then Ok(Payload(vol, 0) + Payload(vol, 1))
         else Err(ValueError)
  {
    assert Walk(vol.fat, 1, 1) == Some([1]);
    assert [0] + [1] == [0, 1];
    assert Walk(vol.fat, 0, 2) == Some([0, 1]);
  }

  /** The walk from a block that lies on a cycle of two non-terminators
      never ends, however much fuel it is given: `read_file` has no cycle
      check and recurses on such a chain until the interpreter's recursion
      limit raises RecursionError. */
  lemma {:induction false} CycleNeverEnds(fat: seq<FatRow>, a: nat, b: nat, fuel: nat)
    requires a < |fat| && b < |fat| && fat[a].next == b && fat[b].next == a
    requires !IsTerminator(a) && !IsTerminator(b)
    ensures Walk(fat, a, fuel) == None
    decreases fuel
  {
    if fuel >= 2 {
      CycleNeverEnds(fat, a, b, fuel - 2);
    }
  }

  /** The walk from the `i`-th visited block is the rest of the walk. */
  lemma {:induction false} WalkSuffix(fat: seq<FatRow>, place: int, fuel: nat, i: nat)
    requires Walk(fat, place, fuel).Some? && i < |Walk(fat, place, fuel).value|
    ensures fuel >= i
    ensures Walk(fat, Walk(fat, place, fuel).value[i], fuel - i) == Some(Walk(fat, place, fuel).value[i..])
    decreases i
  {
    var w := Walk(fat, place, fuel).value;
    if i > 0 {
      WalkTail(fat, place, fuel);
      var rest := w[1..];
      WalkSuffix(fat, fat[place].next, fuel - 1, i - 1);
      assert rest[i - 1] == w[i] && rest[i - 1..] == w[i..];
    }
  }

  /** A walk that visits more than one block took a link from `place`, and
      the rest of it is the walk from the successor with one link less. */
  lemma WalkTail(fat: seq<FatRow>, place: int, fuel: nat)
    requires Walk(fat, place, fuel).Some? && |Walk(fat, place, fuel).value| > 1
    ensures 0 <= place < |fat| && !IsTerminator(fat[place].next) && fuel > 0
    ensures Walk(fat, fat[place].next, fuel - 1) == Some(Walk(fat, place, fuel).value[1..])
  {
  }

  /** A chain that ends never visits a block twice. */
  lemma WalkDistinct(fat: seq<FatRow>, place: int, fuel: nat, i: nat, j: nat)
    requires Walk(fat, place, fuel).Some?
    requires i < j < |Walk(fat, place, fuel).value|
    ensures Walk(fat, place, fuel).value[i] != Walk(fat, place, fuel).value[j]
  {
    var w := Walk(fat, place, fuel).value;
    if w[i] == w[j] {
      WalkSuffix(fat, place, fuel, i);
      WalkSuffix(fat, place, fuel, j);
      WalkStable(fat, w[i], fuel - j, fuel - i);
      assert false;
    }
  }

  /** A sequence of distinct numbers below `n` has at most `n` elements. */
  lemma {:induction false} DistinctBelow(w: seq<nat>, n: nat)
    requires forall i :: 0 <= i < |w| ==> w[i] < n
    requires forall i, j :: 0 <= i < j < |w| ==> w[i] != w[j]
    ensures |w| <= n
    decreases n
  {
    if w == [] {
    } else if k :| 0 <= k < |w| && w[k] == n - 1 {
      var rest := w[..k] + w[k + 1..];
      forall i | 0 <= i < |rest| ensures rest[i] < n - 1 {
        if i < k { assert rest[i] == w[i]; } else { assert rest[i] == w[i + 1]; }
      }
      forall i, j | 0 <= i < j < |rest| ensures rest[i] != rest[j] {
        var i' := if i < k then i else i + 1;
        var j' := if j < k then j else j + 1;
        assert rest[i] == w[i'] && rest[j] == w[j'];
      }
      DistinctBelow(rest, n - 1);
    } else {
      assert w[0] < n;
      DistinctBelow(w, n - 1);
    }
  }

  /** The end of any terminating chain is reached within as many links as
      the table has rows, so `ChainEnds` is exactly "the chain terminates". */
  lemma EndsWithinTable(fat: seq<FatRow>, place: int, fuel: nat)
    requires Walk(fat, place, fuel).Some?
    ensures ChainEnds(fat, place)
  {
    var w := Walk(fat, place, fuel).value;
    forall i, j | 0 <= i < j < |w| ensures w[i] != w[j] {
      WalkDistinct(fat, place, fuel, i, j);
    }
    DistinctBelow(w, |fat|);
    WalkFuel(fat, place, fuel);
    WalkStable(fat, place, |w| - 1, |fat|);
  }

  /** A walk that ends after visiting `|w|` blocks needs only `|w| - 1` links of fuel. */
  lemma {:induction false} WalkFuel(fat: seq<FatRow>, place: int, fuel: nat)
    requires Walk(fat, place, fuel).Some?
    ensures Walk(fat, place, |Walk(fat, place, fuel).value| - 1) == Walk(fat, place, fuel)
    decreases fuel
  {
    if !IsTerminator(fat[place].next) {
      WalkFuel(fat, fat[place].next, fuel - 1);
    }
  }
}
