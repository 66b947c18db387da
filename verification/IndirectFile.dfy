/**
  A file that is mapped by indirect blocks (ext4/indirect.c): ext4_ind_truncate on the
  whole file, and exactly which blocks it frees.
 */
module IndirectFile {
  import opened Blocks
  import opened IndirectPath
  import opened IndirectTree
  import opened IndirectMeta
  import opened IndirectVals
  import opened IndirectTruncate

  ghost predicate FileKept(data: seq<Slot>, log: seq<Freed>, data': seq<Slot>, log': seq<Freed>) {
    && (forall p: nat :: DataOf(data', p) + FreedData(log', p) == DataOf(data, p) + FreedData(log, p))
    && (forall p: nat :: MetaOf(data', p) + FreedMeta(log', p) == MetaOf(data, p) + FreedMeta(log, p))
  }

  lemma KeptSlot(data: seq<Slot>, log: seq<Freed>, i: nat, x: Slot, log': seq<Freed>)
    requires i < |data| && Kept(data[i], log, x, log')
    ensures FileKept(data, log, data[i := x], log')
  {
    forall p: nat
      ensures DataOf(data[i := x], p) + FreedData(log', p) == DataOf(data, p) + FreedData(log, p)
      ensures MetaOf(data[i := x], p) + FreedMeta(log', p) == MetaOf(data, p) + FreedMeta(log, p)
    {
      assert data == data[..i] + [data[i]] + data[i+1..] && data[i := x] == data[..i] + [x] + data[i+1..];
      CountMiddle(data[..i], data[i], data[i+1..], p);
      CountMiddle(data[..i], x, data[i+1..], p);
      assert DataIn(x, p) + FreedData(log', p) == DataIn(data[i], p) + FreedData(log, p);
      assert MetaIn(x, p) + FreedMeta(log', p) == MetaIn(data[i], p) + FreedMeta(log, p);
    }
  }

  lemma KeptTrans(d0: seq<Slot>, l0: seq<Freed>, d1: seq<Slot>, l1: seq<Freed>, d2: seq<Slot>, l2: seq<Freed>)
    requires FileKept(d0, l0, d1, l1) && FileKept(d1, l1, d2, l2)
    ensures FileKept(d0, l0, d2, l2)
  {
    forall p: nat
      ensures DataOf(d2, p) + FreedData(l2, p) == DataOf(d0, p) + FreedData(l0, p)
      ensures MetaOf(d2, p) + FreedMeta(l2, p) == MetaOf(d0, p) + FreedMeta(l0, p)
    {
      assert DataOf(d1, p) + FreedData(l1, p) == DataOf(d0, p) + FreedData(l0, p);
      assert MetaOf(d1, p) + FreedMeta(l1, p) == MetaOf(d0, p) + FreedMeta(l0, p);
    }
  }

  // ---------------------------------------------------------------- truncate

  lemma TruncDataMap(data: seq<Slot>, ptrs: nat, last: nat, data': seq<Slot>)
    requires ValidData(data, ptrs) && last < MaxBlocks(ptrs)
    requires BlockToPath(last, ptrs) != [] && TruncData(data, BlockToPath(last, ptrs), data')
    ensures ValidData(data', ptrs)
    ensures forall b: nat :: FileAt(data', ptrs, b) == if b < last then FileAt(data, ptrs, b) else 0
  {
    var cut := BlockToPath(last, ptrs);
    BlockPathBlock(last, ptrs);
    TruncShape(data[cut[0]], Levels(cut[0]), ptrs, cut[1..]);
    assert ValidData(data', ptrs);
    forall b: nat ensures FileAt(data', ptrs, b) == if b < last then FileAt(data, ptrs, b) else 0 {
      if b < MaxBlocks(ptrs) {
        BlockPathBlock(b, ptrs);
        TruncDataAt(data, ptrs, BlockToPath(b, ptrs), cut, data');
      }
    }
  }

  lemma TruncDataAt(data: seq<Slot>, ptrs: nat, path: seq<nat>, cut: seq<nat>, data': seq<Slot>)
    requires ValidData(data, ptrs) && ValidPath(path, ptrs) && ValidPath(cut, ptrs) && TruncData(data, cut, data')
    ensures PathAt(data'[path[0]], path[1..]) ==
            if PathToBlock(path, ptrs) < PathToBlock(cut, ptrs) then PathAt(data[path[0]], path[1..]) else 0
  {
    PathOrder(path, cut, ptrs);
    PathOrder(cut, path, ptrs);
    if path[0] == cut[0] {
      TruncMap(data[cut[0]], Levels(cut[0]), ptrs, cut[1..], path[1..]);
    }
  }

  class IndFile {
    const ptrs: nat
    var data: seq<Slot>
    /** blocks given back, and blocks got from the allocator, newest first */
    var freed: seq<Freed>
    var taken: seq<Freed>

    /** A file without blocks. */
    constructor (pointers: nat)
      requires NDIR_BLOCKS <= pointers
      ensures Valid() && ptrs == pointers && data == Empties(15) && freed == [] && taken == []
      ensures forall b: nat :: FileAt(data, ptrs, b) == 0
    {
      ptrs, data, freed, taken := pointers, Empties(15), [], [];
      new;
      forall b: nat ensures FileAt(data, ptrs, b) == 0 {
        if b < MaxBlocks(ptrs) { BlockPathBlock(b, ptrs); }
      }
    }

    ghost predicate Valid()
      reads this
    {
      ValidData(data, ptrs)
    }

    /** The direct pointers from first on. */
    method FreeDirect(first: nat)
      requires Valid() && first < NDIR_BLOCKS
      modifies `data, `freed
      ensures Valid() && FileKept(old(data), old(freed), data, freed)
      ensures data == old(data)[..first] + Empties(NDIR_BLOCKS - first) + old(data)[NDIR_BLOCKS..]
    {
      ghost var d0, l0 := data, freed;
      DirectShapes(data, ptrs);
      var kids;
      kids, freed := FreeData(data[..NDIR_BLOCKS], first, NDIR_BLOCKS, ptrs, freed);
      data := kids + data[NDIR_BLOCKS..];
      DirectCleared(d0, l0, first, kids, data, freed);
    }

    /** The tail of ext4_ind_truncate: the whole trees behind slot i. */
    method KillTrees(i: nat)
      requires Valid() && i <= TIND_BLOCK
      modifies `data, `freed
      ensures Valid() && FileKept(old(data), old(freed), data, freed)
      ensures |data| == 15 && forall j :: 0 <= j < 15 ==>
                data[j] == if j > i && j >= IND_BLOCK then Empty else old(data)[j]
    {
      var k: nat := if i < IND_BLOCK then IND_BLOCK else i + 1;
      while k <= TIND_BLOCK
        invariant IND_BLOCK <= k <= 15 && i < k && |data| == 15 && Valid()
        invariant forall j :: 0 <= j < 15 ==> data[j] == if i < j < k && j >= IND_BLOCK then Empty else old(data)[j]
        invariant FileKept(old(data), old(freed), data, freed)
      {
        ghost var d1, l1 := data, freed;
        var s;
        s, freed := FreeWhole(data[k], Levels(k), ptrs, freed);
        KeptSlot(data, l1, k, s, freed);
        data := data[k := s];
        KeptTrans(old(data), old(freed), d1, l1, data, freed);
        k := k + 1;
      }
    }

    /** ext4_ind_truncate: last is the first block to go, maxBlock the limit of the file system. */
    method Truncate(last: nat, maxBlock: nat)
      requires Valid() && forall b: nat :: maxBlock <= b ==> FileAt(data, ptrs, b) == 0
      modifies `data, `freed
      ensures Valid()
      ensures forall b: nat :: FileAt(data, ptrs, b) == if b < last then old(FileAt(data, ptrs, b)) else 0
      ensures FileKept(old(data), old(freed), data, freed)
      ensures last < MaxBlocks(ptrs) && last != maxBlock ==>
                BlockToPath(last, ptrs) != [] && TruncData(old(data), BlockToPath(last, ptrs), data)
      ensures forall p: nat :: 0 < p ==>
                FreedData(freed, p) == old(FreedData(freed, p)) + Hits(old(data), ptrs, last, MaxBlocks(ptrs), p)
      ensures forall p: nat :: MetaOf(old(data), p) <= 1 ==>
                FreedMeta(freed, p) == old(FreedMeta(freed, p)) +
                    if Loses(old(data), ptrs, last, maxBlock, p) then 1 else 0
    {
      BlockPathBlock(last, ptrs);
      var cut := BlockToPath(last, ptrs);
      if last == maxBlock || cut == [] {
        forall p: nat | 0 < p
          ensures Hits(data, ptrs, last, MaxBlocks(ptrs), p) == 0
        {
          HitsNone(data, ptrs, last, MaxBlocks(ptrs), p);
        }
        return;
      }
      ghost var d0, l0 := data, freed;
      if |cut| == 1 {
        FreeDirect(cut[0]);
      } else {
        var s;
        s, freed := TruncSlot(data[cut[0]], cut[1..], Levels(cut[0]), ptrs, freed);
        KeptSlot(data, l0, cut[0], s, freed);
        TruncShape(data[cut[0]], Levels(cut[0]), ptrs, cut[1..]);
        data := data[cut[0] := s];
      }
      ghost var d1, l1 := data, freed;
      KillTrees(cut[0]);
      KeptTrans(d0, l0, d1, l1, data, freed);
      TruncDataMap(d0, ptrs, last, data);
      forall p: nat | 0 < p ensures FreedData(freed, p) == FreedData(l0, p) + Hits(d0, ptrs, last, MaxBlocks(ptrs), p) {
        CutHits(d0, data, ptrs, last, p);
      }
      forall p: nat | MetaOf(d0, p) <= 1
        ensures FreedMeta(freed, p) == FreedMeta(l0, p) + if Loses(d0, ptrs, last, maxBlock, p) then 1 else 0
      {
        LostExactly(d0, ptrs, last, maxBlock, data, p);
      }
    }
  }

  /** p is the number of an indirect block that truncation at block last frees. */
  ghost predicate Loses(data: seq<Slot>, ptrs: nat, last: nat, maxBlock: nat, p: nat)
    requires 0 < ptrs
  {
    last < MaxBlocks(ptrs) && last != maxBlock && LosesMeta(data, BlockToPath(last, ptrs), p)
  }

  lemma DirectCleared(data: seq<Slot>, log: seq<Freed>, first: nat, kids: seq<Slot>, data': seq<Slot>, log': seq<Freed>)
    requires |data| == 15 && first < NDIR_BLOCKS
    requires var k := data[..NDIR_BLOCKS];
             kids == k[..first] + Empties(NDIR_BLOCKS - first) + k[NDIR_BLOCKS..] &&
                 Gained(log, k[first..NDIR_BLOCKS], log')
    requires data' == kids + data[NDIR_BLOCKS..]
    ensures FileKept(data, log, data', log')
    ensures data' == data[..first] + Empties(NDIR_BLOCKS - first) + data[NDIR_BLOCKS..]
  {
    var k, c := data[..NDIR_BLOCKS], data[NDIR_BLOCKS..];
    assert data == k + c && k[..first] == data[..first] && k[NDIR_BLOCKS..] == [];
    forall p: nat
      ensures DataOf(data', p) + FreedData(log', p) == DataOf(data, p) + FreedData(log, p)
      ensures MetaOf(data', p) + FreedMeta(log', p) == MetaOf(data, p) + FreedMeta(log, p)
    {
      ClearedCount(k, first, NDIR_BLOCKS, p);
      DataConcat(k, c, p); MetaConcat(k, c, p);
      DataConcat(kids, c, p); MetaConcat(kids, c, p);
    }
  }

  lemma LostExactly(data: seq<Slot>, ptrs: nat, last: nat, maxBlock: nat, data': seq<Slot>, p: nat)
    requires ValidData(data, ptrs) && last < MaxBlocks(ptrs) && last != maxBlock && MetaOf(data, p) <= 1
    requires BlockToPath(last, ptrs) != [] && TruncData(data, BlockToPath(last, ptrs), data')
    ensures MetaOf(data, p) == MetaOf(data', p) + if Loses(data, ptrs, last, maxBlock, p) then 1 else 0
  {
    BlockPathBlock(last, ptrs);
    MetaExactly(data, ptrs, BlockToPath(last, ptrs), data', p);
  }
}
