/**
  Changing one extent in place and splitting it (ext4/extents.c):
  ext4_split_extent_at and ext4_force_split_extent_at.
 */
module ExtentModify {
  import opened Wrappers
  import opened Blocks
  import opened Extents
  import opened ExtentTree
  import opened ExtentSearch
  import opened ExtentNeighbours
  import opened ExtentMerge
  import opened ExtentPlace
  import opened ExtentInsert

  /** path leads to the extent that covers b. */
  ghost predicate PathTo(t: Tree, d: nat, path: Path, b: nat) {
    && Reaches(t, path.pos) && |path.pos| == d && Sub(t, path.pos).Leaf? && path.ext.Some?
    && path.ext.value < |Sub(t, path.pos).exts|
    && Covers(Sub(t, path.pos).exts[path.ext.value], b)
  }

  lemma RankAt(t: Tree, path: Path)
    requires Reaches(t, path.pos) && Sub(t, path.pos).Leaf? && path.ext.Some?
    requires path.ext.value < |Sub(t, path.pos).exts|
    ensures Rank(t, path) < |Flat(t)|
    ensures Flat(t)[Rank(t, path)] == Sub(t, path.pos).exts[path.ext.value]
  {
    SubFlat(t, path.pos);
  }

  /** Such a path is the one that the descent for b finds. */
  lemma PathToFinds(g: Geometry, t: Tree, d: nat, path: Path, b: nat)
    requires WellFormed(g, t, d) && PathTo(t, d, path, b)
    ensures PathFor(t, path, b)
  {
    var pos, p := path.pos, path.ext.value;
    assert Sorted(Before(t, pos) + Sub(t, pos).exts + After(t, pos)) by { SubFlat(t, pos); }
    CoverBracket(Before(t, pos), Sub(t, pos).exts, After(t, pos), p, b);
    BracketFollows(g, t, d, true, pos, b);
  }

  lemma CoverBracket(bf: seq<Extent>, exts: seq<Extent>, af: seq<Extent>, p: nat, b: nat)
    requires Sorted(bf + exts + af) && p < |exts| && Covers(exts[p], b)
    ensures ClosestExt(exts, b, p) && exts[0].block <= b
    ensures af != [] ==> b < af[0].block
  {
    SortedParts(bf + exts, af);
    SortedParts(bf, exts);
    assert forall j :: 0 <= j < |exts| ==> ValidExtent(exts[j]);
    if af != [] {
      assert (bf + exts)[|bf| + p] == exts[p];
    }
  }

  lemma PutSeq(bf: seq<Extent>, exts: seq<Extent>, af: seq<Extent>, p: nat, y: Extent)
    requires p < |exts|
    ensures bf + exts[p := y] + af == (bf + exts + af)[|bf| + p := y]
  {
  }

  lemma EntryFlat(t: Tree, path: Path, y: Extent)
    requires Reaches(t, path.pos) && Sub(t, path.pos).Leaf? && path.ext.Some?
    requires path.ext.value < |Sub(t, path.pos).exts|
    ensures Rank(t, path) < |Flat(t)| && Flat(t)[Rank(t, path)] == Sub(t, path.pos).exts[path.ext.value]
    ensures Flat(Put(t, path.pos, Leaf(Sub(t, path.pos).exts[path.ext.value := y]))) == Flat(t)[Rank(t, path) := y]
  {
    RankAt(t, path);
    SubFlat(t, path.pos);
    PutParts(t, path.pos, Leaf(Sub(t, path.pos).exts[path.ext.value := y]));
    PutSeq(Before(t, path.pos), Sub(t, path.pos).exts, After(t, path.pos), path.ext.value, y);
  }

  /** Rewriting one entry of a leaf by an extent that starts at the same block and is not longer. */
  lemma EntryPut(g: Geometry, t: Tree, d: nat, path: Path, y: Extent)
    requires WellFormed(g, t, d) && Reaches(t, path.pos) && |path.pos| == d && Sub(t, path.pos).Leaf?
    requires path.ext.Some? && path.ext.value < |Sub(t, path.pos).exts|
    requires var x := Sub(t, path.pos).exts[path.ext.value];
             ValidExtent(y) && y.block == x.block && End(y) <= End(x)
    ensures var exts := Sub(t, path.pos).exts;
            var t' := Put(t, path.pos, Leaf(exts[path.ext.value := y]));
            && WellFormed(g, t', d) && Edited(g, t, d, path.pos, t')
            && Sub(t', path.pos) == Leaf(exts[path.ext.value := y])
            && Rank(t, path) < |Flat(t)| && Flat(t') == Flat(t)[Rank(t, path) := y]
            && First(Sub(t', path.pos)) == First(Sub(t, path.pos))
            && |exts| <= LeafCap(g, d == 0)
            && forall b :: Uses(t', b) == Uses(t, b)
  {
    var pos, p := path.pos, path.ext.value;
    var exts := Sub(t, pos).exts;
    var leaf := Leaf(exts[p := y]);
    LeafEdit(g, t, d, pos, leaf);
    EntryFlat(t, path, y);
    FitsSub(g, t, d, true, pos);
    PutFits(g, t, d, true, pos, leaf);
    UpdateSorted(Flat(t), Rank(t, path), y);
  }

  lemma UpdateSorted(f: seq<Extent>, k: nat, y: Extent)
    requires Sorted(f) && k < |f| && ValidExtent(y) && f[k].block <= y.block && End(y) <= End(f[k])
    ensures Sorted(f[k := y])
  {
    var f' := f[k := y];
    forall i, j | 0 <= i < j < |f'| ensures End(f'[i]) <= f'[j].block {
      assert End(f[i]) <= f[j].block;
    }
  }

  // ------------------------------------------------------------------- split

  /** f' is f with the blocks of [lo, hi) marked u1 below mid and u2 from mid on. */
  ghost predicate Remarked(f: seq<Extent>, f': seq<Extent>, lo: nat, mid: nat, hi: nat, u1: bool, u2: bool) {
    && (forall b: nat :: lo <= b < hi ==>
          At(f, b).Some? && At(f', b) == Some(Cell(At(f, b).value.pblk, if b < mid then u1 else u2)))
    && (forall b: nat :: !(lo <= b < hi) ==> At(f', b) == At(f, b))
    && (forall p :: Owns(f', p) == Owns(f, p))
  }

  function HeadOf(x: Extent, split: nat, u: bool): Extent
    requires ValidExtent(x) && x.block < split < End(x)
  {
    Make(x.block, split - x.block, x.pblk, u)
  }

  function TailOf(x: Extent, split: nat, u: bool): Extent
    requires ValidExtent(x) && x.block < split < End(x)
  {
    Make(split, End(x) - split, x.pblk + (split - x.block), u)
  }

  lemma AtUpdate(f: seq<Extent>, k: nat, y: Extent, b: nat)
    requires k < |f|
    ensures At(f[..k] + [y] + f[k+1..], b) ==
            if At(f[..k], b).Some? then At(f[..k], b) else if Covers(y, b) then Some(CellOf(y, b)) else At(f[k+1..], b)
  {
    AtConcat3(f[..k], [y], f[k+1..], b);
    AtOne(y, b);
  }

  /** Marking a whole extent. */
  lemma MarkWhole(f: seq<Extent>, k: nat, y: Extent)
    requires Sorted(f) && k < |f| && ValidExtent(y)
    requires y.block == f[k].block && Len(y) == Len(f[k]) && y.pblk == f[k].pblk
    ensures Remarked(f, f[k := y], f[k].block, f[k].block, End(f[k]), Unwritten(y), Unwritten(y))
  {
    var f' := f[k := y];
    UpdateSorted(f, k, y);
    assert f == f[..k] + [f[k]] + f[k+1..] && f' == f[..k] + [y] + f[k+1..];
    forall b: nat
      ensures Covers(f[k], b) ==> At(f, b) == Some(CellOf(f[k], b)) && At(f', b) == Some(CellOf(y, b))
      ensures !Covers(f[k], b) ==> At(f', b) == At(f, b)
    {
      if Covers(f[k], b) {
        AtHit(f, k, b);
        AtHit(f', k, b);
      } else {
        AtUpdate(f, k, f[k], b);
        AtUpdate(f, k, y, b);
      }
    }
    forall p ensures Owns(f', p) == Owns(f, p) { OwnsUpdate(f, k, y, p); }
  }

  lemma OwnsUpdate(f: seq<Extent>, k: nat, y: Extent, p: nat)
    requires k < |f|
    ensures Owns(f[k := y], p) + InRun(f[k].pblk, Len(f[k]), p) == Owns(f, p) + InRun(y.pblk, Len(y), p)
  {
    assert f == f[..k] + [f[k]] + f[k+1..] && f[k := y] == f[..k] + [y] + f[k+1..];
    OwnsConcat(f[..k] + [f[k]], f[k+1..], p);
    OwnsConcat(f[..k], [f[k]], p);
    OwnsConcat(f[..k] + [y], f[k+1..], p);
    OwnsConcat(f[..k], [y], p);
    OwnsOne(f[k], p);
    OwnsOne(y, p);
  }

  /** Shortening an extent and adding its tail as a new one. */
  lemma HeadAndTail(f: seq<Extent>, k: nat, split: nat, u1: bool, u2: bool, f': seq<Extent>)
    requires Sorted(f) && k < |f| && f[k].block < split < End(f[k])
    requires MapsPlus(f[k := HeadOf(f[k], split, u1)], TailOf(f[k], split, u2), f')
    ensures Remarked(f, f', f[k].block, split, End(f[k]), u1, u2)
  {
    var x, h, t := f[k], HeadOf(f[k], split, u1), TailOf(f[k], split, u2);
    var f1 := f[k := h];
    UpdateSorted(f, k, h);
    assert f == f[..k] + [x] + f[k+1..] && f1 == f[..k] + [h] + f[k+1..];
    forall b: nat
      ensures Covers(x, b) ==>
                At(f, b) == Some(CellOf(x, b)) && At(f', b) == Some(if b < split then CellOf(h, b) else CellOf(t, b))
      ensures !Covers(x, b) ==> At(f', b) == At(f, b)
    {
      if Covers(x, b) {
        AtHit(f, k, b);
        if b < split { AtHit(f1, k, b); }
      } else {
        AtUpdate(f, k, x, b);
        AtUpdate(f, k, h, b);
      }
    }
    forall p ensures Owns(f', p) == Owns(f, p) { OwnsUpdate(f, k, h, p); }
  }

  /** The only place for the tail of extent k is right behind its head. */
  lemma TailPlace(f1: seq<Extent>, k: nat, t: Extent, f': seq<Extent>)
    requires Sorted(f1) && Sorted(f') && ValidExtent(t) && k < |f1| && End(f1[k]) == t.block
    requires k + 1 < |f1| ==> End(t) <= f1[k+1].block
    requires Placed(f1, t, f')
    ensures f' == f1[..k+1] + [t] + f1[k+1..]
  {
    var i :| 0 <= i <= |f1| && f' == f1[..i] + [t] + f1[i..];
    PlacedOrder(f1, t, i);
    assert ValidExtent(f1[k]);
    assert i == k + 1;
  }

  lemma PlacedOrder(f: seq<Extent>, t: Extent, i: nat)
    requires i <= |f| && Sorted(f[..i] + [t] + f[i..])
    ensures forall j :: 0 <= j < i ==> End(f[j]) <= t.block
    ensures forall j :: i <= j < |f| ==> End(t) <= f[j].block
  {
    var f' := f[..i] + [t] + f[i..];
    assert f'[i] == t;
    forall j | 0 <= j < i ensures End(f[j]) <= t.block { assert f'[j] == f[j]; }
    forall j | i <= j < |f| ensures End(t) <= f[j].block { assert f'[j+1] == f[j]; }
  }

  lemma TailApart(f: seq<Extent>, k: nat, split: nat, u1: bool, u2: bool)
    requires Sorted(f) && k < |f| && f[k].block < split < End(f[k])
    ensures Apart(f[k := HeadOf(f[k], split, u1)], TailOf(f[k], split, u2))
  {
    var f1, t := f[k := HeadOf(f[k], split, u1)], TailOf(f[k], split, u2);
    forall i | 0 <= i < |f1| ensures End(f1[i]) <= t.block || End(t) <= f1[i].block {
      if i < k { assert End(f[i]) <= f[k].block; }
      if i > k { assert End(f[k]) <= f[i].block; }
    }
  }

  /** Writing one leaf entry through a path. */
  method SetEntry(ino: Inode, path: Path, y: Extent)
    requires ino.Valid() && Reaches(ino.root, path.pos) && |path.pos| == ino.depth && Sub(ino.root, path.pos).Leaf?
    requires path.ext.Some? && path.ext.value < |Sub(ino.root, path.pos).exts|
    requires var x := Sub(ino.root, path.pos).exts[path.ext.value];
             ValidExtent(y) && y.block == x.block && End(y) <= End(x)
    modifies ino`root
    ensures ino.Valid() && Edited(ino.g, old(ino.root), ino.depth, path.pos, ino.root)
    ensures Sub(ino.root, path.pos) == Leaf(old(Sub(ino.root, path.pos).exts)[path.ext.value := y])
    ensures ino.root == Put(old(ino.root), path.pos, Sub(ino.root, path.pos))
    ensures old(Rank(ino.root, path)) < |old(Flat(ino.root))|
    ensures Flat(ino.root) == old(Flat(ino.root))[old(Rank(ino.root, path)) := y]
    ensures First(Sub(ino.root, path.pos)) == old(First(Sub(ino.root, path.pos)))
    ensures |Sub(ino.root, path.pos).exts| <= LeafCap(ino.g, ino.depth == 0)
    ensures forall b :: ino.Held(b) == old(ino.Held(b))
  {
    EntryPut(ino.g, ino.root, ino.depth, path, y);
    ino.root := Put(ino.root, path.pos, Leaf(Sub(ino.root, path.pos).exts[path.ext.value := y]));
  }

  /** Extent k of f was divided at split; without merging, into exactly two extents. */
  ghost predicate Divided(f: seq<Extent>, f': seq<Extent>, k: nat, split: nat, u1: bool, u2: bool, exact: bool) {
    && k < |f| && ValidExtent(f[k]) && f[k].block < split < End(f[k])
    && Remarked(f, f', f[k].block, split, End(f[k]), u1, u2)
    && (exact ==> f' == f[..k] + [HeadOf(f[k], split, u1), TailOf(f[k], split, u2)] + f[k+1..])
  }

  /** The head of entry p stays in its place, and its tail is inserted and merged with its neighbours. */
  ghost predicate TailJoins(pendingIo: bool, exts: seq<Extent>, p: nat, split: nat, u1: bool, u2: bool, cap: nat,
                            grown: bool, ok: bool, n: nat, n': nat) {
    && p < |exts| && ValidExtent(exts[p]) && exts[p].block < split < End(exts[p])
    && Joins(pendingIo, exts[p := HeadOf(exts[p], split, u1)], p, TailOf(exts[p], split, u2), cap, grown, ok, n, n')
  }

  /** Case a of ext4_split_extent_at: shorten the extent, insert its tail; if the
      insertion fails, put the original length back. */
  method SplitInside(ino: Inode, path: Path, split: nat, u1: bool, u2: bool, preIo: bool, canExtend: bool)
    returns (r: Status)
    requires ino.Valid() && PathTo(ino.root, ino.depth, path, split)
    requires var x := Sub(ino.root, path.pos).exts[path.ext.value]; ValidExtent(x) && x.block < split
    modifies ino
    ensures ino.Valid() && ino.pendingIo == old(ino.pendingIo) && ino.depth <= old(ino.depth) + 1
    ensures ino.depth < old(ino.depth) ==> canExtend
    ensures forall b :: ino.Held(b) == old(ino.Held(b))
    ensures forall p :: FreedData(ino.freed, p) == FreedData(old(ino.freed), p)
    ensures r == Ok || r == NoSpace
    ensures |ino.pool| <= |old(ino.pool)| <= |ino.pool| + old(ino.depth) + 2
    ensures r == NoSpace ==>
              Flat(ino.root) == old(Flat(ino.root)) && |old(ino.pool)| < old(ino.depth) + 2 && ino.pool == []
    ensures r == Ok ==> Divided(old(Flat(ino.root)), Flat(ino.root), old(Rank(ino.root, path)), split, u1, u2, preIo)
    ensures r == Ok && preIo ==> ino.freed == old(ino.freed)
    ensures !preIo ==>
              TailJoins(ino.pendingIo, old(Sub(ino.root, path.pos).exts), path.ext.value, split, u1, u2,
                        LeafCap(ino.g, old(ino.depth) == 0), old(ino.depth) == 0 && old(ino.pool) != [], r == Ok,
                        |old(Flat(ino.root))|, |Flat(ino.root)|)
  {
    var x := Sub(ino.root, path.pos).exts[path.ext.value];
    ghost var f, k := Flat(ino.root), Rank(ino.root, path);
    RankAt(ino.root, path);
    Shorten(ino, path, split, u1, u2);
    r := ino.InsertExtent(path, TailOf(x, split, u2), preIo, canExtend);
    if r == Ok {
      TailInserted(f, k, split, u1, u2, preIo, Flat(ino.root));
    } else {
      Restore(ino, f, k, HeadOf(x, split, u1), x);
    }
  }

  /** Reduce the extent of the path to its part before split; there is room for the rest where the path leads. */
  method Shorten(ino: Inode, path: Path, split: nat, u1: bool, ghost u2: bool)
    requires ino.Valid() && PathTo(ino.root, ino.depth, path, split)
    requires var x := Sub(ino.root, path.pos).exts[path.ext.value]; ValidExtent(x) && x.block < split
    modifies ino`root
    ensures ino.Valid() && forall b :: ino.Held(b) == old(ino.Held(b))
    ensures PathFor(ino.root, path, split) && |path.pos| == ino.depth
    ensures var x, k := old(Sub(ino.root, path.pos).exts[path.ext.value]), old(Rank(ino.root, path));
            && k < |old(Flat(ino.root))| && Flat(ino.root) == old(Flat(ino.root))[k := HeadOf(x, split, u1)]
            && ValidExtent(TailOf(x, split, u2)) && Apart(Flat(ino.root), TailOf(x, split, u2))
            && Sub(ino.root, path.pos) ==
                 Leaf(old(Sub(ino.root, path.pos).exts)[path.ext.value := HeadOf(x, split, u1)])
  {
    var x := Sub(ino.root, path.pos).exts[path.ext.value];
    ghost var f, k, t := Flat(ino.root), Rank(ino.root, path), ino.root;
    RankAt(ino.root, path);
    PathToFinds(ino.g, ino.root, ino.depth, path, split);
    SetEntry(ino, path, HeadOf(x, split, u1));
    TailPath(t, ino.root, path, split, HeadOf(x, split, u1));
    TailApart(f, k, split, u1, u2);
  }

  lemma TailInserted(f: seq<Extent>, k: nat, split: nat, u1: bool, u2: bool, preIo: bool, f2: seq<Extent>)
    requires Sorted(f) && k < |f| && f[k].block < split < End(f[k]) && Sorted(f2)
    requires MapsPlus(f[k := HeadOf(f[k], split, u1)], TailOf(f[k], split, u2), f2)
    requires preIo ==> Placed(f[k := HeadOf(f[k], split, u1)], TailOf(f[k], split, u2), f2)
    ensures Divided(f, f2, k, split, u1, u2, preIo)
  {
    var head, tail := HeadOf(f[k], split, u1), TailOf(f[k], split, u2);
    HeadAndTail(f, k, split, u1, u2, f2);
    if preIo {
      UpdateSorted(f, k, head);
      TailPlace(f[k := head], k, tail, f2);
      HeadTailSeq(f, k, head, tail);
    }
  }

  lemma HeadTailSeq(f: seq<Extent>, k: nat, h: Extent, t: Extent)
    requires k < |f|
    ensures f[k := h][..k+1] + [t] + f[k := h][k+1..] == f[..k] + [h, t] + f[k+1..]
  {
  }

  /** The path to the shortened extent is the path for its tail. */
  lemma TailPath(t: Tree, t1: Tree, path: Path, split: nat, head: Extent)
    requires PathFor(t, path, split) && path.ext.Some?
    requires t1 == Put(t, path.pos, Leaf(Sub(t, path.pos).exts[path.ext.value := head]))
    requires head.block == Sub(t, path.pos).exts[path.ext.value].block
    ensures PathFor(t1, path, split)
  {
    var exts, p := Sub(t, path.pos).exts, path.ext.value;
    FollowsPut(t, path.pos, Leaf(exts[p := head]), split);
    PutReaches(t, path.pos, Leaf(exts[p := head]));
  }

  /** The label fix_extent_len. */
  method Restore(ino: Inode, ghost f: seq<Extent>, ghost k: nat, head: Extent, x: Extent)
    requires ino.Valid() && Sorted(f) && k < |f| && f[k] == x && Flat(ino.root) == f[k := head]
    requires ValidExtent(x) && ValidExtent(head) && head.block == x.block
    modifies ino`root
    ensures ino.Valid() && Flat(ino.root) == f
    ensures forall b :: ino.Held(b) == old(ino.Held(b))
  {
    FitsSearchable(ino.g, ino.root, ino.depth, true);
    var path := FindExtent(ino.root, ino.depth, x.block);
    LandsOn(ino.g, ino.root, ino.depth, path, k);
    GrowBack(ino.g, ino.root, ino.depth, path, x, f);
    ino.root := Put(ino.root, path.pos, Leaf(Sub(ino.root, path.pos).exts[path.ext.value := x]));
  }

  /** Searching for the start of extent k finds extent k. */
  lemma LandsOn(g: Geometry, t: Tree, d: nat, path: Path, k: nat)
    requires WellFormed(g, t, d) && k < |Flat(t)| && PathFor(t, path, Flat(t)[k].block) && |path.pos| == d
    ensures path.ext.Some? && Rank(t, path) == k
    ensures Sub(t, path.pos).exts[path.ext.value] == Flat(t)[k]
  {
    assert path.ext.Some? by {
      if path.ext.None? { EmptyLeaf(g, t, d, path.pos); }
    }
    RankBracket(g, t, d, path, Flat(t)[k].block);
    SamePlace(Flat(t), k, Rank(t, path), Flat(t)[k].block);
  }

  lemma GrowBack(g: Geometry, t: Tree, d: nat, path: Path, x: Extent, f: seq<Extent>)
    requires WellFormed(g, t, d) && Reaches(t, path.pos) && |path.pos| == d && Sub(t, path.pos).Leaf?
    requires path.ext.Some? && path.ext.value < |Sub(t, path.pos).exts|
    requires Sub(t, path.pos).exts[path.ext.value].block == x.block
    requires Sorted(f) && |f| == |Flat(t)| && Rank(t, path) < |f| && Flat(t)[Rank(t, path) := x] == f
    ensures var t' := Put(t, path.pos, Leaf(Sub(t, path.pos).exts[path.ext.value := x]));
            && WellFormed(g, t', d) && Flat(t') == f && forall b :: Uses(t', b) == Uses(t, b)
  {
    var pos, exts := path.pos, Sub(t, path.pos).exts;
    var leaf := Leaf(exts[path.ext.value := x]);
    LeafEdit(g, t, d, pos, leaf);
    assert Flat(Put(t, pos, leaf)) == f by {
      SubFlat(t, pos);
      PutSeq(Before(t, pos), exts, After(t, pos), path.ext.value, x);
    }
    FitsSub(g, t, d, true, pos);
    PutFits(g, t, d, true, pos, leaf);
  }

  /** The n extents of a tree become fewer exactly when entry p of the leaf, in state u, goes on with a neighbour. */
  ghost predicate MergesMarked(pendingIo: bool, exts: seq<Extent>, p: nat, u: bool, n: nat, n': nat)
    requires p < |exts| && ValidExtent(exts[p]) && (u ==> Unwritten(exts[p]))
  {
    var y := Make(exts[p].block, Len(exts[p]), exts[p].pblk, u);
    n' < n <==>
      (p > 0 && Extends(pendingIo, exts[p-1], y)) || (p + 1 < |exts| && Extends(pendingIo, y, exts[p+1]))
  }

  /** Mark the whole extent of the path and merge it with its neighbours if asked to. */
  method MarkEntry(ino: Inode, path: Path, u: bool, merge: bool, canExtend: bool)
    requires ino.Valid() && Reaches(ino.root, path.pos) && |path.pos| == ino.depth && Sub(ino.root, path.pos).Leaf?
    requires path.ext.Some? && path.ext.value < |Sub(ino.root, path.pos).exts|
    requires u ==> Unwritten(Sub(ino.root, path.pos).exts[path.ext.value])
    modifies ino
    ensures ino.Valid() && ino.pendingIo == old(ino.pendingIo) && ino.depth <= old(ino.depth) &&
              ino.pool == old(ino.pool)
    ensures ino.depth < old(ino.depth) ==> canExtend
    ensures var x := old(Sub(ino.root, path.pos).exts[path.ext.value]);
            Remarked(old(Flat(ino.root)), Flat(ino.root), x.block, x.block, End(x), u, u)
    ensures forall b :: ino.Held(b) == old(ino.Held(b))
    ensures forall p :: FreedData(ino.freed, p) == FreedData(old(ino.freed), p)
    ensures !merge ==> ino.freed == old(ino.freed) && |Flat(ino.root)| == |old(Flat(ino.root))|
    ensures merge ==>
              var exts, p := old(Sub(ino.root, path.pos).exts), path.ext.value;
              && ValidExtent(exts[p]) &&
                   MergesMarked(ino.pendingIo, exts, p, u, |old(Flat(ino.root))|, |Flat(ino.root)|)
              && (canExtend ==> !Collapsible(ino.g, ino.root, ino.depth))
  {
    var x := Sub(ino.root, path.pos).exts[path.ext.value];
    RankAt(ino.root, path);
    assert ValidExtent(x);
    ghost var f, k, t := Flat(ino.root), Rank(ino.root, path), ino.root;
    var y := if u then MarkUnwritten(x) else MarkInitialized(x);
    SetEntry(ino, path, y);
    MarkWhole(f, k, y);
    if merge {
      ghost var f1 := Flat(ino.root);
      ino.MergeExtent(path.pos, path.ext.value, canExtend, t);
      RemarkRecut(f, f1, Flat(ino.root), x.block, x.block, End(x), u, u);
      MarkedMergeable(ino.pendingIo, Sub(t, path.pos).exts, path.ext.value, u, y);
    }
  }

  lemma MarkedMergeable(pendingIo: bool, exts: seq<Extent>, p: nat, u: bool, y: Extent)
    requires p < |exts| && ValidExtent(exts[p]) && (u ==> Unwritten(exts[p]))
    requires y == if u then MarkUnwritten(exts[p]) else MarkInitialized(exts[p])
    ensures y == Make(exts[p].block, Len(exts[p]), exts[p].pblk, u)
    ensures forall n, n' :: MergesMarked(pendingIo, exts, p, u, n, n') <==>
              (n' < n <==> Mergeable(pendingIo, exts[p := y], p))
  {
    if p > 0 { CanMergeIff(pendingIo, exts[p-1], y); }
    if p + 1 < |exts| { CanMergeIff(pendingIo, y, exts[p+1]); }
  }

  /** Which part of an extent that is split holds data already (EXT4_EXT_DATA_VALID1 and 2). */
  datatype DataPart = NoData | HeadData | TailData

  /** What is zeroed when the extent cannot be split: all that holds no data. */
  function ZeroPart(x: Extent, split: nat, data: DataPart): Extent
    requires ValidExtent(x) && x.block < split < End(x)
  {
    match data
    case NoData => MarkInitialized(x)
    case HeadData => TailOf(x, split, false)
    case TailData => HeadOf(x, split, false)
  }

  /** ext4_split_extent_at: mark the parts of the extent below and from split on. If there is no space for the second
      part, and mayZero allows it, the part without data is zeroed and the whole extent turns written. io says
      whether the zeroing succeeds. */
  method SplitExtentAt(ino: Inode, path: Path, split: nat, u1: bool, u2: bool, mayZero: bool, data: DataPart, io: bool,
                       preIo: bool, canExtend: bool)
    returns (r: Status, zeros: seq<Extent>)
    requires ino.Valid() && PathTo(ino.root, ino.depth, path, split)
    requires u1 || u2 || mayZero ==> Unwritten(Sub(ino.root, path.pos).exts[path.ext.value])
    modifies ino
    ensures ino.Valid() && ino.pendingIo == old(ino.pendingIo) && ino.depth <= old(ino.depth) + 1
    ensures ino.depth < old(ino.depth) ==> canExtend
    ensures forall b :: ino.Held(b) == old(ino.Held(b))
    ensures forall p :: FreedData(ino.freed, p) == FreedData(old(ino.freed), p)
    ensures |ino.pool| <= |old(ino.pool)| <= |ino.pool| + old(ino.depth) + 2
    ensures r == NoSpace || zeros != [] ==> |old(ino.pool)| < old(ino.depth) + 2 && ino.pool == []
    ensures zeros == [] ==> r == Ok || (r == NoSpace && !mayZero)
    ensures zeros != [] ==>
              var x := old(Sub(ino.root, path.pos).exts[path.ext.value]);
              && mayZero && ValidExtent(x) && x.block < split && zeros == [ZeroPart(x, split, data)]
              && r == if io then Ok else NotZeroed
    ensures r != Ok ==> Flat(ino.root) == old(Flat(ino.root))
    ensures r == Ok ==>
              var x := old(Sub(ino.root, path.pos).exts[path.ext.value]);
              Remarked(old(Flat(ino.root)), Flat(ino.root), x.block, split, End(x), u1 && zeros == [],
                       u2 && zeros == [])
    ensures !preIo && old(Sub(ino.root, path.pos).exts[path.ext.value]).block == split ==>
              var exts, p := old(Sub(ino.root, path.pos).exts), path.ext.value;
              && ValidExtent(exts[p]) &&
                   MergesMarked(ino.pendingIo, exts, p, u2, |old(Flat(ino.root))|, |Flat(ino.root)|)
    ensures r == Ok && preIo && zeros == [] && old(Sub(ino.root, path.pos).exts[path.ext.value]).block < split ==>
              var f, k := old(Flat(ino.root)), old(Rank(ino.root, path));
              && k < |f| && f[k] == old(Sub(ino.root, path.pos).exts[path.ext.value]) && ValidExtent(f[k])
              && Flat(ino.root) == f[..k] + [HeadOf(f[k], split, u1), TailOf(f[k], split, u2)] + f[k+1..]
    ensures r == Ok && preIo && zeros == [] ==> ino.freed == old(ino.freed)
    ensures !preIo && zeros == [] && old(Sub(ino.root, path.pos).exts[path.ext.value]).block < split ==>
              TailJoins(ino.pendingIo, old(Sub(ino.root, path.pos).exts), path.ext.value, split, u1, u2,
                        LeafCap(ino.g, old(ino.depth) == 0), old(ino.depth) == 0 && old(ino.pool) != [], r == Ok,
                        |old(Flat(ino.root))|, |Flat(ino.root)|)
  {
    var x := Sub(ino.root, path.pos).exts[path.ext.value];
    ghost var f, k := Flat(ino.root), Rank(ino.root, path);
    RankAt(ino.root, path);
    assert ValidExtent(x);
    zeros := [];
    if x.block < split {
      r := SplitInside(ino, path, split, u1, u2, preIo, canExtend);
      if r == NoSpace && mayZero {
        zeros := [ZeroPart(x, split, data)];
        if !io {
          return NotZeroed, zeros;
        }
        var whole := WriteWhole(ino, x, f, k, canExtend);
        RemarkEither(f, Flat(ino.root), x.block, split, End(x), false);
        r := Ok;
      }
    } else {
      MarkEntry(ino, path, u2, !preIo, canExtend);
      RemarkFirst(f, Flat(ino.root), x.block, End(x), u1, u2);
      r := Ok;
    }
  }

  /** The whole of extent k turns written and is merged with its neighbours. */
  method WriteWhole(ino: Inode, x: Extent, ghost f: seq<Extent>, ghost k: nat, canExtend: bool) returns (path: Path)
    requires ino.Valid() && Flat(ino.root) == f && k < |f| && f[k] == x
    modifies ino
    ensures ino.Valid() && ino.pendingIo == old(ino.pendingIo) && ino.depth <= old(ino.depth) &&
              ino.pool == old(ino.pool)
    ensures ino.depth < old(ino.depth) ==> canExtend
    ensures Remarked(f, Flat(ino.root), x.block, x.block, End(x), false, false)
    ensures PathTo(old(ino.root), old(ino.depth), path, x.block)
    ensures var exts, p := old(Sub(ino.root, path.pos).exts), path.ext.value;
            ValidExtent(exts[p]) && MergesMarked(ino.pendingIo, exts, p, false, |f|, |Flat(ino.root)|)
    ensures forall b :: ino.Held(b) == old(ino.Held(b))
    ensures forall p :: FreedData(ino.freed, p) == FreedData(old(ino.freed), p)
  {
    FitsSearchable(ino.g, ino.root, ino.depth, true);
    path := FindExtent(ino.root, ino.depth, x.block);
    LandsOn(ino.g, ino.root, ino.depth, path, k);
    MarkEntry(ino, path, false, true, canExtend);
  }

  lemma RemarkEither(f: seq<Extent>, f1: seq<Extent>, lo: nat, mid: nat, hi: nat, u: bool)
    requires Remarked(f, f1, lo, lo, hi, u, u)
    ensures Remarked(f, f1, lo, mid, hi, u, u)
  {
  }

  lemma RemarkRecut(f: seq<Extent>, f1: seq<Extent>, f2: seq<Extent>, lo: nat, mid: nat, hi: nat, u1: bool, u2: bool)
    requires Remarked(f, f1, lo, mid, hi, u1, u2) && Recut(f1, f2)
    ensures Remarked(f, f2, lo, mid, hi, u1, u2)
  {
    forall b: nat ensures At(f2, b) == At(f1, b) {}
  }

  lemma RemarkFirst(f: seq<Extent>, f1: seq<Extent>, lo: nat, hi: nat, u1: bool, u2: bool)
    requires Remarked(f, f1, lo, lo, hi, u2, u2)
    ensures Remarked(f, f1, lo, lo, hi, u1, u2)
  {
  }

  /** ext4_force_split_extent_at: no extent straddles split any more; the map is unchanged. */
  method ForceSplitAt(ino: Inode, path: Path, split: nat) returns (r: Status)
    requires ino.Valid() && PathTo(ino.root, ino.depth, path, split)
    requires Sub(ino.root, path.pos).exts[path.ext.value].block < split
    modifies ino
    ensures ino.Valid() && ino.pendingIo == old(ino.pendingIo) && ino.depth <= old(ino.depth) + 1
    ensures old(ino.depth) <= ino.depth
    ensures forall b :: ino.Held(b) == old(ino.Held(b))
    ensures forall p :: FreedData(ino.freed, p) == FreedData(old(ino.freed), p)
    ensures r == Ok || r == NoSpace
    ensures |ino.pool| <= |old(ino.pool)| <= |ino.pool| + old(ino.depth) + 2
    ensures r == NoSpace ==>
              Flat(ino.root) == old(Flat(ino.root)) && |old(ino.pool)| < old(ino.depth) + 2 && ino.pool == []
    ensures r == Ok ==>
              var f, k := old(Flat(ino.root)), old(Rank(ino.root, path));
              && k < |f| && ValidExtent(f[k]) && f[k].block < split < End(f[k])
              && Flat(ino.root) ==
                 f[..k] + [HeadOf(f[k], split, Unwritten(f[k])), TailOf(f[k], split, Unwritten(f[k]))] + f[k+1..]
              && SameMap(f, Flat(ino.root)) && forall p :: Owns(Flat(ino.root), p) == Owns(f, p)
    ensures r == Ok ==> ino.freed == old(ino.freed)
  {
    RankAt(ino.root, path);
    var x := Sub(ino.root, path.pos).exts[path.ext.value];
    ghost var f, k := Flat(ino.root), Rank(ino.root, path);
    var zeros;
    r, zeros := SplitExtentAt(ino, path, split, Unwritten(x), Unwritten(x), false, NoData, false, true, false);
    if r == Ok {
      SameMark(f, Flat(ino.root), k, split);
    }
  }

  lemma SameMark(f: seq<Extent>, f1: seq<Extent>, k: nat, split: nat)
    requires Sorted(f) && k < |f|
    requires Remarked(f, f1, f[k].block, split, End(f[k]), Unwritten(f[k]), Unwritten(f[k]))
    ensures SameMap(f, f1)
  {
    forall b: nat ensures At(f1, b) == At(f, b) {
      if Covers(f[k], b) { AtHit(f, k, b); }
    }
  }
}
