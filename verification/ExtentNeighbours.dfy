/**
  The searches that walk up and down from a found path: next allocated block,
  next leaf, and the closest allocated block on either side (ext4/extents.c).
 */
module ExtentNeighbours {
  import opened Wrappers
  import opened Extents
  import opened ExtentTree
  import opened ExtentSearch

  /** Position of the path's extent in the flattened tree. */
  ghost function Rank(t: Tree, path: Path): nat
    requires Reaches(t, path.pos) && path.ext.Some?
  {
    |Before(t, path.pos)| + path.ext.value
  }

  /** One step up: what is right of the path inside the node at level i. */
  lemma AfterStep(t: Tree, pos: seq<nat>, i: nat, j: nat)
    requires Reaches(t, pos) && i < |pos| && j == i + 1
    ensures Reaches(t, pos[..i]) && Reaches(Sub(t, pos[..i]), pos[i..])
    ensures Reaches(t, pos[..j]) && Reaches(Sub(t, pos[..j]), pos[j..])
    ensures Sub(t, pos[..i]).Node? && pos[i] < |Sub(t, pos[..i]).kids|
    ensures Sub(t, pos[..j]) == Sub(t, pos[..i]).kids[pos[i]].sub
    ensures After(Sub(t, pos[..i]), pos[i..]) ==
            After(Sub(t, pos[..j]), pos[j..]) + FlatKids(Sub(t, pos[..i]).kids[pos[i]+1..])
  {
    PathPrefix(t, pos, i);
    PathPrefix(t, pos, j);
    PathStep(t, pos, i);
    assert pos[i..][0] == pos[i] && pos[i..][1..] == pos[j..];
  }

  lemma AfterSplit(t: Tree, pos: seq<nat>, i: nat)
    requires Reaches(t, pos) && i <= |pos|
    ensures Reaches(t, pos[..i]) && Reaches(Sub(t, pos[..i]), pos[i..])
    ensures After(t, pos) == After(Sub(t, pos[..i]), pos[i..]) + After(t, pos[..i])
  {
    PathPrefix(t, pos, i);
    assert pos == pos[..i] + pos[i..];
    SidesConcat(t, pos[..i], pos[i..]);
  }

  /** If nothing is right of the path below level i + 1, the next sibling at
      level i starts with the first extent right of the path. */
  lemma NextSibling(g: Geometry, t: Tree, d: nat, pos: seq<nat>, i: nat, j: nat)
    requires WellFormed(g, t, d) && Reaches(t, pos) && i < |pos| <= d && j == i + 1
    requires Reaches(t, pos[..j]) && Reaches(Sub(t, pos[..j]), pos[j..])
    requires After(Sub(t, pos[..j]), pos[j..]) == []
    requires Reaches(t, pos[..i]) && Sub(t, pos[..i]).Node?
    requires pos[i] + 1 < |Sub(t, pos[..i]).kids|
    ensures After(t, pos) != []
    ensures KidFits(g, Sub(t, pos[..i]).kids[pos[i]+1], d - j)
    ensures FlatKid(Sub(t, pos[..i]).kids[pos[i]+1]) != []
    ensures After(t, pos)[0] == FlatKid(Sub(t, pos[..i]).kids[pos[i]+1])[0]
    ensures After(t, pos)[0].block == Sub(t, pos[..i]).kids[pos[i]+1].key
  {
    var n := Sub(t, pos[..i]);
    var r := n.kids[pos[i]+1..];
    AfterStep(t, pos, i, j);
    AfterSplit(t, pos, i);
    FitsSub(g, t, d, true, pos[..i]);
    assert KidFits(g, n.kids[pos[i]+1], d - j);
    FitsNonEmpty(g, n.kids[pos[i]+1].sub, d - j, false);
    assert FlatKids(r) == FlatKid(r[0]) + FlatKids(r[1..]);
  }

  /** ext4_ext_next_leaf_block */
  method NextLeafBlock(ghost g: Geometry, t: Tree, d: nat, pos: seq<nat>) returns (next: nat)
    requires WellFormed(g, t, d) && Reaches(t, pos) && |pos| == d
    ensures next == if After(t, pos) == [] then MAX_BLOCKS else After(t, pos)[0].block
  {
    var k := d;
    assert pos[..d] == pos && pos[d..] == [];
    PathPrefix(t, pos, d);
    while k > 0
      invariant 0 <= k <= d
      invariant Reaches(t, pos[..k]) && Reaches(Sub(t, pos[..k]), pos[k..])
      invariant After(Sub(t, pos[..k]), pos[k..]) == []
    {
      var i := k - 1;
      AfterStep(t, pos, i, k);
      var node := Sub(t, pos[..i]);
      if pos[i] + 1 < |node.kids| {
        NextSibling(g, t, d, pos, i, k);
        return node.kids[pos[i]+1].key;
      }
      k := i;
    }
    AfterSplit(t, pos, 0);
    return MAX_BLOCKS;
  }

  /** What follows the path's extent among all extents. */
  lemma NextInFlat(t: Tree, path: Path)
    requires Reaches(t, path.pos) && Sub(t, path.pos).Leaf? && path.ext.Some?
    requires path.ext.value < |Sub(t, path.pos).exts|
    ensures var exts, af, f, n := Sub(t, path.pos).exts, After(t, path.pos), Flat(t), Rank(t, path) + 1;
            && (path.ext.value + 1 < |exts| ==> n < |f| && f[n] == exts[path.ext.value + 1])
            && (path.ext.value + 1 == |exts| && af != [] ==> n < |f| && f[n] == af[0])
            && (path.ext.value + 1 == |exts| && af == [] ==> n == |f|)
  {
    SubFlat(t, path.pos);
  }

  /** ext4_ext_next_allocated_block */
  method NextAllocatedBlock(ghost g: Geometry, t: Tree, d: nat, path: Path) returns (next: nat)
    requires WellFormed(g, t, d) && Reaches(t, path.pos) && |path.pos| == d
    requires Sub(t, path.pos).Leaf?
    requires path.ext.Some? ==> path.ext.value < |Sub(t, path.pos).exts|
    requires path.ext.None? ==> Sub(t, path.pos).exts == []
    ensures path.ext.None? ==> Flat(t) == [] && next == MAX_BLOCKS
    ensures path.ext.Some? ==>
              next == if Rank(t, path) + 1 < |Flat(t)| then Flat(t)[Rank(t, path) + 1].block else MAX_BLOCKS
  {
    var pos, exts := path.pos, Sub(t, path.pos).exts;
    if path.ext.None? {
      EmptyLeaf(g, t, d, pos);
      return MAX_BLOCKS;
    }
    var p := path.ext.value;
    NextInFlat(t, path);
    if p + 1 < |exts| {
      return exts[p+1].block;
    }
    next := NextLeafBlock(g, t, d, pos);
  }

  /** First extent of the leftmost leaf, as the second loop of ext4_ext_search_right walks. */
  method LeftmostExtent(ghost g: Geometry, t: Tree, d: nat) returns (e: Extent)
    requires Fits(g, t, d, false)
    ensures Flat(t) != [] && e == Flat(t)[0]
  {
    FitsNonEmpty(g, t, d, false);
    var node, k := t, d;
    while k > 0
      invariant 0 <= k <= d && Fits(g, node, k, false)
      invariant Flat(node) != [] && Flat(node)[0] == Flat(t)[0]
    {
      assert KidFits(g, node.kids[0], k - 1);
      FitsNonEmpty(g, node.kids[0].sub, k - 1, false);
      assert FlatKids(node.kids) == FlatKid(node.kids[0]) + FlatKids(node.kids[1..]);
      node, k := node.kids[0].sub, k - 1;
    }
    e := node.exts[0];
  }

  // ------------------------------------------------- closest allocated blocks

  /** The path's extent among all extents: later ones start after b, earlier
      ones end before it starts, and if it starts after b it is the very first. */
  lemma RankBracket(g: Geometry, t: Tree, d: nat, path: Path, b: nat)
    requires WellFormed(g, t, d) && PathFor(t, path, b) && |path.pos| == d && path.ext.Some?
    ensures var f, r := Flat(t), Rank(t, path);
            && r < |f| && f[r] == Sub(t, path.pos).exts[path.ext.value]
            && (forall j :: r < j < |f| ==> b < f[j].block)
            && (b < f[r].block ==> r == 0)
  {
    LeafBracket(g, t, d, path, b);
    LeafRank(t, path.pos, Rank(t, path), path.ext.value, b);
  }

  lemma LeafRank(t: Tree, pos: seq<nat>, r: nat, p: nat, b: nat)
    requires Reaches(t, pos) && Sub(t, pos).Leaf? && Sorted(Flat(t)) && ClosestExt(Sub(t, pos).exts, b, p)
    requires Before(t, pos) != [] ==> Sub(t, pos).exts[0].block <= b
    requires After(t, pos) != [] ==> b < After(t, pos)[0].block
    requires r == |Before(t, pos)| + p
    ensures var f := Flat(t);
            && r < |f| && f[r] == Sub(t, pos).exts[p]
            && (forall j :: r < j < |f| ==> b < f[j].block)
            && (b < f[r].block ==> r == 0)
  {
    SubFlat(t, pos);
    FlatBracket(Flat(t), Before(t, pos), Sub(t, pos).exts, After(t, pos), r, p, b);
  }

  lemma LeafBracket(g: Geometry, t: Tree, d: nat, path: Path, b: nat)
    requires WellFormed(g, t, d) && PathFor(t, path, b) && |path.pos| == d && path.ext.Some?
    ensures ClosestExt(Sub(t, path.pos).exts, b, path.ext.value)
    ensures Before(t, path.pos) != [] ==> Sub(t, path.pos).exts[0].block <= b
    ensures After(t, path.pos) != [] ==> b < After(t, path.pos)[0].block
  {
    Bracket(g, t, d, true, path.pos, b);
  }

  lemma FlatBracket(f: seq<Extent>, bf: seq<Extent>, exts: seq<Extent>, af: seq<Extent>, r: nat, p: nat, b: nat)
    requires f == bf + exts + af && Sorted(f) && ClosestExt(exts, b, p) && r == |bf| + p
    requires bf != [] ==> exts[0].block <= b
    requires af != [] ==> b < af[0].block
    ensures r < |f| && f[r] == exts[p]
    ensures forall j :: r < j < |f| ==> b < f[j].block
    ensures b < f[r].block ==> r == 0
  {
    var x := |bf| + |exts|;
    forall j | |bf| + p < j < |f| ensures b < f[j].block {
      if j < x {
        assert f[j] == exts[j - |bf|];
      } else {
        assert f[x] == af[0];
        assert j > x ==> f[x].block <= End(f[x]) <= f[j].block;
      }
    }
  }

  lemma NoneBetween(f: seq<Extent>, lo: nat, b: nat)
    requires Sorted(f) && lo <= |f|
    requires forall j :: 0 <= j < lo ==> End(f[j]) <= b
    requires forall j :: lo <= j < |f| ==> b < f[j].block
    ensures At(f, b) == None
  {
    AtNone(f, b);
  }

  /** Only the root of an empty file can be an empty leaf. */
  lemma EmptyLeaf(g: Geometry, t: Tree, d: nat, pos: seq<nat>)
    requires WellFormed(g, t, d) && Reaches(t, pos) && Sub(t, pos) == Leaf([])
    ensures pos == [] && Flat(t) == []
  {
    FitsSub(g, t, d, true, pos);
  }

  /** The extent that the descent finds covers b exactly when b is mapped, and then says where. */
  lemma FoundIff(g: Geometry, t: Tree, d: nat, path: Path, b: nat)
    requires WellFormed(g, t, d) && PathFor(t, path, b) && |path.pos| == d
    ensures At(Flat(t), b) ==
            if path.ext.Some? && Covers(Sub(t, path.pos).exts[path.ext.value], b)
            then Some(CellOf(Sub(t, path.pos).exts[path.ext.value], b)) else None
  {
    if path.ext.None? {
      EmptyLeaf(g, t, d, path.pos);
    } else {
      RankBracket(g, t, d, path, b);
      ClosestAt(Flat(t), Rank(t, path), b);
    }
  }

  lemma ClosestAt(f: seq<Extent>, r: nat, b: nat)
    requires Sorted(f) && r < |f| && (forall j :: r < j < |f| ==> b < f[j].block) && (b < f[r].block ==> r == 0)
    ensures At(f, b) == if Covers(f[r], b) then Some(CellOf(f[r], b)) else None
  {
    if Covers(f[r], b) {
      AtHit(f, r, b);
    } else {
      forall i | 0 <= i < |f| ensures !Covers(f[i], b) { assert i < r ==> End(f[i]) <= f[r].block; }
      AtNone(f, b);
    }
  }

  datatype Found = Corrupt | Nothing | Hit(lblk: nat, pblk: nat)

  /** ext4_ext_search_left from the path for lblk. */
  method SearchLeft(ghost g: Geometry, t: Tree, d: nat, path: Path, lblk: nat) returns (r: Found)
    requires WellFormed(g, t, d) && PathFor(t, path, lblk) && |path.pos| == d
    ensures r == Corrupt <==> At(Flat(t), lblk).Some?
    ensures r == Nothing ==> forall b: nat :: b <= lblk ==> At(Flat(t), b) == None
    ensures r.Hit? ==> r.lblk < lblk && At(Flat(t), r.lblk).Some? && At(Flat(t), r.lblk).value.pblk == r.pblk
    ensures r.Hit? ==> forall b: nat :: r.lblk < b <= lblk ==> At(Flat(t), b) == None
  {
    ghost var f := Flat(t);
    if path.ext.None? {
      EmptyLeaf(g, t, d, path.pos);
      return Nothing;
    }
    RankBracket(g, t, d, path, lblk);
    ghost var k := Rank(t, path);
    var ex := Sub(t, path.pos).exts[path.ext.value];
    if lblk < ex.block {
      forall b: nat | b <= lblk ensures At(f, b) == None {
        NoneBetween(f, 0, b);
      }
      return Nothing;
    }
    if lblk < End(ex) {
      AtHit(f, k, lblk);
      return Corrupt;
    }
    r := Hit(End(ex) - 1, ex.pblk + Len(ex) - 1);
    AtHit(f, k, r.lblk);
    forall b: nat | r.lblk < b <= lblk ensures At(f, b) == None {
      NoneBetween(f, k + 1, b);
    }
  }

  /** Up to the first index with a right sibling, then down its left edge. */
  method FirstAfter(ghost g: Geometry, t: Tree, d: nat, pos: seq<nat>) returns (e: Option<Extent>)
    requires WellFormed(g, t, d) && Reaches(t, pos) && |pos| == d
    ensures e == if After(t, pos) == [] then None else Some(After(t, pos)[0])
  {
    var k := d;
    assert pos[..d] == pos && pos[d..] == [];
    PathPrefix(t, pos, d);
    while k > 0
      invariant 0 <= k <= d
      invariant Reaches(t, pos[..k]) && Reaches(Sub(t, pos[..k]), pos[k..])
      invariant After(Sub(t, pos[..k]), pos[k..]) == []
    {
      var i := k - 1;
      AfterStep(t, pos, i, k);
      var node := Sub(t, pos[..i]);
      if pos[i] + 1 < |node.kids| {
        NextSibling(g, t, d, pos, i, k);
        var x := LeftmostExtent(g, node.kids[pos[i]+1].sub, d - k);
        return Some(x);
      }
      k := i;
    }
    AfterSplit(t, pos, 0);
    return None;
  }

  /** ext4_ext_search_right from the path for lblk. */
  method SearchRight(ghost g: Geometry, t: Tree, d: nat, path: Path, lblk: nat) returns (r: Found)
    requires WellFormed(g, t, d) && PathFor(t, path, lblk) && |path.pos| == d
    ensures r == Corrupt <==> At(Flat(t), lblk).Some?
    ensures r == Nothing ==> forall b: nat :: lblk <= b ==> At(Flat(t), b) == None
    ensures r.Hit? ==> lblk < r.lblk && At(Flat(t), r.lblk).Some? && At(Flat(t), r.lblk).value.pblk == r.pblk
    ensures r.Hit? ==> forall b: nat :: lblk <= b < r.lblk ==> At(Flat(t), b) == None
  {
    ghost var f := Flat(t);
    var pos := path.pos;
    if path.ext.None? {
      EmptyLeaf(g, t, d, pos);
      return Nothing;
    }
    RankBracket(g, t, d, path, lblk);
    var exts, p := Sub(t, pos).exts, path.ext.value;
    ghost var n := Rank(t, path);
    var ex := exts[p];
    if lblk < ex.block {
      HitFrom(f, 0, lblk);
      return Hit(ex.block, ex.pblk);
    }
    if lblk < End(ex) {
      AtHit(f, n, lblk);
      return Corrupt;
    }
    NextInFlat(t, path);
    RightOf(f, n, lblk);
    if p + 1 < |exts| {
      return Hit(exts[p+1].block, exts[p+1].pblk);
    }
    var e := FirstAfter(g, t, d, pos);
    return if e.Some? then Hit(e.value.block, e.value.pblk) else Nothing;
  }

  /** With b behind extent n and before the next one, that next one is the closest to the right. */
  lemma RightOf(f: seq<Extent>, n: nat, b: nat)
    requires Sorted(f) && n < |f| && End(f[n]) <= b
    requires forall j :: n < j < |f| ==> b < f[j].block
    ensures At(f, b) == None
    ensures n + 1 < |f| ==>
              && b < f[n+1].block && At(f, f[n+1].block) == Some(Cell(f[n+1].pblk, Unwritten(f[n+1])))
              && forall x: nat :: b <= x < f[n+1].block ==> At(f, x) == None
    ensures n + 1 == |f| ==> forall x: nat :: b <= x ==> At(f, x) == None
  {
    if n + 1 < |f| {
      HitFrom(f, n + 1, b);
    } else {
      forall x: nat | b <= x ensures At(f, x) == None { NoneBetween(f, n + 1, x); }
    }
  }

  /** The start of extent i is the first allocated block from b on. */
  lemma HitFrom(f: seq<Extent>, i: nat, b: nat)
    requires Sorted(f) && i < |f| && b < f[i].block
    requires i > 0 ==> End(f[i-1]) <= b
    ensures At(f, f[i].block) == Some(Cell(f[i].pblk, Unwritten(f[i])))
    ensures forall x: nat :: b <= x < f[i].block ==> At(f, x) == None
  {
    AtHit(f, i, f[i].block);
    forall x: nat | b <= x < f[i].block ensures At(f, x) == None {
      assert forall j :: 0 <= j < i ==> End(f[j]) <= End(f[i-1]);
      NoneBetween(f, i, x);
    }
  }
}
