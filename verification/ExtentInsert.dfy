/**
  Insertion into the extent tree (ext4/extents.c): allocation of tree blocks,
  ext4_ext_split, ext4_ext_grow_indepth, ext4_ext_create_new_leaf,
  ext4_ext_correct_indexes, ext4_ext_try_to_merge and ext4_ext_insert_extent.
 */
module ExtentInsert {
  import opened Wrappers
  import opened Blocks
  import opened Extents
  import opened ExtentTree
  import opened ExtentSearch
  import opened ExtentNeighbours
  import opened ExtentMerge
  import opened ExtentPlace
  import opened ExtentSplit

  function Entries(n: Tree): nat {
    match n
    case Leaf(exts) => |exts|
    case Node(kids) => |kids|
  }

  function Capacity(g: Geometry, n: Tree, top: bool): nat {
    match n
    case Leaf(_) => LeafCap(g, top)
    case Node(_) => IdxCap(g, top)
  }

  class Inode {
    const g: Geometry
    /** the tree whose top node is in the inode, and eh_depth of that node */
    var root: Tree
    var depth: nat
    /** blocks the allocator will hand out next; when it is empty, allocation fails */
    var pool: seq<nat>
    var freed: seq<Freed>
    /** in-flight I/O to unwritten extents, which forbids merging them */
    var pendingIo: bool

    /** ext4_ext_tree_init: an empty leaf in the inode. */
    constructor (geometry: Geometry, blocks: seq<nat>)
      requires ValidGeometry(geometry)
      ensures Valid() && g == geometry && root == Leaf([]) && Flat(root) == [] && depth == 0
      ensures pool == blocks && freed == [] && !pendingIo
      ensures forall b :: Held(b) == Count(blocks, b)
    {
      g, root, depth, pool, freed, pendingIo := geometry, Leaf([]), 0, blocks, [], false;
    }

    ghost predicate Valid()
      reads this
    {
      ValidGeometry(g) && WellFormed(g, root, depth)
    }

    /** Every tree block is in exactly one place: in the tree, still in the pool, or freed. */
    ghost function Held(b: nat): nat
      reads this
    {
      Uses(root, b) + Count(pool, b) + FreedMeta(freed, b)
    }

    // ------------------------------------------------------------ allocation

    /** The allocation loop of ext4_ext_split with its cleanup on failure. */
    method AllocBlocks(n: nat) returns (ok: bool, ab: seq<nat>)
      modifies this
      ensures root == old(root) && depth == old(depth) && pendingIo == old(pendingIo)
      ensures ok ==> |ab| == n && freed == old(freed)
      ensures ok ==> forall b :: Count(ab, b) + Count(pool, b) == Count(old(pool), b)
      ensures forall p :: FreedData(freed, p) == FreedData(old(freed), p)
      ensures !ok ==> forall b :: Held(b) == old(Held(b))
      ensures if ok then |pool| + n == |old(pool)| else |old(pool)| < n && pool == []
    {
      ab := [];
      while |ab| < n && pool != []
        invariant |ab| <= n && |ab| + |pool| == |old(pool)|
        invariant root == old(root) && depth == old(depth) && pendingIo == old(pendingIo) && freed == old(freed)
        invariant forall b :: Count(ab, b) + Count(pool, b) == Count(old(pool), b)
      {
        forall b ensures Count(ab + [pool[0]], b) + Count(pool[1..], b) == Count(ab, b) + Count(pool, b) {
          CountConcat(ab, [pool[0]], b);
        }
        ab, pool := ab + [pool[0]], pool[1..];
      }
      ok := |ab| == n;
      if !ok {
        ghost var taken := ab;
        while ab != []
          invariant root == old(root) && depth == old(depth) && pendingIo == old(pendingIo) && pool == []
          invariant forall b :: Count(ab, b) + FreedMeta(freed, b) == Count(taken, b) + FreedMeta(old(freed), b)
          invariant forall p :: FreedData(freed, p) == FreedData(old(freed), p)
          invariant forall b :: Count(taken, b) + Count(pool, b) == Count(old(pool), b)
        {
          ghost var log := freed;
          freed := [Meta(ab[0])] + freed;
          assert freed[1..] == log;
          ab := ab[1..];
        }
      }
    }

    // ----------------------------------------------------------------- split

    /** ext4_ext_split: free index entry at level at, leaf full. */
    method Split(path: Path, newext: Extent, at: nat) returns (ok: bool, ghost ab: seq<nat>)
      requires Valid() && PathFor(root, path, newext.block) && |path.pos| == depth && path.ext.Some?
      requires |Sub(root, path.pos).exts| == g.blockLeaf
      requires ValidExtent(newext) && Apart(Flat(root), newext)
      requires at < depth && Reaches(root, path.pos[..at]) && Sub(root, path.pos[..at]).Node?
      modifies this
      ensures depth == old(depth) && pendingIo == old(pendingIo)
      ensures forall p :: FreedData(freed, p) == FreedData(old(freed), p)
      ensures !ok ==> root == old(root) && forall b :: Held(b) == old(Held(b))
      ensures if ok then |pool| + (depth - at) == |old(pool)| else |old(pool)| < depth - at && pool == []
      ensures ok ==> |ab| == depth - at
      ensures ok ==> freed == old(freed) && forall b :: Count(ab, b) + Count(pool, b) == Count(old(pool), b)
      ensures ok ==>
                var t, pos, p := old(root), path.pos, path.ext.value;
                var exts := Sub(t, pos).exts;
                && pos[at] < |Sub(t, pos[..at]).kids|
                && Reaches(Sub(t, pos[..at]).kids[pos[at]].sub, pos[at+1..])
                && root == SplitTree(t, pos, at, Border(exts, p, newext), ab, exts[..p+1], exts[p+1..])
    {
      var pos, p := path.pos, path.ext.value;
      var exts := Sub(root, pos).exts;
      var border := Border(exts, p, newext);
      ghost var t := root;
      SplitPrecondition(t, pos, at);
      BorderAbove(g, t, depth, path, newext, at);

      var blocks;
      ok, blocks := AllocBlocks(depth - at);
      ab := blocks;
      if !ok {
        return;
      }
      ghost var left, right := exts[..p+1], exts[p+1..];
      var r := MoveRight(pos, p, at, border, blocks);
      SplitLast(t, pos, at, border, blocks, left, right);
      var node := Sub(root, pos[..at]);
      // ext4_ext_insert_index
      var k := pos[at];
      var ix := if border > node.kids[k].key then k + 1 else k;
      root := Put(root, pos[..at], Node(node.kids[..ix] + [Kid(border, blocks[0], r)] + node.kids[ix..]));
    }

    /** The new leaf takes the extents after entry p; on every level up to at a new index
        block takes the entries after the path. */
    method MoveRight(pos: seq<nat>, p: nat, at: nat, border: nat, blocks: seq<nat>) returns (r: Tree)
      requires Reaches(root, pos) && |pos| == depth && Sub(root, pos).Leaf? && p < |Sub(root, pos).exts|
      requires at < depth && |blocks| == depth - at
      modifies `root
      ensures Reaches(old(root), pos[..at+1]) && Reaches(Sub(old(root), pos[..at+1]), pos[at+1..])
      ensures root ==
                Put(old(root), pos[..at+1],
                    SplitL(Sub(old(root), pos[..at+1]), pos[at+1..], old(Sub(root, pos).exts)[..p+1]))
      ensures r ==
                SplitR(Sub(old(root), pos[..at+1]), pos[at+1..], border, blocks[1..], old(Sub(root, pos).exts)[p+1..])
    {
      ghost var t := root;
      var exts := Sub(root, pos).exts;
      r := Leaf(exts[p+1..]);
      root := Put(root, pos, Leaf(exts[..p+1]));
      assert pos[..depth] == pos && pos[depth..] == [] && blocks[depth-at..] == [];
      var i := depth;
      while i > at + 1
        invariant at < i <= depth
        invariant Reaches(t, pos[..i]) && Reaches(Sub(t, pos[..i]), pos[i..])
        invariant root == Put(t, pos[..i], SplitL(Sub(t, pos[..i]), pos[i..], exts[..p+1]))
        invariant r == SplitR(Sub(t, pos[..i]), pos[i..], border, blocks[i-at..], exts[p+1..])
      {
        var j := i - 1;
        SplitStep(t, pos, j, i, at, border, blocks, exts[..p+1], exts[p+1..], root, r);
        var node := Sub(root, pos[..j]);
        r := Node([Kid(border, blocks[j-at], r)] + node.kids[pos[j]+1..]);
        root := Put(root, pos[..j], Node(node.kids[..pos[j]+1]));
        i := j;
      }
    }

    // ---------------------------------------------------------------- growth

    /** ext4_ext_grow_indepth */
    method GrowInDepth() returns (ok: bool)
      requires Valid() && Flat(root) != []
      modifies this
      ensures Valid() && pendingIo == old(pendingIo)
      ensures Flat(root) == old(Flat(root))
      ensures forall b :: Held(b) == old(Held(b))
      ensures freed == old(freed)
      ensures !ok ==> root == old(root) && depth == old(depth) && old(pool) == [] && pool == []
      ensures ok ==> |pool| + 1 == |old(pool)|
      ensures ok ==> depth == old(depth) + 1 && root.Node? && |root.kids| == 1 && root.kids[0].sub == old(root)
    {
      if pool == [] {
        return false;
      }
      var blk := pool[0];
      pool := pool[1..];
      var key := match root case Leaf(exts) => exts[0].block case Node(kids) => kids[0].key;
      ghost var t := root;
      GrowFits(g, t, depth, blk, key);
      root := Node([Kid(key, blk, root)]);
      depth := depth + 1;
      return true;
    }

    // -------------------------------------------------------------- new leaf

    /** ext4_ext_create_new_leaf: split at the lowest level with a free index, or
        grow the tree and try again. The tree grows at most once. */
    method CreateNewLeaf(path: Path, newext: Extent) returns (ok: bool, npath: Path)
      requires Valid() && PathFor(root, path, newext.block) && |path.pos| == depth && path.ext.Some?
      requires |Sub(root, path.pos).exts| == LeafCap(g, depth == 0)
      requires ValidExtent(newext) && Apart(Flat(root), newext)
      modifies this
      ensures pendingIo == old(pendingIo)
      ensures old(depth) <= depth <= old(depth) + 1
      ensures forall b :: Held(b) == old(Held(b))
      ensures forall p :: FreedData(freed, p) == FreedData(old(freed), p)
      ensures |pool| <= |old(pool)| <= |pool| + old(depth) + 2
      ensures !ok ==> Valid() && Flat(root) == old(Flat(root)) && |old(pool)| < old(depth) + 2 && pool == []
      ensures ok ==> Roomy(g, root, depth, npath, newext, old(Flat(root)))
      ensures ok ==> freed == old(freed) && |pool| < |old(pool)|
      ensures ok && old(depth) > 0 ==>
                FirstHalf(old(Sub(root, path.pos).exts), path.ext.value, Sub(root, npath.pos).exts)
      ensures old(depth) == 0 ==> (ok <==> old(pool) != [])
      ensures ok && old(depth) == 0 ==> Sub(root, npath.pos) == old(Sub(root, path.pos)) && npath.ext == path.ext
    {
      npath := path;
      ghost var grown := false;
      while true
        invariant Valid() && Flat(root) == old(Flat(root)) && pendingIo == old(pendingIo)
        invariant PathFor(root, npath, newext.block) && |npath.pos| == depth && npath.ext.Some?
        invariant |Sub(root, npath.pos).exts| == LeafCap(g, depth == 0)
        invariant Sub(root, npath.pos) == old(Sub(root, path.pos)) && npath.ext == path.ext
        invariant grown ==> old(depth) > 0
        invariant !grown ==> depth == old(depth) && pool == old(pool)
        invariant grown ==> |pool| + 1 == |old(pool)|
        invariant grown ==> depth == old(depth) + 1 && root.Node? && |root.kids| == 1
        invariant forall b :: Held(b) == old(Held(b))
        invariant freed == old(freed)
        decreases !grown
      {
        var i := FreeLevel(npath.pos);
        if i.Some? {
          ok, npath := SplitAndFind(npath, newext, i.value);
          return;
        }
        SubNonEmpty(root, npath.pos);
        ok, npath := GrowAndFind(npath, newext);
        if !ok || |Sub(root, npath.pos).exts| < g.blockLeaf {
          return;
        }
        grown := true;
      }
    }

    method GrowAndFind(path: Path, newext: Extent) returns (ok: bool, npath: Path)
      requires Valid() && Flat(root) != []
      requires PathFor(root, path, newext.block) && |path.pos| == depth && path.ext.Some?
      modifies this
      ensures Valid() && Flat(root) == old(Flat(root)) && pendingIo == old(pendingIo)
      ensures forall b :: Held(b) == old(Held(b))
      ensures freed == old(freed)
      ensures !ok ==> depth == old(depth) && npath == path && old(pool) == [] && pool == []
      ensures ok ==> npath.pos == [0] + path.pos && npath.ext == path.ext && Reaches(root, npath.pos)
      ensures ok ==> Sub(root, npath.pos) == old(Sub(root, path.pos))
      ensures ok ==> |pool| + 1 == |old(pool)|
      ensures ok ==> depth == old(depth) + 1 && root.Node? && |root.kids| == 1
      ensures ok ==> PathFor(root, npath, newext.block) && |npath.pos| == depth && npath.ext.Some?
      ensures ok ==> |Sub(root, npath.pos).exts| <= g.blockLeaf
    {
      npath := path;
      ok := GrowInDepth();
      if ok {
        FitsSearchable(g, root, depth, true);
        npath := FindExtent(root, depth, newext.block);
        LeafCapacity(g, root, depth, npath.pos);
        GrownPath(old(root), path, root, npath, newext.block);
      }
    }

    /** The upward walk for a node with a free index entry. */
    method FreeLevel(pos: seq<nat>) returns (at: Option<nat>)
      requires Valid() && Reaches(root, pos) && |pos| == depth && Sub(root, pos).Leaf?
      requires |Sub(root, pos).exts| == LeafCap(g, depth == 0)
      ensures at.Some? ==>
                && at.value < depth && Reaches(root, pos[..at.value]) && Sub(root, pos[..at.value]).Node?
                && |Sub(root, pos[..at.value]).kids| < IdxCap(g, at.value == 0)
      ensures at.None? ==> Entries(root) == Capacity(g, root, true)
    {
      assert pos[..depth] == pos;
      var i := depth;
      while i > 0
        invariant 0 <= i <= depth && Reaches(root, pos[..i])
        invariant Entries(Sub(root, pos[..i])) >= Capacity(g, Sub(root, pos[..i]), i == 0)
      {
        i := i - 1;
        PathStep(root, pos, i);
        if Entries(Sub(root, pos[..i])) < Capacity(g, Sub(root, pos[..i]), i == 0) {
          return Some(i);
        }
      }
      FitsSub(g, root, depth, true, pos[..0]);
      return None;
    }

    method SplitAndFind(path: Path, newext: Extent, at: nat) returns (ok: bool, npath: Path)
      requires Valid() && PathFor(root, path, newext.block) && |path.pos| == depth && path.ext.Some?
      requires |Sub(root, path.pos).exts| == LeafCap(g, depth == 0)
      requires ValidExtent(newext) && Apart(Flat(root), newext)
      requires at < depth && Reaches(root, path.pos[..at]) && Sub(root, path.pos[..at]).Node?
      requires |Sub(root, path.pos[..at]).kids| < IdxCap(g, at == 0)
      modifies this
      ensures depth == old(depth) && pendingIo == old(pendingIo)
      ensures forall b :: Held(b) == old(Held(b))
      ensures forall p :: FreedData(freed, p) == FreedData(old(freed), p)
      ensures |pool| <= |old(pool)| <= |pool| + depth && (ok ==> |pool| < |old(pool)|)
      ensures !ok ==> root == old(root) && |old(pool)| < depth && pool == []
      ensures ok ==> Roomy(g, root, depth, npath, newext, old(Flat(root)))
      ensures ok ==> FirstHalf(old(Sub(root, path.pos).exts), path.ext.value, Sub(root, npath.pos).exts)
      ensures ok ==> freed == old(freed)
    {
      ghost var t := root;
      ghost var ab;
      ok, ab := Split(path, newext, at);
      npath := path;
      if ok {
        ghost var exts, p := Sub(t, path.pos).exts, path.ext.value;
        forall b ensures Held(b) == old(Held(b)) {
          SplitTreeUses(t, path.pos, at, Border(exts, p, newext), ab, exts[..p+1], exts[p+1..], b);
        }
        SplitSearchable(g, t, depth, path, newext, at, ab);
        npath := FindExtent(root, depth, newext.block);
        SplitRoomy(g, t, depth, path, newext, at, ab, npath);
      }
    }

    // ------------------------------------------------------- after a leaf edit

    /** ext4_ext_correct_indexes after the leaf at the end of the path was rewritten in tree t. */
    method CorrectIndexes(path: Path, ghost t: Tree)
      requires Edited(g, t, depth, path.pos, root) && path.ext.Some?
      modifies this`root
      ensures path.ext.value > 0 ==> root == old(root)
      ensures path.ext.value == 0 ==> root == PutKeyed(t, path.pos, old(Sub(root, path.pos)))
    {
      var pos := path.pos;
      if depth == 0 || path.ext.value != 0 {
        return;
      }
      var leaf := Sub(root, pos);
      var border := leaf.exts[0].block;
      assert pos[..depth] == pos && pos[depth..] == [];
      PathPrefix(t, pos, depth);
      var k := depth;
      while k > 0 && (k == depth || pos[k] == 0)
        invariant 0 <= k <= depth && Reaches(t, pos[..k]) && Reaches(Sub(t, pos[..k]), pos[k..])
        invariant root == Put(t, pos[..k], PutKeyed(Sub(t, pos[..k]), pos[k..], leaf))
        invariant k == depth || pos[k] == 0 ==>
                    && Flat(PutKeyed(Sub(t, pos[..k]), pos[k..], leaf)) != []
                    && First(PutKeyed(Sub(t, pos[..k]), pos[k..], leaf)) == border
      {
        k := k - 1;
        CorrectStep(t, pos, k, leaf, root, border);
        var node := Sub(root, pos[..k]);
        root := Put(root, pos[..k], Node(node.kids[pos[k] := node.kids[pos[k]].(key := border)]));
      }
      CorrectDone(g, t, depth, pos, k, leaf);
    }

    /** ext4_ext_try_to_merge_up: a single leaf small enough moves into the inode. */
    method TryToMergeUp(canExtend: bool, pos: seq<nat>, ghost t: Tree)
      requires Edited(g, t, depth, pos, root)
      modifies this
      ensures pendingIo == old(pendingIo) && pool == old(pool)
      ensures forall b :: Held(b) == old(Held(b))
      ensures forall p :: FreedData(freed, p) == FreedData(old(freed), p)
      ensures if canExtend && old(Collapsible(g, root, depth))
              then depth == 0 && WellShapedLeaf(g, root) && root == old(Sub(root, pos)) && Flat(root) == old(Flat(root))
              else root == old(root) && depth == old(depth)
    {
      if depth != 1 || |root.kids| != 1 {
        return;
      }
      var kid := root.kids[0];
      OneKid(root, pos);
      if |kid.sub.exts| > g.rootLeaf || !canExtend {
        return;
      }
      root := kid.sub;
      depth := 0;
      ghost var log := freed;
      freed := [Meta(kid.blk)] + freed;
      assert freed[1..] == log;
    }

    /** ext4_ext_try_to_merge, leaf part, on the rewritten leaf. */
    method MergeInLeaf(pos: seq<nat>, q: nat, ghost t: Tree)
      requires Edited(g, t, depth, pos, root) && Sorted(Flat(root)) && q < |Sub(root, pos).exts|
      modifies this`root
      ensures LeafMerged(pendingIo, g, t, depth, pos, q, old(root), root)
    {
      var exts := Sub(root, pos).exts;
      SubSorted(root, pos);
      var merged := TryToMerge(pendingIo, exts, q);
      MergedIn(pendingIo, g, t, depth, pos, q, root, merged);
      root := Put(root, pos, Leaf(merged));
    }

    /** ext4_ext_try_to_merge on an entry of the rewritten leaf: in the leaf, and then out of it into the inode. */
    method MergeAndLift(pos: seq<nat>, q: nat, canExtend: bool, ghost t: Tree)
      requires ValidGeometry(g) && Edited(g, t, depth, pos, root)
      requires q < |Sub(root, pos).exts| && Sorted(Flat(root))
      modifies this
      ensures pendingIo == old(pendingIo) && depth <= old(depth) && pool == old(pool)
      ensures depth < old(depth) ==> canExtend
      ensures depth == old(depth) ==>
                && Edited(g, t, depth, pos, root) && |Sub(root, pos).exts| <= |old(Sub(root, pos).exts)|
                && First(Sub(root, pos)) == old(First(Sub(root, pos)))
      ensures depth < old(depth) ==> Valid()
      ensures Recut(old(Flat(root)), Flat(root)) && |Flat(root)| <= |old(Flat(root))|
      ensures |Flat(root)| < |old(Flat(root))| <==> Mergeable(pendingIo, old(Sub(root, pos).exts), q)
      ensures canExtend ==> !Collapsible(g, root, depth)
      ensures forall b :: Held(b) == old(Held(b))
      ensures forall p :: FreedData(freed, p) == FreedData(old(freed), p)
    {
      MergeInLeaf(pos, q, t);
      assert Remade(g, t, depth, pos, old(root), root);
      assert forall b :: Held(b) == old(Held(b));
      TryToMergeUp(canExtend, pos, t);
    }

    /** ext4_ext_try_to_merge on an entry of a leaf whose first block is unchanged. */
    method MergeExtent(pos: seq<nat>, q: nat, canExtend: bool, ghost t: Tree)
      requires ValidGeometry(g) && Edited(g, t, depth, pos, root)
      requires q < |Sub(root, pos).exts| <= LeafCap(g, depth == 0) && Sorted(Flat(root))
      requires First(Sub(root, pos)) == First(Sub(t, pos))
      modifies this
      ensures Valid() && pendingIo == old(pendingIo) && depth <= old(depth) && pool == old(pool)
      ensures depth < old(depth) ==> canExtend
      ensures Recut(old(Flat(root)), Flat(root)) && (canExtend ==> !Collapsible(g, root, depth))
      ensures |Flat(root)| < |old(Flat(root))| <==> Mergeable(pendingIo, old(Sub(root, pos).exts), q)
      ensures forall b :: Held(b) == old(Held(b))
      ensures forall p :: FreedData(freed, p) == FreedData(old(freed), p)
    {
      MergeAndLift(pos, q, canExtend, t);
      if depth == |pos| {
        PutFits(g, t, depth, true, pos, Sub(root, pos));
      }
    }

    /** Index correction restores the invariant of the whole tree. */
    method Settle(path: Path, ghost t: Tree)
      requires ValidGeometry(g) && Edited(g, t, depth, path.pos, root) && path.ext.Some?
      requires |Sub(root, path.pos).exts| <= LeafCap(g, depth == 0) && Sorted(Flat(root))
      requires path.ext.value > 0 ==> First(Sub(root, path.pos)) == First(Sub(t, path.pos))
      modifies this`root
      ensures Valid() && Flat(root) == old(Flat(root))
      ensures forall b :: Uses(root, b) == old(Uses(root, b))
      ensures Collapsible(g, root, depth) <==> old(Collapsible(g, root, depth))
    {
      EditedFits(g, t, depth, path, root);
      CorrectIndexes(path, t);
    }

    /** Everything after the label merge of ext4_ext_insert_extent: the leaf was
        rewritten in tree t, entry q of it is to be merged with its neighbours. */
    method FinishInsert(path: Path, q: nat, preIo: bool, canExtend: bool, ghost t: Tree)
      requires ValidGeometry(g) && Edited(g, t, depth, path.pos, root) && path.ext.Some?
      requires q < |Sub(root, path.pos).exts| <= LeafCap(g, depth == 0)
      requires Sorted(Flat(root))
      requires path.ext.value > 0 ==> First(Sub(root, path.pos)) == First(Sub(t, path.pos))
      modifies this
      ensures Valid() && pendingIo == old(pendingIo) && depth <= old(depth) && pool == old(pool)
      ensures depth < old(depth) ==> canExtend
      ensures Recut(old(Flat(root)), Flat(root)) && |Flat(root)| <= |old(Flat(root))|
      ensures preIo ==> Flat(root) == old(Flat(root))
      ensures !preIo ==>
                (|Flat(root)| < |old(Flat(root))| <==> Mergeable(pendingIo, old(Sub(root, path.pos).exts), q))
      ensures !preIo && canExtend ==> !Collapsible(g, root, depth)
      ensures forall b :: Held(b) == old(Held(b))
      ensures forall p :: FreedData(freed, p) == FreedData(old(freed), p)
      ensures preIo ==> freed == old(freed)
    {
      if preIo {
        RecutSelf(Flat(root));
        Settle(path, t);
      } else {
        MergeAndLift(path.pos, q, canExtend, t);
        if depth == |path.pos| {
          Settle(path, t);
        }
      }
    }

    // ---------------------------------------------------------------- insert

    /** The label has_space of ext4_ext_insert_extent: the new extent goes next to
        the path's extent. f are the extents before the insertion. */
    method PlaceInLeaf(path: Path, newext: Extent, preIo: bool, canExtend: bool, ghost f: seq<Extent>)
      requires ValidGeometry(g) && ValidExtent(newext) && Takes(g, root, depth, path, newext, f)
      modifies this
      ensures Valid() && pendingIo == old(pendingIo) && depth <= old(depth) && pool == old(pool)
      ensures depth < old(depth) ==> canExtend
      ensures MapsPlus(f, newext, Flat(root))
      ensures preIo ==> Placed(f, newext, Flat(root))
      ensures !preIo ==>
                var exts := old(Sub(root, path.pos).exts);
                var q := Slot(exts, path.ext, newext);
                |Flat(root)| <= |f| <==> Mergeable(pendingIo, exts[..q] + [newext] + exts[q..], q)
      ensures !preIo && canExtend ==> !Collapsible(g, root, depth)
      ensures forall b :: Held(b) == old(Held(b))
      ensures forall p :: FreedData(freed, p) == FreedData(old(freed), p)
      ensures preIo ==> freed == old(freed)
    {
      var pos, exts := path.pos, Sub(root, path.pos).exts;
      var q := Slot(exts, path.ext, newext);
      ghost var t := if path.ext.None? then Put(root, pos, Leaf([newext])) else root;
      var leaf := Leaf(exts[..q] + [newext] + exts[q..]);
      TakesEdit(g, root, depth, path, newext, f);
      root := Put(root, pos, leaf);
      ghost var f' := Flat(root);
      FinishInsert(Path(pos, Some(q)), q, preIo, canExtend, t);
      PlusRecut(f, newext, f', Flat(root));
    }

    /** The first part of ext4_ext_insert_extent: grow a neighbouring extent. */
    method GrowNeighbour(path: Path, newext: Extent, canExtend: bool) returns (done: bool)
      requires Valid() && PathFor(root, path, newext.block) && |path.pos| == depth && path.ext.Some?
      requires ValidExtent(newext) && Apart(Flat(root), newext)
      modifies this
      ensures pendingIo == old(pendingIo) && depth <= old(depth) && pool == old(pool)
      ensures depth < old(depth) ==> canExtend
      ensures !done ==> root == old(root) && depth == old(depth) && freed == old(freed)
      ensures done ==> Valid() && MapsPlus(old(Flat(root)), newext, Flat(root)) && |Flat(root)| <= |old(Flat(root))|
      ensures done <==> Grows(pendingIo, old(Sub(root, path.pos).exts), path.ext.value, newext)
      ensures done && Fills(pendingIo, old(Sub(root, path.pos).exts), path.ext.value, newext) ==>
                |Flat(root)| < |old(Flat(root))|
      ensures done && canExtend ==> !Collapsible(g, root, depth)
      ensures forall b :: Held(b) == old(Held(b))
      ensures forall p :: FreedData(freed, p) == FreedData(old(freed), p)
    {
      var pos, p := path.pos, path.ext.value;
      var exts := Sub(root, pos).exts;
      SubSorted(root, pos);
      var ex: int, prependOnly := p, false;
      if p + 1 < |exts| && End(exts[p]) < newext.block {
        ex, prependOnly := p + 1, true;
      } else if p > 0 && End(newext) < exts[p].block {
        ex := p - 1;
      }
      GrowChoice(pendingIo, exts, p, newext, ex, prependOnly);
      if !prependOnly && CanMerge(pendingIo, exts[ex], newext) {
        TakeOver(path, newext, ex, true, canExtend);
        done := true;
      } else if CanMerge(pendingIo, newext, exts[ex]) {
        TakeOver(path, newext, ex, false, canExtend);
        done := true;
      } else {
        done := false;
      }
    }

    /** Entry ex becomes the new extent appended or prepended to it. */
    method TakeOver(path: Path, newext: Extent, ex: nat, append: bool, canExtend: bool)
      requires Valid() && PathFor(root, path, newext.block) && |path.pos| == depth && path.ext.Some?
      requires ValidExtent(newext) && Apart(Flat(root), newext) && ex < |Sub(root, path.pos).exts|
      requires ValidExtent(Sub(root, path.pos).exts[ex])
      requires var x := Sub(root, path.pos).exts[ex];
               if append then CanMerge(pendingIo, x, newext) else CanMerge(pendingIo, newext, x)
      modifies this
      ensures pendingIo == old(pendingIo) && depth <= old(depth) && pool == old(pool)
      ensures depth < old(depth) ==> canExtend
      ensures Valid() && MapsPlus(old(Flat(root)), newext, Flat(root)) && |Flat(root)| <= |old(Flat(root))|
      ensures var exts := old(Sub(root, path.pos).exts);
              append && Mergeable(pendingIo, exts[ex := Merged(exts[ex], newext)], ex) ==>
                |Flat(root)| < |old(Flat(root))|
      ensures canExtend ==> !Collapsible(g, root, depth)
      ensures forall b :: Held(b) == old(Held(b))
      ensures forall p :: FreedData(freed, p) == FreedData(old(freed), p)
    {
      var pos, exts := path.pos, Sub(root, path.pos).exts;
      ghost var t := root;
      if append {
        AppendEdit(g, root, depth, path, newext, pendingIo, ex);
        root := Put(root, pos, Leaf(exts[ex := Merged(exts[ex], newext)]));
      } else {
        PrependEdit(g, root, depth, path, newext, pendingIo, ex);
        root := Put(root, pos, Leaf(exts[ex := Merged(newext, exts[ex])]));
      }
      ghost var f' := Flat(root);
      FinishInsert(path, ex, false, canExtend, t);
      PlusRecut(Flat(t), newext, f', Flat(root));
    }

    /** ext4_ext_insert_extent, with the path that ext4_find_extent returns for the
        first block of the new extent. preIo is EXT4_GET_BLOCKS_PRE_IO, canExtend the
        outcome of the journal extension that collapsing into the inode needs. */
    method InsertExtent(path: Path, newext: Extent, preIo: bool, canExtend: bool) returns (r: Status)
      requires Valid() && PathFor(root, path, newext.block) && |path.pos| == depth
      requires Len(newext) != 0 ==> ValidExtent(newext) && Apart(Flat(root), newext)
      modifies this
      ensures Valid() && pendingIo == old(pendingIo) && depth <= old(depth) + 1
      ensures depth < old(depth) ==> canExtend
      ensures r == Ok ==> MapsPlus(old(Flat(root)), newext, Flat(root))
      ensures r == Ok && preIo ==> Placed(old(Flat(root)), newext, Flat(root))
      ensures r != Ok ==> Flat(root) == old(Flat(root))
      ensures r != NotZeroed && (r == Corrupted <==> Len(newext) == 0)
      ensures old(|Sub(root, path.pos).exts|) < LeafCap(g, old(depth) == 0) ==> r != NoSpace
      ensures Len(newext) != 0 && !preIo && path.ext.Some? ==>
                Joins(pendingIo, old(Sub(root, path.pos).exts), path.ext.value, newext, LeafCap(g, old(depth) == 0),
                      old(depth) == 0 && old(pool) != [], r == Ok, |old(Flat(root))|, |Flat(root)|)
      ensures Len(newext) != 0 && FullRoot(g, old(root), old(depth)) && old(pool) == [] && path.ext.Some? ==>
                preIo || !Grows(pendingIo, old(Sub(root, path.pos).exts), path.ext.value, newext) ==> r == NoSpace
      ensures Len(newext) != 0 && !preIo && path.ext.Some? && pool != old(pool) ==>
                !Grows(pendingIo, old(Sub(root, path.pos).exts), path.ext.value, newext)
      ensures r == Ok && !preIo && canExtend ==> !Collapsible(g, root, depth)
      ensures NextHasRoom(g, old(root), old(depth), path.pos, newext.block) ==> pool == old(pool)
      ensures |pool| <= |old(pool)| <= |pool| + old(depth) + 2
      ensures r == NoSpace ==> |old(pool)| < old(depth) + 2 && pool == []
      ensures forall b :: Held(b) == old(Held(b))
      ensures forall p :: FreedData(freed, p) == FreedData(old(freed), p)
      ensures r == Ok && preIo ==> freed == old(freed)
    {
      if Len(newext) == 0 {
        return Corrupted;
      }
      if path.ext.Some? && !preIo {
        var done := GrowNeighbour(path, newext, canExtend);
        if done {
          return Ok;
        }
      }
      r := InsertApart(path, newext, preIo, canExtend);
    }

    /** The rest of ext4_ext_insert_extent: the new extent becomes an entry of its own. */
    method InsertApart(path: Path, newext: Extent, preIo: bool, canExtend: bool) returns (r: Status)
      requires Valid() && PathFor(root, path, newext.block) && |path.pos| == depth
      requires Len(newext) != 0 && ValidExtent(newext) && Apart(Flat(root), newext)
      modifies this
      ensures Valid() && pendingIo == old(pendingIo) && depth <= old(depth) + 1
      ensures depth < old(depth) ==> canExtend
      ensures r == Ok ==> MapsPlus(old(Flat(root)), newext, Flat(root))
      ensures r == Ok && preIo ==> Placed(old(Flat(root)), newext, Flat(root))
      ensures r != Ok ==> r == NoSpace && Flat(root) == old(Flat(root))
      ensures old(|Sub(root, path.pos).exts|) < LeafCap(g, old(depth) == 0) ==> r != NoSpace
      ensures !preIo && path.ext.Some? ==>
                JoinsBehind(pendingIo, old(Sub(root, path.pos).exts), path.ext.value, newext,
                            LeafCap(g, old(depth) == 0), old(depth) == 0 && old(pool) != [], r == Ok, |old(Flat(root))|,
                            |Flat(root)|)
      ensures FullRoot(g, old(root), old(depth)) && old(pool) == [] ==> r == NoSpace
      ensures r == Ok && !preIo && canExtend ==> !Collapsible(g, root, depth)
      ensures NextHasRoom(g, old(root), old(depth), path.pos, newext.block) ==> pool == old(pool)
      ensures |pool| <= |old(pool)| <= |pool| + old(depth) + 2
      ensures r == NoSpace ==> |old(pool)| < old(depth) + 2 && pool == []
      ensures forall b :: Held(b) == old(Held(b))
      ensures forall p :: FreedData(freed, p) == FreedData(old(freed), p)
      ensures r == Ok && preIo ==> freed == old(freed)
    {
      ghost var f, t := Flat(root), root;
      var room := LeafWithRoom(path, newext);
      if room.Some? {
        if path.ext.Some? { RoomMerges(root, path, newext, pendingIo); }
        PlaceInLeaf(room.value, newext, preIo, canExtend, f);
        return Ok;
      }
      FullLeaf(g, root, depth, path);
      var ok, npath := CreateNewLeaf(path, newext);
      if !ok {
        return NoSpace;
      }
      NewLeafMerges(t, path, root, npath, newext, pendingIo);
      RoomyTakes(g, root, depth, npath, newext, f);
      PlaceInLeaf(npath, newext, preIo, canExtend, f);
      return Ok;
    }

    /** The found leaf if it is not full, else the next leaf if the new extent
        lies beyond the found one and the next one is not full. */
    method LeafWithRoom(path: Path, newext: Extent) returns (room: Option<Path>)
      requires Valid() && PathFor(root, path, newext.block) && |path.pos| == depth
      requires ValidExtent(newext) && Apart(Flat(root), newext)
      ensures room.Some? ==> Takes(g, root, depth, room.value, newext, Flat(root))
      ensures |Sub(root, path.pos).exts| < LeafCap(g, depth == 0) ==> room == Some(path)
      ensures var exts := Sub(root, path.pos).exts;
              exts != [] && newext.block <= exts[|exts|-1].block ==> room.None? || room == Some(path)
      ensures NextHasRoom(g, root, depth, path.pos, newext.block) ==> room.Some?
    {
      var exts := Sub(root, path.pos).exts;
      if |exts| < LeafCap(g, depth == 0) {
        PathTakes(g, root, depth, path, newext);
        return Some(path);
      }
      FullLeaf(g, root, depth, path);
      room := NextWithRoom(path, newext);
    }

    /** The leaf behind a full one, if the new extent lies beyond the full one and there is room. */
    method NextWithRoom(path: Path, newext: Extent) returns (room: Option<Path>)
      requires Valid() && PathFor(root, path, newext.block) && |path.pos| == depth && path.ext.Some?
      requires ValidExtent(newext) && Apart(Flat(root), newext)
      ensures room.Some? ==> Takes(g, root, depth, room.value, newext, Flat(root))
      ensures var exts := Sub(root, path.pos).exts; newext.block <= exts[|exts|-1].block ==> room.None?
      ensures NextHasRoom(g, root, depth, path.pos, newext.block) ==> room.Some?
    {
      var exts := Sub(root, path.pos).exts;
      if newext.block > exts[|exts|-1].block {
        var next := NextLeafBlock(g, root, depth, path.pos);
        NextExists(g, root, depth, path.pos, newext.block);
        if next != MAX_BLOCKS {
          FitsSearchable(g, root, depth, true);
          var npath := FindExtent(root, depth, next);
          FindsRoom(g, root, depth, path.pos, npath, newext.block);
          if |Sub(root, npath.pos).exts| < LeafCap(g, depth == 0) {
            NextLeafTakes(g, root, depth, path, npath, newext);
            return Some(npath);
          }
        }
      }
      return None;
    }
  }

  datatype Status = Ok | NoSpace | Corrupted | NotZeroed

  /** What k insertions into a tree of depth d0 take at most: a new block on each level and two to grow the tree,
      which gets one level deeper each time. */
  ghost function Toll(d0: nat, k: nat): nat {
    if k == 0 then 0 else Toll(d0, k - 1) + d0 + k + 1
  }

  /** After at most k insertions p of p0 blocks are left and the tree of depth d0 has depth d. */
  ghost predicate Spent(p0: nat, d0: nat, k: nat, p: nat, d: nat) {
    d <= d0 + k && p <= p0 <= p + Toll(d0, k)
  }

  lemma SpentStep(p0: nat, d0: nat, k: nat, p: nat, d: nat, p': nat, d': nat)
    requires Spent(p0, d0, k, p, d) && d' <= d + 1 && p' <= p <= p' + d + 2
    ensures Spent(p0, d0, k + 1, p', d')
  {
  }

  lemma {:induction false} SpentMore(p0: nat, d0: nat, k: nat, n: nat, p: nat, d: nat)
    requires Spent(p0, d0, k, p, d) && k <= n
    ensures Spent(p0, d0, n, p, d)
    decreases n - k
  {
    if k < n { SpentMore(p0, d0, k + 1, n, p, d); }
  }

  // ------------------------------------------------------ the gap for an extent

  lemma FullLeaf(g: Geometry, t: Tree, d: nat, path: Path)
    requires ValidGeometry(g) && WellFormed(g, t, d) && Reaches(t, path.pos) && |path.pos| == d &&
               Sub(t, path.pos).Leaf?
    requires path.ext.None? ==> Sub(t, path.pos).exts == []
    requires |Sub(t, path.pos).exts| >= LeafCap(g, d == 0)
    ensures |Sub(t, path.pos).exts| == LeafCap(g, d == 0) && path.ext.Some?
  {
    FitsSub(g, t, d, true, path.pos);
  }

  lemma PathTakes(g: Geometry, t: Tree, d: nat, path: Path, e: Extent)
    requires ValidGeometry(g) && WellFormed(g, t, d) && PathFor(t, path, e.block) && |path.pos| == d
    requires ValidExtent(e) && Apart(Flat(t), e)
    requires |Sub(t, path.pos).exts| < LeafCap(g, d == 0)
    ensures Takes(g, t, d, path, e, Flat(t))
  {
    if path.ext.None? {
      EmptyLeaf(g, t, d, path.pos);
      FitsSub(g, t, d, true, path.pos);
      assert Put(t, path.pos, Leaf([e])) == Leaf([e]);
    } else {
      Bracket(g, t, d, true, path.pos, e.block);
      SubFlat(t, path.pos);
      SlotGap(Before(t, path.pos), Sub(t, path.pos).exts, After(t, path.pos), path.ext.value, e);
    }
  }

  lemma SlotGap(bf: seq<Extent>, exts: seq<Extent>, af: seq<Extent>, p: nat, e: Extent)
    requires exts != [] && ClosestExt(exts, e.block, p)
    requires bf != [] ==> exts[0].block <= e.block
    requires af != [] ==> e.block < af[0].block
    requires Apart(bf + exts + af, e) && Sorted(bf + exts + af) && ValidExtent(e)
    ensures GapAt(bf, exts, af, Slot(exts, Some(p), e), e)
  {
    var f := bf + exts + af;
    assert f[|bf| + p] == exts[p];
    assert ValidExtent(exts[p]);
    if bf != [] && p == 0 {
      assert f[|bf|-1] == bf[|bf|-1];
      assert End(f[|bf|-1]) <= f[|bf|].block;
    }
  }

  lemma RoomyTakes(g: Geometry, t: Tree, d: nat, path: Path, e: Extent, f: seq<Extent>)
    requires ValidGeometry(g) && Roomy(g, t, d, path, e, f) && ValidExtent(e) && Apart(f, e)
    ensures Takes(g, t, d, path, e, f)
  {
    if path.ext.Some? {
      PathTakes(g, t, d, path, e);
    }
  }

  /** Two different leaves occupy disjoint stretches of the flattened tree. */
  lemma {:induction false} LeavesApart(t: Tree, p: seq<nat>, q: seq<nat>)
    requires Reaches(t, p) && Reaches(t, q) && |p| == |q| && p != q
    ensures || |Before(t, p)| + |Flat(Sub(t, p))| <= |Before(t, q)|
            || |Before(t, q)| + |Flat(Sub(t, q))| <= |Before(t, p)|
    decreases |p|
  {
    var i, j := p[0], q[0];
    if i == j {
      assert p == [i] + p[1..] && q == [j] + q[1..];
      LeavesApart(t.kids[i].sub, p[1..], q[1..]);
    } else if i < j {
      KidBefore(t, p, j);
    } else {
      KidBefore(t, q, i);
    }
  }

  lemma KidBefore(t: Tree, p: seq<nat>, j: nat)
    requires Reaches(t, p) && p != [] && p[0] < j <= |t.kids|
    ensures |Before(t, p)| + |Flat(Sub(t, p))| <= |FlatKids(t.kids[..j])|
  {
    var i := p[0];
    SubFlat(t.kids[i].sub, p[1..]);
    FlatKidsAt(t.kids[..j], i);
    assert t.kids[..j][..i] == t.kids[..i];
  }

  lemma SamePlace(f: seq<Extent>, k: nat, r: nat, b: nat)
    requires Sorted(f) && k < |f| && r < |f| && f[k].block == b
    requires forall j :: r < j < |f| ==> b < f[j].block
    requires b < f[r].block ==> r == 0
    ensures r == k
  {
    assert ValidExtent(f[k]);
  }

  /** The leaf found for the first block right of a path starts right there. */
  lemma NextLeafStarts(g: Geometry, t: Tree, d: nat, pos: seq<nat>, npath: Path)
    requires WellFormed(g, t, d) && Reaches(t, pos) && |pos| == d && Sub(t, pos).Leaf?
    requires After(t, pos) != [] && Sub(t, pos).exts != []
    requires PathFor(t, npath, After(t, pos)[0].block) && |npath.pos| == d
    ensures npath.ext == Some(0)
    ensures |Before(t, npath.pos)| == |Before(t, pos)| + |Sub(t, pos).exts|
    ensures Sub(t, npath.pos).exts[0] == After(t, pos)[0]
  {
    var f, k := Flat(t), |Before(t, pos)| + |Sub(t, pos).exts|;
    var next := After(t, pos)[0].block;
    assert f[k] == After(t, pos)[0] by { SubFlat(t, pos); }
    assert npath.ext.Some? by {
      if npath.ext.None? { EmptyLeaf(g, t, d, npath.pos); }
    }
    RankBracket(g, t, d, npath, next);
    var r := Rank(t, npath);
    assert k < |f| by { SubFlat(t, pos); }
    SamePlace(f, k, r, next);
    if npath.pos != pos {
      LeavesApart(t, pos, npath.pos);
    }
  }

  lemma NextLeafTakes(g: Geometry, t: Tree, d: nat, path: Path, npath: Path, e: Extent)
    requires WellFormed(g, t, d) && PathFor(t, path, e.block) && |path.pos| == d && path.ext.Some?
    requires ValidExtent(e) && Apart(Flat(t), e)
    requires e.block > Sub(t, path.pos).exts[|Sub(t, path.pos).exts|-1].block
    requires After(t, path.pos) != [] && PathFor(t, npath, After(t, path.pos)[0].block) && |npath.pos| == d
    requires |Sub(t, npath.pos).exts| < LeafCap(g, d == 0)
    ensures Takes(g, t, d, npath, e, Flat(t))
  {
    var pos, exts := path.pos, Sub(t, path.pos).exts;
    NextLeafStarts(g, t, d, pos, npath);
    Bracket(g, t, d, true, pos, e.block);
    LastBefore(t, pos, npath.pos);
  }

  /** The tree is a leaf in the inode, and full. */
  ghost predicate FullRoot(g: Geometry, t: Tree, d: nat) {
    d == 0 && t.Leaf? && |t.exts| == LeafCap(g, true)
  }

  /** The leaf at npos directly follows the one at pos and has room. */
  ghost predicate RoomBehind(g: Geometry, t: Tree, d: nat, pos: seq<nat>, npos: seq<nat>) {
    && Reaches(t, pos) && Sub(t, pos).Leaf? && Reaches(t, npos) && |npos| == d && Sub(t, npos).Leaf?
    && |Before(t, npos)| == |Before(t, pos)| + |Sub(t, pos).exts|
    && 0 < |Sub(t, npos).exts| < LeafCap(g, d == 0)
  }

  /** Block b lies behind the leaf at pos, and the next leaf has room. */
  ghost predicate NextHasRoom(g: Geometry, t: Tree, d: nat, pos: seq<nat>, b: nat) {
    && Reaches(t, pos) && Sub(t, pos).Leaf? && Sub(t, pos).exts != []
    && Sub(t, pos).exts[|Sub(t, pos).exts|-1].block < b && exists npos :: RoomBehind(g, t, d, pos, npos)
  }

  lemma NextExists(g: Geometry, t: Tree, d: nat, pos: seq<nat>, b: nat)
    requires WellFormed(g, t, d) && |pos| == d && Reaches(t, pos)
    ensures NextHasRoom(g, t, d, pos, b) ==> After(t, pos) != [] && After(t, pos)[0].block < MAX_BLOCKS
  {
    if NextHasRoom(g, t, d, pos, b) {
      var npos :| RoomBehind(g, t, d, pos, npos);
      SubFlat(t, pos);
      SubFlat(t, npos);
      assert ValidExtent(Flat(t)[|Before(t, npos)|]);
    }
  }

  /** The search for the block at which the next leaf starts finds that leaf. */
  lemma FindsRoom(g: Geometry, t: Tree, d: nat, pos: seq<nat>, npath: Path, b: nat)
    requires WellFormed(g, t, d) && |pos| == d && Reaches(t, pos) && After(t, pos) != []
    requires PathFor(t, npath, After(t, pos)[0].block) && |npath.pos| == d
    ensures NextHasRoom(g, t, d, pos, b) ==> |Sub(t, npath.pos).exts| < LeafCap(g, d == 0)
  {
    if NextHasRoom(g, t, d, pos, b) {
      var npos :| RoomBehind(g, t, d, pos, npos);
      NextLeafStarts(g, t, d, pos, npath);
      SameLeaf(t, npath.pos, npos);
    }
  }

  /** Leaves that start at the same rank are the same. */
  lemma {:induction false} SameLeaf(t: Tree, p: seq<nat>, q: seq<nat>)
    requires Reaches(t, p) && Reaches(t, q) && Sub(t, p).Leaf? && Sub(t, q).Leaf?
    requires Sub(t, p).exts != [] && Sub(t, q).exts != [] && |Before(t, p)| == |Before(t, q)|
    ensures p == q
    decreases |p|
  {
    if p != [] && q != [] {
      if p[0] < q[0] {
        LeafBefore(t, p, q[0]);
      } else if q[0] < p[0] {
        LeafBefore(t, q, p[0]);
      } else {
        SameLeaf(t.kids[p[0]].sub, p[1..], q[1..]);
      }
    }
  }

  /** All of a leaf comes before the children behind its own. */
  lemma LeafBefore(t: Tree, p: seq<nat>, j: nat)
    requires Reaches(t, p) && p != [] && Sub(t, p).Leaf? && p[0] < j <= |t.kids|
    ensures |Before(t, p)| + |Sub(t, p).exts| <= |FlatKids(t.kids[..j])|
  {
    var i := p[0];
    SubFlat(t.kids[i].sub, p[1..]);
    FlatKidsAt(t.kids[..j], i);
    assert t.kids[..j][..i] == t.kids[..i] && t.kids[..j][i] == t.kids[i];
  }

  /** The last extent before the next leaf is the last one of this leaf. */
  lemma LastBefore(t: Tree, pos: seq<nat>, npos: seq<nat>)
    requires Reaches(t, pos) && Sub(t, pos).Leaf? && Sub(t, pos).exts != [] && Reaches(t, npos)
    requires |Before(t, npos)| == |Before(t, pos)| + |Sub(t, pos).exts|
    ensures Before(t, npos)[|Before(t, npos)|-1] == Sub(t, pos).exts[|Sub(t, pos).exts|-1]
  {
    SubFlat(t, pos);
    SubFlat(t, npos);
    SamePrefix(Before(t, pos), Sub(t, pos).exts, After(t, pos), Before(t, npos), Flat(Sub(t, npos)) + After(t, npos),
               Flat(t));
  }

  lemma SamePrefix(a: seq<Extent>, m: seq<Extent>, c: seq<Extent>, a': seq<Extent>, c': seq<Extent>, f: seq<Extent>)
    requires f == a + m + c && f == a' + c' && |a'| == |a| + |m| && m != []
    ensures a'[|a'|-1] == m[|m|-1]
  {
    assert f[|a'|-1] == m[|m|-1];
  }

  /** The extent next to which e comes, entry p or the one behind it, can take it. */
  ghost predicate Grows(pendingIo: bool, exts: seq<Extent>, p: nat, e: Extent)
    requires p < |exts|
  {
    || Extends(pendingIo, exts[p], e) || Extends(pendingIo, e, exts[p])
    || (p + 1 < |exts| && exts[p].block + Len(exts[p]) < e.block && Extends(pendingIo, e, exts[p+1]))
  }

  /** The neighbour that is looked at can take e iff one of them can, and takes it so that all three become one. */
  lemma GrowChoice(pendingIo: bool, exts: seq<Extent>, p: nat, e: Extent, ex: int, prependOnly: bool)
    requires Sorted(exts) && p < |exts| && 0 <= ex < |exts| && ValidExtent(e)
    requires prependOnly == (p + 1 < |exts| && End(exts[p]) < e.block)
    requires ex == if prependOnly then p + 1 else if p > 0 && End(e) < exts[p].block then p - 1 else p
    requires ClosestExt(exts, e.block, p)
    ensures (!prependOnly && CanMerge(pendingIo, exts[ex], e)) || CanMerge(pendingIo, e, exts[ex]) <==>
            Grows(pendingIo, exts, p, e)
    ensures Fills(pendingIo, exts, p, e) ==>
              && !prependOnly && CanMerge(pendingIo, exts[ex], e) && ex == p
              && Mergeable(pendingIo, exts[ex := Merged(exts[ex], e)], ex)
  {
    assert ValidExtent(exts[p]) && ValidExtent(exts[ex]);
    CanMergeIff(pendingIo, exts[ex], e);
    CanMergeIff(pendingIo, e, exts[ex]);
    if Fills(pendingIo, exts, p, e) { CanMergeIff(pendingIo, Merged(exts[p], e), exts[p+1]); }
  }

  /** The gap before entry p + 1 is filled by e, and all three make one extent. */
  ghost predicate Fills(pendingIo: bool, exts: seq<Extent>, p: nat, e: Extent)
    requires p < |exts|
  {
    && p + 1 < |exts| && Extends(pendingIo, exts[p], e) && Extends(pendingIo, e, exts[p+1])
    && Len(exts[p]) + Len(e) + Len(exts[p+1]) <= if Unwritten(e) then 0x7fff else 0x8000
  }

  /** An extent that goes on where its neighbour in the leaf ends, or that the one behind it goes on, makes no entry of
      its own, except when it touches the one before without going on there and the leaf is full. Before and after there
      are n and n' extents; grown says that the leaf can move out of the inode. */
  ghost predicate Joins(pendingIo: bool, exts: seq<Extent>, p: nat, e: Extent, cap: nat, grown: bool, ok: bool, n: nat,
                        n': nat) {
    && p < |exts|
    && (Grows(pendingIo, exts, p, e) ==> ok && n' <= n)
    && (Fills(pendingIo, exts, p, e) ==> ok && n' < n)
    && (!Grows(pendingIo, exts, p, e) ==> JoinsBehind(pendingIo, exts, p, e, cap, grown, ok, n, n'))
  }

  ghost predicate JoinsBehind(pendingIo: bool, exts: seq<Extent>, p: nat, e: Extent, cap: nat, grown: bool, ok: bool,
                              n: nat, n': nat) {
    p + 1 < |exts| && Extends(pendingIo, e, exts[p+1]) && !Extends(pendingIo, exts[p], e) ==>
      (ok && n' <= n <==> |exts| < cap || grown)
  }

  /** In a leaf with room e is merged with the extent behind it if that one goes on where e ends. */
  lemma RoomMerges(t: Tree, path: Path, e: Extent, pendingIo: bool)
    requires PathFor(t, path, e.block) && path.ext.Some? && Sorted(Flat(t)) && ValidExtent(e) && Apart(Flat(t), e)
    ensures var exts, p := Sub(t, path.pos).exts, path.ext.value;
            var q := Slot(exts, path.ext, e);
            p + 1 < |exts| && Extends(pendingIo, e, exts[p+1]) ==>
              Mergeable(pendingIo, exts[..q] + [e] + exts[q..], q)
  {
    var exts, p := Sub(t, path.pos).exts, path.ext.value;
    if p + 1 < |exts| && Extends(pendingIo, e, exts[p+1]) {
      SubSorted(t, path.pos);
      SubApart(t, path.pos, e);
      GapMerges(exts, p, e, pendingIo);
    }
  }

  lemma GapMerges(exts: seq<Extent>, p: nat, e: Extent, pendingIo: bool)
    requires Sorted(exts) && Apart(exts, e) && ValidExtent(e) && p + 1 < |exts| && Extends(pendingIo, e, exts[p+1])
    ensures exts[p].block < e.block && Mergeable(pendingIo, exts[..p+1] + [e] + exts[p+1..], p + 1)
    ensures !Extends(pendingIo, exts[p], e) ==> !Mergeable(pendingIo, exts[..p+1] + [e], p + 1)
  {
    assert ValidExtent(exts[p]) && End(exts[p]) <= exts[p+1].block;
    var leaf := exts[..p+1] + [e] + exts[p+1..];
    assert leaf[p+1] == e && leaf[p+2] == exts[p+1];
    CanMergeIff(pendingIo, e, exts[p+1]);
    CanMergeIff(pendingIo, exts[p], e);
  }

  /** Behind a split e is not merged with the extent behind it; in a leaf that moved out of the inode it is. */
  ghost predicate NewLeafJoins(pendingIo: bool, exts: seq<Extent>, p: nat, e: Extent, leaf: seq<Extent>,
                               ext: Option<nat>) {
    p + 1 < |exts| && Extends(pendingIo, e, exts[p+1]) && (ext.Some? ==> ext.value < |leaf|) ==>
      var q := Slot(leaf, ext, e);
      && (leaf == exts ==> Mergeable(pendingIo, leaf[..q] + [e] + leaf[q..], q))
      && (leaf == exts[..p+1] && !Extends(pendingIo, exts[p], e) ==>
            !Mergeable(pendingIo, leaf[..q] + [e] + leaf[q..], q))
  }

  lemma NewLeafMerges(t: Tree, path: Path, t': Tree, npath: Path, e: Extent, pendingIo: bool)
    requires PathFor(t, path, e.block) && path.ext.Some? && Sorted(Flat(t)) && ValidExtent(e) && Apart(Flat(t), e)
    requires PathFor(t', npath, e.block)
    ensures NewLeafJoins(pendingIo, Sub(t, path.pos).exts, path.ext.value, e, Sub(t', npath.pos).exts, npath.ext)
  {
    SubSorted(t, path.pos);
    SubApart(t, path.pos, e);
    NewLeafSeq(pendingIo, Sub(t, path.pos).exts, path.ext.value, e, Sub(t', npath.pos).exts, npath.ext);
  }

  lemma NewLeafSeq(pendingIo: bool, exts: seq<Extent>, p: nat, e: Extent, leaf: seq<Extent>, ext: Option<nat>)
    requires Sorted(exts) && Apart(exts, e) && ValidExtent(e) && ClosestExt(exts, e.block, p)
    requires match ext case None => leaf == [] case Some(i) => ClosestExt(leaf, e.block, i)
    ensures NewLeafJoins(pendingIo, exts, p, e, leaf, ext)
  {
    if p + 1 < |exts| && Extends(pendingIo, e, exts[p+1]) {
      GapMerges(exts, p, e, pendingIo);
      if leaf == exts {
        SameSlot(exts, p, leaf, ext, e);
      } else if leaf == exts[..p+1] {
        SameSlot(exts, p, leaf, ext, e);
        WholeFront(leaf, e);
      }
    }
  }

  lemma WholeFront(s: seq<Extent>, e: Extent)
    ensures s[..|s|] + [e] + s[|s|..] == s + [e]
  {
  }

  lemma SameSlot(exts: seq<Extent>, p: nat, leaf: seq<Extent>, ext: Option<nat>, e: Extent)
    requires p < |exts| && (leaf == exts || leaf == exts[..p+1]) && exts[p].block < e.block &&
               ClosestExt(exts, e.block, p)
    requires match ext case None => leaf == [] case Some(i) => ClosestExt(leaf, e.block, i)
    ensures ext.Some? && Slot(leaf, ext, e) == p + 1
  {
    assert ClosestExt(leaf, e.block, p);
    ClosestUnique(leaf, e.block, p, ext.value);
  }

  lemma SubApart(t: Tree, pos: seq<nat>, e: Extent)
    requires Reaches(t, pos) && Sub(t, pos).Leaf? && Apart(Flat(t), e)
    ensures Apart(Sub(t, pos).exts, e)
  {
    SubFlat(t, pos);
    var exts := Sub(t, pos).exts;
    forall i | 0 <= i < |exts| ensures End(exts[i]) <= e.block || End(e) <= exts[i].block {
      assert Flat(t)[|Before(t, pos)| + i] == exts[i];
    }
  }

  /** Where PlaceInLeaf writes: the first entry, or next to the path's extent. */
  function Slot(exts: seq<Extent>, ext: Option<nat>, e: Extent): (q: nat)
    requires ext.Some? ==> ext.value < |exts|
    ensures q <= |exts|
  {
    match ext
    case None => 0
    case Some(p) => if e.block > exts[p].block then p + 1 else p
  }

  /** The leaf at the end of the path has room and the right gap for e. */
  ghost predicate Takes(g: Geometry, t: Tree, d: nat, path: Path, e: Extent, f: seq<Extent>) {
    && Reaches(t, path.pos) && |path.pos| == d && Sub(t, path.pos).Leaf?
    && var exts := Sub(t, path.pos).exts;
       && |exts| < LeafCap(g, d == 0)
       && match path.ext
          case Some(p) =>
            && p < |exts| && WellFormed(g, t, d) && Flat(t) == f && Apart(f, e)
            && GapAt(Before(t, path.pos), exts, After(t, path.pos), Slot(exts, path.ext, e), e)
          case None =>
            && exts == [] && WellFormed(g, Put(t, path.pos, Leaf([e])), d)
            && f == Before(t, path.pos) + After(t, path.pos)
  }

  lemma TakesEdit(g: Geometry, t: Tree, d: nat, path: Path, e: Extent, f: seq<Extent>)
    requires ValidExtent(e) && Takes(g, t, d, path, e, f)
    ensures var pos, exts := path.pos, Sub(t, path.pos).exts;
            var q := Slot(exts, path.ext, e);
            var leaf := Leaf(exts[..q] + [e] + exts[q..]);
            var t0 := if path.ext.None? then Put(t, pos, Leaf([e])) else t;
            var t1 := Put(t, pos, leaf);
            && Edited(g, t0, d, pos, t1) && Sub(t1, pos) == leaf && Sorted(Flat(t1))
            && MapsPlus(f, e, Flat(t1)) && Placed(f, e, Flat(t1))
            && (q > 0 ==> First(leaf) == First(Sub(t0, pos)))
            && forall b :: Uses(t1, b) == Uses(t, b)
  {
    var pos, exts := path.pos, Sub(t, path.pos).exts;
    var q := Slot(exts, path.ext, e);
    var leaf := Leaf(exts[..q] + [e] + exts[q..]);
    SameUses(t, pos, leaf);
    if path.ext.None? {
      assert leaf == Leaf([e]);
      EmptyEdit(g, t, d, pos, e);
    } else {
      GapEdit(g, t, d, pos, q, e);
    }
  }

  /** Rewriting a leaf uses no other tree blocks. */
  lemma SameUses(t: Tree, pos: seq<nat>, leaf: Tree)
    requires Reaches(t, pos) && Sub(t, pos).Leaf? && leaf.Leaf?
    ensures forall b :: Uses(Put(t, pos, leaf), b) == Uses(t, b)
  {
    PutParts(t, pos, leaf);
    forall b ensures Uses(Put(t, pos, leaf), b) == Uses(t, b) { SubUses(t, pos, b); }
  }

  /** Into the empty leaf of a new branch. */
  lemma EmptyEdit(g: Geometry, t: Tree, d: nat, pos: seq<nat>, e: Extent)
    requires Reaches(t, pos) && |pos| == d && WellFormed(g, Put(t, pos, Leaf([e])), d)
    ensures var t1 := Put(t, pos, Leaf([e]));
            && Edited(g, t1, d, pos, t1) && Sub(t1, pos) == Leaf([e])
            && MapsPlus(Before(t, pos) + After(t, pos), e, Flat(t1)) &&
                 Placed(Before(t, pos) + After(t, pos), e, Flat(t1))
  {
    var t1 := Put(t, pos, Leaf([e]));
    PutParts(t, pos, Leaf([e]));
    PutSame(t1, pos);
    PlaceMaps(Before(t, pos), After(t, pos), e);
    PlacedAt(Before(t, pos), After(t, pos), e);
  }

  /** Into a gap of a leaf. */
  lemma GapEdit(g: Geometry, t: Tree, d: nat, pos: seq<nat>, q: nat, e: Extent)
    requires WellFormed(g, t, d) && Reaches(t, pos) && |pos| == d && Sub(t, pos).Leaf?
    requires ValidExtent(e) && Apart(Flat(t), e) && GapAt(Before(t, pos), Sub(t, pos).exts, After(t, pos), q, e)
    ensures var exts := Sub(t, pos).exts;
            var leaf := Leaf(exts[..q] + [e] + exts[q..]);
            var t1 := Put(t, pos, leaf);
            && Edited(g, t, d, pos, t1) && Sub(t1, pos) == leaf && Sorted(Flat(t1))
            && MapsPlus(Flat(t), e, Flat(t1)) && Placed(Flat(t), e, Flat(t1))
  {
    var exts := Sub(t, pos).exts;
    var leaf := Leaf(exts[..q] + [e] + exts[q..]);
    PutParts(t, pos, leaf);
    SubFlat(t, pos);
    PlaceLeaf(Before(t, pos), exts, After(t, pos), q, e);
  }

  lemma AppendEdit(g: Geometry, t: Tree, d: nat, path: Path, e: Extent, pendingIo: bool, i: nat)
    requires WellFormed(g, t, d) && PathFor(t, path, e.block) && |path.pos| == d && path.ext.Some?
    requires ValidExtent(e) && Apart(Flat(t), e)
    requires i < |Sub(t, path.pos).exts| && ValidExtent(Sub(t, path.pos).exts[i])
    requires CanMerge(pendingIo, Sub(t, path.pos).exts[i], e)
    ensures var exts := Sub(t, path.pos).exts;
            var leaf := Leaf(exts[i := Merged(exts[i], e)]);
            var t1 := Put(t, path.pos, leaf);
            && Edited(g, t, d, path.pos, t1) && Sub(t1, path.pos) == leaf && Sorted(Flat(t1))
            && MapsPlus(Flat(t), e, Flat(t1)) && |Flat(t1)| == |Flat(t)| && First(leaf) == First(Sub(t, path.pos))
            && |leaf.exts| <= LeafCap(g, d == 0)
            && forall b :: Uses(t1, b) == Uses(t, b)
  {
    var pos, exts := path.pos, Sub(t, path.pos).exts;
    var leaf := Leaf(exts[i := Merged(exts[i], e)]);
    LeafEdit(g, t, d, pos, leaf);
    SubFlat(t, pos);
    AppendLeaf(pendingIo, Before(t, pos), exts, After(t, pos), i, e);
  }

  lemma PrependEdit(g: Geometry, t: Tree, d: nat, path: Path, e: Extent, pendingIo: bool, i: nat)
    requires WellFormed(g, t, d) && PathFor(t, path, e.block) && |path.pos| == d && path.ext.Some?
    requires ValidExtent(e) && Apart(Flat(t), e)
    requires i < |Sub(t, path.pos).exts|
    requires CanMerge(pendingIo, e, Sub(t, path.pos).exts[i])
    ensures var exts := Sub(t, path.pos).exts;
            var leaf := Leaf(exts[i := Merged(e, exts[i])]);
            var t1 := Put(t, path.pos, leaf);
            && Edited(g, t, d, path.pos, t1) && Sub(t1, path.pos) == leaf && Sorted(Flat(t1))
            && MapsPlus(Flat(t), e, Flat(t1)) && |Flat(t1)| == |Flat(t)|
            && (path.ext.value > 0 ==> First(leaf) == First(Sub(t, path.pos)))
            && |leaf.exts| <= LeafCap(g, d == 0)
            && forall b :: Uses(t1, b) == Uses(t, b)
  {
    var pos, exts := path.pos, Sub(t, path.pos).exts;
    var leaf := Leaf(exts[i := Merged(e, exts[i])]);
    LeafEdit(g, t, d, pos, leaf);
    SubFlat(t, pos);
    PrependLeaf(pendingIo, Before(t, pos), exts, After(t, pos), i, e);
    if path.ext.value > 0 {
      SubSorted(t, pos);
      assert ValidExtent(exts[0]);
      assert exts[0].block < exts[path.ext.value].block <= e.block;
    }
  }

  /** Rewriting a leaf by one of the same size. */
  lemma LeafEdit(g: Geometry, t: Tree, d: nat, pos: seq<nat>, leaf: Tree)
    requires Fits(g, t, d, true) && Reaches(t, pos) && |pos| == d && Sub(t, pos).Leaf?
    requires leaf.Leaf? && 0 < |leaf.exts| <= |Sub(t, pos).exts|
    ensures Edited(g, t, d, pos, Put(t, pos, leaf)) && Sub(Put(t, pos, leaf), pos) == leaf
    ensures Flat(Put(t, pos, leaf)) == Before(t, pos) + leaf.exts + After(t, pos)
    ensures |leaf.exts| <= LeafCap(g, d == 0)
    ensures forall b :: Uses(Put(t, pos, leaf), b) == Uses(t, b)
  {
    PutParts(t, pos, leaf);
    FitsSub(g, t, d, true, pos);
    forall b ensures Uses(Put(t, pos, leaf), b) == Uses(t, b) { SubUses(t, pos, b); }
  }

  lemma OneKid(root: Tree, pos: seq<nat>)
    requires root.Node? && |root.kids| == 1 && |pos| == 1 && Reaches(root, pos)
    ensures root.kids[0].sub == Sub(root, pos) && Flat(root) == Flat(root.kids[0].sub)
    ensures forall b :: Uses(root, b) == Uses(root.kids[0].sub, b) + if root.kids[0].blk == b then 1 else 0
  {
    assert pos[1..] == [] && root.kids == [root.kids[0]];
    FlatKidsOne(root.kids[0]);
  }

  /** root is tree t with the leaf at pos rewritten; keys are still those of t. */
  ghost predicate Edited(g: Geometry, t: Tree, d: nat, pos: seq<nat>, root: Tree) {
    && Fits(g, t, d, true) && Reaches(t, pos) && |pos| == d
    && Reaches(root, pos) && Sub(root, pos).Leaf? && Sub(root, pos).exts != []
    && root == Put(t, pos, Sub(root, pos))
  }

  /** A tree of one leaf that would fit into the inode. */
  ghost predicate Collapsible(g: Geometry, root: Tree, d: nat) {
    d == 1 && root.Node? && |root.kids| == 1 && |Flat(root)| <= g.rootLeaf
  }

  ghost predicate WellShapedLeaf(g: Geometry, n: Tree) {
    n.Leaf? && |n.exts| <= g.rootLeaf
  }

  lemma EditAgain(g: Geometry, t: Tree, d: nat, pos: seq<nat>, root: Tree, leaf: Tree)
    requires Edited(g, t, d, pos, root) && leaf.Leaf? && Sorted(Flat(root))
    requires Recut(Sub(root, pos).exts, leaf.exts)
    ensures Edited(g, t, d, pos, Put(root, pos, leaf))
    ensures Sub(Put(root, pos, leaf), pos) == leaf
    ensures Recut(Flat(root), Flat(Put(root, pos, leaf)))
    ensures forall b :: Uses(Put(root, pos, leaf), b) == Uses(root, b)
  {
    PutPut(t, pos, Sub(root, pos), leaf);
    PutParts(root, pos, leaf);
    SubFlat(root, pos);
    RecutMiddle(Before(root, pos), Sub(root, pos).exts, leaf.exts, After(root, pos));
    forall b ensures Uses(Put(root, pos, leaf), b) == Uses(root, b) {
      SubUses(root, pos, b);
    }
  }

  /** The leaf at pos was cut differently. */
  ghost predicate Remade(g: Geometry, t: Tree, d: nat, pos: seq<nat>, root: Tree, root': Tree) {
    && Edited(g, t, d, pos, root) && Edited(g, t, d, pos, root') && Recut(Flat(root), Flat(root'))
    && |Sub(root', pos).exts| <= |Sub(root, pos).exts|
    && |Flat(root')| + |Sub(root, pos).exts| == |Flat(root)| + |Sub(root', pos).exts| &&
         First(Sub(root', pos)) == First(Sub(root, pos))
    && forall b :: Uses(root', b) == Uses(root, b)
  }

  /** The entry q of the leaf was merged with its neighbours, if it can be. */
  ghost predicate LeafMerged(pendingIo: bool, g: Geometry, t: Tree, d: nat, pos: seq<nat>, q: nat, root: Tree,
                             root': Tree) {
    && Remade(g, t, d, pos, root, root') && q < |Sub(root, pos).exts|
    && (|Flat(root')| < |Flat(root)| <==> Mergeable(pendingIo, Sub(root, pos).exts, q))
    && (|Flat(root')| == |Flat(root)| ==> root' == root)
  }

  lemma MergedIn(pendingIo: bool, g: Geometry, t: Tree, d: nat, pos: seq<nat>, q: nat, root: Tree, exts: seq<Extent>)
    requires Edited(g, t, d, pos, root) && Sorted(Flat(root)) && q < |Sub(root, pos).exts|
    requires Recut(Sub(root, pos).exts, exts) && |exts| <= |Sub(root, pos).exts|
    requires |exts| < |Sub(root, pos).exts| <==> Mergeable(pendingIo, Sub(root, pos).exts, q)
    requires |exts| == |Sub(root, pos).exts| ==> exts == Sub(root, pos).exts
    ensures LeafMerged(pendingIo, g, t, d, pos, q, root, Put(root, pos, Leaf(exts)))
  {
    RemadeBy(g, t, d, pos, root, exts);
    PutReaches(root, pos, Leaf(exts));
    if exts == Sub(root, pos).exts { PutSame(root, pos); }
  }

  lemma RemadeBy(g: Geometry, t: Tree, d: nat, pos: seq<nat>, root: Tree, exts: seq<Extent>)
    requires Edited(g, t, d, pos, root) && Sorted(Flat(root))
    requires Recut(Sub(root, pos).exts, exts) && |exts| <= |Sub(root, pos).exts|
    ensures Remade(g, t, d, pos, root, Put(root, pos, Leaf(exts)))
  {
    var root' := Put(root, pos, Leaf(exts));
    assert |Flat(root')| == |Before(root, pos)| + |exts| + |After(root, pos)| by { PutParts(root, pos, Leaf(exts)); }
    assert |Flat(root)| == |Before(root, pos)| + |Sub(root, pos).exts| + |After(root, pos)| by { SubFlat(root, pos); }
    EditAgain(g, t, d, pos, root, Leaf(exts));
  }

  /** After correction, or when the first block is unchanged, the edited tree fits. */
  lemma EditedFits(g: Geometry, t: Tree, d: nat, path: Path, root: Tree)
    requires Edited(g, t, d, path.pos, root) && path.ext.Some?
    requires |Sub(root, path.pos).exts| <= LeafCap(g, d == 0)
    requires path.ext.value > 0 ==> First(Sub(root, path.pos)) == First(Sub(t, path.pos))
    ensures var leaf := Sub(root, path.pos);
            && Fits(g, PutKeyed(t, path.pos, leaf), d, true)
            && Flat(PutKeyed(t, path.pos, leaf)) == Flat(root)
            && (forall b :: Uses(PutKeyed(t, path.pos, leaf), b) == Uses(root, b))
    ensures path.ext.value > 0 ==> Fits(g, root, d, true)
  {
    var leaf := Sub(root, path.pos);
    PutKeyedFits(g, t, d, true, path.pos, leaf);
    PutKeyedParts(t, path.pos, leaf);
    if path.ext.value > 0 {
      PutFits(g, t, d, true, path.pos, leaf);
    }
  }

  // ---------------------------------------------------------- room for one more

  /** The leaf at the end of the path can take e. It is empty only when it was
      just added for e, in which case the tree is well-formed once e is there. */
  ghost predicate Roomy(g: Geometry, t: Tree, d: nat, path: Path, e: Extent, f: seq<Extent>) {
    && PathFor(t, path, e.block) && |path.pos| == d
    && |Sub(t, path.pos).exts| < LeafCap(g, d == 0)
    && match path.ext
       case Some(_) => WellFormed(g, t, d) && Flat(t) == f
       case None => WellFormed(g, Put(t, path.pos, Leaf([e])), d) && f == Before(t, path.pos) + After(t, path.pos)
  }

  /** leaf is what a split leaves of exts in place, unless the path's entry is the last. */
  ghost predicate FirstHalf(exts: seq<Extent>, p: nat, leaf: seq<Extent>) {
    p + 1 < |exts| ==> leaf == exts[..p+1]
  }

  /** After growing, the same leaf is found one level further down. */
  lemma GrownPath(t: Tree, path: Path, t': Tree, npath: Path, b: nat)
    requires PathFor(t, path, b) && path.ext.Some? && t'.Node? && |t'.kids| == 1 && t'.kids[0].sub == t
    requires PathFor(t', npath, b) && |npath.pos| == |path.pos| + 1
    ensures npath.pos == [0] + path.pos && Sub(t', npath.pos) == Sub(t, path.pos) && npath.ext == path.ext
  {
    var q := [0] + path.pos;
    assert q[0] == 0 && q[1..] == path.pos;
    assert ClosestKid(t'.kids, b, 0);
    FollowsUnique(t', q, npath.pos, b);
    ClosestUnique(Sub(t, path.pos).exts, b, path.ext.value, npath.ext.value);
  }

  lemma ClosestUnique(exts: seq<Extent>, b: nat, i: nat, j: nat)
    requires ClosestExt(exts, b, i) && ClosestExt(exts, b, j)
    ensures i == j
  {
    var x, y := exts[i], exts[j];
  }

  lemma SubNonEmpty(t: Tree, pos: seq<nat>)
    requires Reaches(t, pos) && Flat(Sub(t, pos)) != []
    ensures Flat(t) != []
  {
    SubFlat(t, pos);
  }

  lemma LeafCapacity(g: Geometry, t: Tree, d: nat, pos: seq<nat>)
    requires WellFormed(g, t, d) && Reaches(t, pos) && |pos| == d && d > 0
    ensures Sub(t, pos).Leaf? && 0 < |Sub(t, pos).exts| <= g.blockLeaf
  {
    FitsSub(g, t, d, true, pos);
  }

  /** Both halves of the split tree with a given content of the new leaf. */
  lemma SplitTreeLeaf(t: Tree, pos: seq<nat>, at: nat, border: nat, ab: seq<nat>, left: seq<Extent>, a: seq<Extent>,
                      c: seq<Extent>)
    requires Reaches(t, pos) && at < |pos| && |ab| == |pos| - at
    requires Reaches(t, pos[..at]) && Sub(t, pos[..at]).Node? && pos[at] < |Sub(t, pos[..at]).kids|
    requires Reaches(Sub(t, pos[..at]).kids[pos[at]].sub, pos[at+1..])
    ensures Reaches(SplitTree(t, pos, at, border, ab, left, a), NewLeafPos(pos, at))
    ensures SplitTree(t, pos, at, border, ab, left, c) ==
            Put(SplitTree(t, pos, at, border, ab, left, a), NewLeafPos(pos, at), Leaf(c))
  {
    var n := Sub(t, pos[..at]);
    var i, rest, z := pos[at], pos[at+1..], Zeros(|pos| - at - 1);
    var x := n.kids[i].sub;
    var l := SplitL(x, rest, left);
    var ra, rc := SplitR(x, rest, border, ab[1..], a), SplitR(x, rest, border, ab[1..], c);
    var ha, hc := Node(Hook(n.kids, i, l, border, ab[0], ra)), Node(Hook(n.kids, i, l, border, ab[0], rc));
    SplitRLeaf(x, rest, border, ab[1..], a, c);
    assert ([i + 1] + z)[1..] == z;
    assert Put(ha, [i + 1] + z, Leaf(c)).kids == hc.kids;
    PutSides(t, pos[..at], ha, [i + 1] + z);
    PutReaches(t, pos[..at], ha);
    PutConcat(Put(t, pos[..at], ha), pos[..at], [i + 1] + z, Leaf(c));
    PutPut(t, pos[..at], ha, hc);
  }

  /** The contents the split would have with the new extent already in its place. */
  ghost function Filled(right: seq<Extent>, e: Extent): seq<Extent> {
    if right == [] then [e] else right
  }

  lemma SplitFilled(g: Geometry, t: Tree, d: nat, path: Path, e: Extent, at: nat, ab: seq<nat>)
    requires ValidGeometry(g) && WellFormed(g, t, d) && PathFor(t, path, e.block) && |path.pos| == d && path.ext.Some?
    requires |Sub(t, path.pos).exts| == g.blockLeaf
    requires ValidExtent(e) && Apart(Flat(t), e)
    requires at < d && |ab| == d - at && Reaches(t, path.pos[..at]) && Sub(t, path.pos[..at]).Node?
    requires path.pos[at] < |Sub(t, path.pos[..at]).kids| < IdxCap(g, at == 0)
    requires Reaches(Sub(t, path.pos[..at]).kids[path.pos[at]].sub, path.pos[at+1..])
    ensures var exts, p := Sub(t, path.pos).exts, path.ext.value;
            WellFormed(g, SplitTree(t, path.pos, at, Border(exts, p, e), ab, exts[..p+1], Filled(exts[p+1..], e)), d)
  {
    var pos, p := path.pos, path.ext.value;
    var exts := Sub(t, pos).exts;
    var left, right, border := exts[..p+1], Filled(exts[p+1..], e), Border(exts, p, e);
    SplitTreeFits(g, t, d, pos, at, border, ab, left, right);
    SplitTreeFlat(t, pos, at, border, ab, left, right);
    SubFlat(t, pos);
    if p + 1 == |exts| { Bracket(g, t, d, true, pos, e.block); }
    FilledSorted(Before(t, pos), exts, After(t, pos), p, e);
  }

  lemma FilledSorted(bf: seq<Extent>, exts: seq<Extent>, af: seq<Extent>, p: nat, e: Extent)
    requires Sorted(bf + exts + af) && ValidExtent(e) && Apart(bf + exts + af, e) && p < |exts|
    requires p + 1 == |exts| ==> exts[p].block <= e.block && (af != [] ==> e.block < af[0].block)
    ensures Sorted(bf + (exts[..p+1] + Filled(exts[p+1..], e)) + af)
  {
    if p + 1 < |exts| {
      assert exts[..p+1] + exts[p+1..] == exts;
    } else {
      assert exts[..p+1] == exts;
      PlaceAfterLeaf(bf, exts, af, e);
    }
  }

  lemma PlaceAfterLeaf(bf: seq<Extent>, exts: seq<Extent>, af: seq<Extent>, e: Extent)
    requires Sorted(bf + exts + af) && ValidExtent(e) && Apart(bf + exts + af, e)
    requires exts != [] && exts[|exts|-1].block <= e.block
    requires af != [] ==> e.block < af[0].block
    ensures Sorted(bf + (exts + [e]) + af)
  {
    assert (bf + exts)[|bf + exts| - 1] == exts[|exts|-1];
    PlaceSorted(bf + exts, af, e);
    assert bf + exts + [e] + af == bf + (exts + [e]) + af;
  }

  lemma SplitSearchable(g: Geometry, t: Tree, d: nat, path: Path, e: Extent, at: nat, ab: seq<nat>)
    requires ValidGeometry(g) && WellFormed(g, t, d) && PathFor(t, path, e.block) && |path.pos| == d && path.ext.Some?
    requires |Sub(t, path.pos).exts| == g.blockLeaf
    requires ValidExtent(e) && Apart(Flat(t), e)
    requires at < d && |ab| == d - at && Reaches(t, path.pos[..at]) && Sub(t, path.pos[..at]).Node?
    requires path.pos[at] < |Sub(t, path.pos[..at]).kids| < IdxCap(g, at == 0)
    requires Reaches(Sub(t, path.pos[..at]).kids[path.pos[at]].sub, path.pos[at+1..])
    ensures var exts, p := Sub(t, path.pos).exts, path.ext.value;
            Searchable(SplitTree(t, path.pos, at, Border(exts, p, e), ab, exts[..p+1], exts[p+1..]), d)
  {
    var pos, p := path.pos, path.ext.value;
    var exts := Sub(t, pos).exts;
    var left, right, border := exts[..p+1], exts[p+1..], Border(exts, p, e);
    SplitFilled(g, t, d, path, e, at, ab);
    var full := SplitTree(t, pos, at, border, ab, left, Filled(right, e));
    FitsSearchable(g, full, d, true);
    if right == [] {
      SplitTreeLeaf(t, pos, at, border, ab, left, [e], []);
      SplitTreeNewLeaf(t, pos, at, border, ab, left, [e]);
      SearchablePut(full, d, NewLeafPos(pos, at), Leaf([]));
    }
  }

  /** The descent after the split lands in a leaf with room: the old one if it
      was cut, the new empty one otherwise. */
  lemma SplitRoomy(g: Geometry, t: Tree, d: nat, path: Path, e: Extent, at: nat, ab: seq<nat>, npath: Path)
    requires ValidGeometry(g) && WellFormed(g, t, d) && PathFor(t, path, e.block) && |path.pos| == d && path.ext.Some?
    requires |Sub(t, path.pos).exts| == g.blockLeaf
    requires ValidExtent(e) && Apart(Flat(t), e)
    requires at < d && |ab| == d - at && Reaches(t, path.pos[..at]) && Sub(t, path.pos[..at]).Node?
    requires path.pos[at] < |Sub(t, path.pos[..at]).kids| < IdxCap(g, at == 0)
    requires Reaches(Sub(t, path.pos[..at]).kids[path.pos[at]].sub, path.pos[at+1..])
    requires var exts, p := Sub(t, path.pos).exts, path.ext.value;
             PathFor(SplitTree(t, path.pos, at, Border(exts, p, e), ab, exts[..p+1], exts[p+1..]), npath, e.block)
    requires |npath.pos| == d
    ensures var exts, p := Sub(t, path.pos).exts, path.ext.value;
            var t' := SplitTree(t, path.pos, at, Border(exts, p, e), ab, exts[..p+1], exts[p+1..]);
            Roomy(g, t', d, npath, e, Flat(t)) && (p + 1 < |exts| ==> Sub(t', npath.pos) == Leaf(exts[..p+1]))
  {
    var exts, p := Sub(t, path.pos).exts, path.ext.value;
    SplitFilled(g, t, d, path, e, at, ab);
    if p + 1 < |exts| {
      SplitRoomyOld(g, t, d, path, e, at, ab, npath);
    } else {
      assert exts[p+1..] == [] && exts[..p+1] == exts;
      SplitRoomyNew(g, t, d, path, e, at, ab, npath);
    }
  }

  lemma SplitRoomyOld(g: Geometry, t: Tree, d: nat, path: Path, e: Extent, at: nat, ab: seq<nat>, npath: Path)
    requires WellFormed(g, t, d) && PathFor(t, path, e.block) && |path.pos| == d && path.ext.Some?
    requires |Sub(t, path.pos).exts| == g.blockLeaf && path.ext.value + 1 < g.blockLeaf
    requires at < d && |ab| == d - at && Reaches(t, path.pos[..at]) && Sub(t, path.pos[..at]).Node?
    requires path.pos[at] < |Sub(t, path.pos[..at]).kids|
    requires Reaches(Sub(t, path.pos[..at]).kids[path.pos[at]].sub, path.pos[at+1..])
    requires var exts, p := Sub(t, path.pos).exts, path.ext.value;
             var t' := SplitTree(t, path.pos, at, Border(exts, p, e), ab, exts[..p+1], exts[p+1..]);
             WellFormed(g, t', d) && PathFor(t', npath, e.block)
    requires |npath.pos| == d
    ensures var exts, p := Sub(t, path.pos).exts, path.ext.value;
            var t' := SplitTree(t, path.pos, at, Border(exts, p, e), ab, exts[..p+1], exts[p+1..]);
            Roomy(g, t', d, npath, e, Flat(t)) && Sub(t', npath.pos) == Leaf(exts[..p+1])
  {
    var pos, p := path.pos, path.ext.value;
    var exts := Sub(t, pos).exts;
    var left, right, border := exts[..p+1], exts[p+1..], Border(exts, p, e);
    var t' := SplitTree(t, pos, at, border, ab, left, right);
    SplitTreeOldLeaf(t, pos, at, border, ab, left, right);
    assert Flat(t') == Flat(t) by {
      SplitTreeFlat(t, pos, at, border, ab, left, right);
      SubFlat(t, pos);
      assert left + right == exts;
    }
    Bracket(g, t, d, true, pos, e.block);
    BracketFollows(g, t', d, true, pos, e.block);
    FollowsUnique(t', pos, npath.pos, e.block);
  }

  lemma SplitRoomyNew(g: Geometry, t: Tree, d: nat, path: Path, e: Extent, at: nat, ab: seq<nat>, npath: Path)
    requires ValidGeometry(g) && WellFormed(g, t, d) && PathFor(t, path, e.block) && |path.pos| == d && path.ext.Some?
    requires at < d && |ab| == d - at && Reaches(t, path.pos[..at]) && Sub(t, path.pos[..at]).Node?
    requires path.pos[at] < |Sub(t, path.pos[..at]).kids|
    requires Reaches(Sub(t, path.pos[..at]).kids[path.pos[at]].sub, path.pos[at+1..])
    requires WellFormed(g, SplitTree(t, path.pos, at, e.block, ab, Sub(t, path.pos).exts, [e]), d)
    requires PathFor(SplitTree(t, path.pos, at, e.block, ab, Sub(t, path.pos).exts, []), npath, e.block)
    requires |npath.pos| == d
    ensures Roomy(g, SplitTree(t, path.pos, at, e.block, ab, Sub(t, path.pos).exts, []), d, npath, e, Flat(t))
  {
    var pos, q := path.pos, NewLeafPos(path.pos, at);
    var exts := Sub(t, pos).exts;
    var full, t' := SplitTree(t, pos, at, e.block, ab, exts, [e]), SplitTree(t, pos, at, e.block, ab, exts, []);
    SplitTreeLeaf(t, pos, at, e.block, ab, exts, [e], []);
    SplitTreeNewLeaf(t, pos, at, e.block, ab, exts, [e]);
    SplitTreeNewLeaf(t, pos, at, e.block, ab, exts, []);
    Bracket(g, t, d, true, pos, e.block);
    BracketFollows(g, full, d, true, q, e.block);
    FollowsPut(full, q, Leaf([]), e.block);
    FollowsUnique(t', q, npath.pos, e.block);
    PutPut(full, q, Leaf([]), Leaf([e]));
    PutSame(full, q);
    SubFlat(t, pos);
  }

  // ------------------------------------------------------------ split lemmas

  /** First block of the right half: the extent after the path, or the new one. */
  function Border(exts: seq<Extent>, p: nat, newext: Extent): nat {
    if p + 1 < |exts| then exts[p+1].block else newext.block
  }

  /** The border lies after the first block of every node on the path. */
  lemma BorderAbove(g: Geometry, t: Tree, d: nat, path: Path, newext: Extent, at: nat)
    requires ValidGeometry(g) && WellFormed(g, t, d) && PathFor(t, path, newext.block) && |path.pos| == d &&
               path.ext.Some?
    requires |Sub(t, path.pos).exts| == g.blockLeaf && at < d
    requires ValidExtent(newext) && Apart(Flat(t), newext)
    requires Reaches(t, path.pos[..at]) && Sub(t, path.pos[..at]).Node? && path.pos[at] < |Sub(t, path.pos[..at]).kids|
    ensures Sub(t, path.pos[..at]).kids[path.pos[at]].key < Border(Sub(t, path.pos).exts, path.ext.value, newext)
  {
    var pos, p := path.pos, path.ext.value;
    var exts := Sub(t, pos).exts;
    var n := Sub(t, pos[..at]);
    FitsSub(g, t, d, true, pos[..at]);
    assert KidFits(g, n.kids[pos[at]], d - at - 1);
    PathStep(t, pos, at);
    PathPrefix(t, pos, at + 1);
    SubSorted(t, pos[..at+1]);
    FirstBelow(g, n.kids[pos[at]].sub, d - at - 1, pos[at+1..]);
    SubSorted(t, pos);
    if p + 1 < |exts| {
      assert ValidExtent(exts[0]);
    } else {
      SubFlat(t, pos);
      assert Flat(t)[|Before(t, pos)| + p] == exts[p];
      assert ValidExtent(exts[p]) && ValidExtent(exts[0]);
    }
  }

  lemma SubSorted(t: Tree, pos: seq<nat>)
    requires Sorted(Flat(t)) && Reaches(t, pos)
    ensures Sorted(Flat(Sub(t, pos)))
  {
    SubFlat(t, pos);
    SortedParts(Before(t, pos) + Flat(Sub(t, pos)), After(t, pos));
    SortedParts(Before(t, pos), Flat(Sub(t, pos)));
  }

  lemma PutOne(c: Tree, k: nat, l: Tree)
    requires c.Node? && k < |c.kids|
    ensures Reaches(c, [k])
    ensures Put(c, [k], l) == Node(c.kids[k := c.kids[k].(sub := l)])
  {
    assert [k][1..] == [];
    assert Put(c.kids[k].sub, [k][1..], l) == l;
  }

  /** One round of the split loop: level i is done, level j above it follows. */
  lemma SplitStep(t: Tree, pos: seq<nat>, j: nat, i: nat, at: nat, border: nat, ab: seq<nat>,
                  left: seq<Extent>, right: seq<Extent>, cur: Tree, r: Tree)
    requires Reaches(t, pos) && at < j < |pos| && i == j + 1 && |ab| == |pos| - at
    requires Reaches(t, pos[..i]) && Reaches(Sub(t, pos[..i]), pos[i..])
    requires cur == Put(t, pos[..i], SplitL(Sub(t, pos[..i]), pos[i..], left))
    requires r == SplitR(Sub(t, pos[..i]), pos[i..], border, ab[i-at..], right)
    ensures Reaches(t, pos[..j]) && Reaches(Sub(t, pos[..j]), pos[j..])
    ensures && Reaches(cur, pos[..j]) && Sub(cur, pos[..j]).Node? && pos[j] < |Sub(cur, pos[..j]).kids|
            && var node := Sub(cur, pos[..j]);
               && Put(cur, pos[..j], Node(node.kids[..pos[j]+1])) ==
                    Put(t, pos[..j], SplitL(Sub(t, pos[..j]), pos[j..], left))
               && Node([Kid(border, ab[j-at], r)] + node.kids[pos[j]+1..]) ==
                    SplitR(Sub(t, pos[..j]), pos[j..], border, ab[j-at..], right)
  {
    PathPrefix(t, pos, j);
    PathStep(t, pos, j);
    var c, k := Sub(t, pos[..j]), pos[j];
    var l := SplitL(Sub(t, pos[..i]), pos[i..], left);
    var node := Put(c, [k], l);
    PutOne(c, k, l);
    assert node.kids[..k] == c.kids[..k] && node.kids[k+1..] == c.kids[k+1..];
    assert node.kids[..k+1] == c.kids[..k] + [c.kids[k].(sub := l)];
    PutReaches(t, pos[..j], node);
    PutPut(t, pos[..j], node, Node(node.kids[..k+1]));
    assert pos[j..][0] == k && pos[j..][1..] == pos[i..];
    assert ab[j-at..][0] == ab[j-at] && ab[j-at..][1..] == ab[i-at..];
  }

  /** After the loop: the node with the free entry receives the new index. */
  lemma SplitLast(t: Tree, pos: seq<nat>, at: nat, border: nat, ab: seq<nat>, left: seq<Extent>, right: seq<Extent>)
    requires Reaches(t, pos) && at < |pos| && |ab| == |pos| - at
    requires Reaches(t, pos[..at]) && Sub(t, pos[..at]).Node? && pos[at] < |Sub(t, pos[..at]).kids|
    requires Reaches(Sub(t, pos[..at]).kids[pos[at]].sub, pos[at+1..])
    requires Reaches(t, pos[..at+1]) && Reaches(Sub(t, pos[..at+1]), pos[at+1..])
    requires Sub(t, pos[..at]).kids[pos[at]].key < border
    ensures var l := SplitL(Sub(t, pos[..at+1]), pos[at+1..], left);
            var r := SplitR(Sub(t, pos[..at+1]), pos[at+1..], border, ab[1..], right);
            var cur := Put(t, pos[..at+1], l);
            && Reaches(cur, pos[..at]) && Sub(cur, pos[..at]).Node? && pos[at] < |Sub(cur, pos[..at]).kids|
            && var node := Sub(cur, pos[..at]);
               && node.kids[pos[at]].key < border
               && Put(cur, pos[..at], Node(node.kids[..pos[at]+1] + [Kid(border, ab[0], r)] + node.kids[pos[at]+1..]))
                  == SplitTree(t, pos, at, border, ab, left, right)
  {
    PathStep(t, pos, at);
    var c, k := Sub(t, pos[..at]), pos[at];
    var l := SplitL(Sub(t, pos[..at+1]), pos[at+1..], left);
    var r := SplitR(Sub(t, pos[..at+1]), pos[at+1..], border, ab[1..], right);
    var node := Put(c, [k], l);
    PutOne(c, k, l);
    var h := node.kids[..k+1] + [Kid(border, ab[0], r)] + node.kids[k+1..];
    assert h == Hook(c.kids, k, l, border, ab[0], r);
    PutReaches(t, pos[..at], node);
    PutPut(t, pos[..at], node, Node(h));
  }

  lemma GrowFits(g: Geometry, t: Tree, d: nat, blk: nat, key: nat)
    requires ValidGeometry(g) && WellFormed(g, t, d) && Flat(t) != []
    requires t.Leaf? ==> key == t.exts[0].block
    requires t.Node? ==> key == t.kids[0].key
    ensures WellFormed(g, Node([Kid(key, blk, t)]), d + 1)
    ensures Flat(Node([Kid(key, blk, t)])) == Flat(t)
    ensures forall b :: Uses(Node([Kid(key, blk, t)]), b) == Uses(t, b) + if blk == b then 1 else 0
  {
    var k := Kid(key, blk, t);
    if t.Node? {
      FirstKid(g, t.kids, d - 1);
      assert t == Node(t.kids);
    } else {
      assert Flat(t) == t.exts;
    }
    assert key == First(t);
    assert KidFits(g, k, d);
    FlatKidsOne(k);
  }

  // ------------------------------------------------------- index correction

  lemma {:induction false} PutKeyedConcat(t: Tree, p: seq<nat>, q: seq<nat>, s: Tree)
    requires Reaches(t, p) && Reaches(Sub(t, p), q) && Reaches(t, p + q)
    ensures PutKeyed(t, p + q, s) == PutKeyed(t, p, PutKeyed(Sub(t, p), q, s))
    decreases |p|
  {
    if p == [] {
      assert p + q == q;
    } else {
      assert (p + q)[0] == p[0] && (p + q)[1..] == p[1..] + q;
      PutKeyedConcat(t.kids[p[0]].sub, p[1..], q, s);
    }
  }

  /** Keys above a node whose first block did not change need no correction. */
  lemma {:induction false} PutKeyedSame(g: Geometry, t: Tree, d: nat, top: bool, p: seq<nat>, s: Tree)
    requires Fits(g, t, d, top) && Reaches(t, p)
    requires p != [] ==> Flat(s) != [] && First(s) == First(Sub(t, p))
    ensures PutKeyed(t, p, s) == Put(t, p, s)
    ensures p != [] ==> Flat(Put(t, p, s)) != [] && First(Put(t, p, s)) == First(t)
    decreases |p|
  {
    if p != [] {
      var i, k := p[0], t.kids[p[0]];
      assert KidFits(g, k, d - 1);
      PutKeyedSame(g, k.sub, d - 1, false, p[1..], s);
      var s' := Put(k.sub, p[1..], s);
      var kids := t.kids[i := k.(sub := s')];
      FirstKid(g, t.kids, d - 1);
      assert Flat(t) == FlatKid(t.kids[0]) + FlatKids(t.kids[1..]);
      assert FlatKids(kids) == FlatKid(kids[0]) + FlatKids(kids[1..]);
    }
  }

  /** Setting the key one level up. */
  lemma CorrectStep(t: Tree, pos: seq<nat>, k: nat, leaf: Tree, cur: Tree, border: nat)
    requires Reaches(t, pos) && k < |pos|
    requires Reaches(t, pos[..k+1]) && Reaches(Sub(t, pos[..k+1]), pos[k+1..])
    requires cur == Put(t, pos[..k+1], PutKeyed(Sub(t, pos[..k+1]), pos[k+1..], leaf))
    requires Flat(PutKeyed(Sub(t, pos[..k+1]), pos[k+1..], leaf)) != []
    requires First(PutKeyed(Sub(t, pos[..k+1]), pos[k+1..], leaf)) == border
    ensures Reaches(t, pos[..k]) && Reaches(Sub(t, pos[..k]), pos[k..])
    ensures Reaches(cur, pos[..k]) && Sub(cur, pos[..k]).Node? && pos[k] < |Sub(cur, pos[..k]).kids|
    ensures var node := Sub(cur, pos[..k]);
            Put(cur, pos[..k], Node(node.kids[pos[k] := node.kids[pos[k]].(key := border)])) ==
            Put(t, pos[..k], PutKeyed(Sub(t, pos[..k]), pos[k..], leaf))
    ensures pos[k] == 0 ==>
              Flat(PutKeyed(Sub(t, pos[..k]), pos[k..], leaf)) != [] &&
              First(PutKeyed(Sub(t, pos[..k]), pos[k..], leaf)) == border
  {
    PathPrefix(t, pos, k);
    PathStep(t, pos, k);
    var c, i := Sub(t, pos[..k]), pos[k];
    var s := PutKeyed(Sub(t, pos[..k+1]), pos[k+1..], leaf);
    var node := Put(c, [i], s);
    PutOne(c, i, s);
    PutReaches(t, pos[..k], node);
    var kids := node.kids[i := node.kids[i].(key := border)];
    PutPut(t, pos[..k], node, Node(kids));
    assert pos[k..][0] == i && pos[k..][1..] == pos[k+1..];
    assert kids == c.kids[i := Kid(border, c.kids[i].blk, s)];
    assert FlatKids(kids) == FlatKid(kids[0]) + FlatKids(kids[1..]);
  }

  lemma CorrectDone(g: Geometry, t: Tree, d: nat, pos: seq<nat>, k: nat, leaf: Tree)
    requires Fits(g, t, d, true) && Reaches(t, pos) && k <= |pos| <= d
    requires Reaches(t, pos[..k]) && Reaches(Sub(t, pos[..k]), pos[k..])
    requires k > 0 ==> k < |pos| && 0 < pos[k]
    ensures Put(t, pos[..k], PutKeyed(Sub(t, pos[..k]), pos[k..], leaf)) == PutKeyed(t, pos, leaf)
  {
    assert pos == pos[..k] + pos[k..];
    PutKeyedConcat(t, pos[..k], pos[k..], leaf);
    if k > 0 {
      var c := Sub(t, pos[..k]);
      var s := PutKeyed(c, pos[k..], leaf);
      FitsSub(g, t, d, true, pos[..k]);
      assert pos[k..][0] == pos[k];
      assert s.kids[0] == c.kids[0];
      FirstKid(g, c.kids, d - k - 1);
      assert FlatKids(s.kids) == FlatKid(s.kids[0]) + FlatKids(s.kids[1..]);
      assert FlatKids(c.kids) == FlatKid(c.kids[0]) + FlatKids(c.kids[1..]);
      PutKeyedSame(g, t, d, true, pos[..k], s);
    }
  }
}
