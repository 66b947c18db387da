/**
  What the extent code does not keep (ext4/extents.c): the number that ext4_ext_convert_to_initialized
  returns, the blocks in front of its request when there is no space, and a merge that
  ext4_ext_insert_extent leaves out.
 */
module ExtentWitness {
  import opened Wrappers
  import opened Extents
  import opened ExtentMerge
  import opened ExtentTree
  import opened ExtentSearch
  import opened ExtentPlace
  import opened ExtentInsert
  import opened ExtentModify
  import opened ExtentConvert

  /** An inode with one unwritten extent of ten blocks and space for any insertion. */
  method TenUnwritten() returns (ino: Inode)
    ensures fresh(ino) && ino.Valid() && Flat(ino.root) == [Make(0, 10, 100, true)] && ino.depth <= 1 && |ino.pool| >= 7
  {
    ino := new Inode(Geometry(4, 4, 340, 340), [201, 202, 203, 204, 205, 206, 207, 208, 209]);
    FitsSearchable(ino.g, ino.root, ino.depth, true);
    var path := FindExtent(ino.root, ino.depth, 0);
    var r := ino.InsertExtent(path, Make(0, 10, 100, true), true, false);
    assert Flat(ino.root) == [Make(0, 10, 100, true)] by { PlacedAlone(Make(0, 10, 100, true), Flat(ino.root)); }
  }

  lemma PlacedAlone(e: Extent, f: seq<Extent>)
    requires Placed([], e, f)
    ensures f == [e]
  {
  }

  /** The answer can be longer than what is written: of an unwritten extent of ten blocks three in the middle are
      converted without zeroing, and the answer is eight although not all of the eight turn written. */
  method AnswerTooLong()
    returns (got: nat, zeros: seq<Extent>, ghost lo: nat, ghost hi: nat, ghost f: seq<Extent>, ghost f': seq<Extent>)
    ensures f == [Make(0, 10, 100, true)] && ConvertsTo(f, f', lo, hi, 2, 3, zeros)
    ensures got == 8 && !AllWritten(f', 2, got)
  {
    var ino := TenUnwritten();
    f := Flat(ino.root);
    assert Covers(f[0], 2);
    var path := FindCovering(ino, 2, 0);
    AloneInLeaf(ino.root, path, f[0]);
    var r;
    ghost var fell;
    r, got, zeros, lo, hi, fell := ConvertToInitialized(ino, path, 2, 3, 10, 0, true, true, true, true, false, false);
    f' := Flat(ino.root);
  }

  lemma AloneInLeaf(t: Tree, path: Path, x: Extent)
    requires Reaches(t, path.pos) && Sub(t, path.pos).Leaf? && path.ext.Some? &&
               path.ext.value < |Sub(t, path.pos).exts| && Flat(t) == [x]
    ensures Sub(t, path.pos).exts == [x] && path.ext.value == 0
  {
    SubFlat(t, path.pos);
  }

  // ------------------------------------------------------------ a full leaf

  /** Without tree blocks the tree is a leaf in the inode. */
  lemma OnlyRoot(g: Geometry, t: Tree, d: nat)
    requires Fits(g, t, d, true) && forall b :: Uses(t, b) == 0
    ensures t.Leaf? && d == 0 && Flat(t) == t.exts && |t.exts| <= g.rootLeaf
  {
    if t.Node? {
      UsesKidsAt(t.kids, 0, t.kids[0].blk);
      assert Uses(t, t.kids[0].blk) >= 1;
    }
  }

  /** An inode that holds no tree block and gets none. */
  ghost predicate Bare(ino: Inode)
    reads ino
  {
    ino.Valid() && ino.g == Geometry(4, 4, 340, 340) && forall b :: ino.Held(b) == 0
  }

  lemma BareLeaf(ino: Inode)
    requires Bare(ino)
    ensures ino.root.Leaf? && ino.depth == 0 && Flat(ino.root) == ino.root.exts && |Flat(ino.root)| <= 4
  {
    forall b ensures Uses(ino.root, b) == 0 { assert ino.Held(b) == 0; }
    OnlyRoot(ino.g, ino.root, ino.depth);
  }

  method Append(ino: Inode, e: Extent)
    requires Bare(ino) && |Flat(ino.root)| < 4 && ValidExtent(e)
    requires forall i :: 0 <= i < |Flat(ino.root)| ==> End(Flat(ino.root)[i]) <= e.block
    modifies ino
    ensures Bare(ino) && Flat(ino.root) == old(Flat(ino.root)) + [e] && (old(ino.pool) == [] ==> ino.pool == [])
  {
    ghost var f := Flat(ino.root);
    BareLeaf(ino);
    FitsSearchable(ino.g, ino.root, ino.depth, true);
    var path := FindExtent(ino.root, ino.depth, e.block);
    assert Apart(f, e);
    var r := ino.InsertExtent(path, e, true, false);
    PlacedLast(f, e, Flat(ino.root));
  }

  lemma PlacedLast(f: seq<Extent>, e: Extent, f': seq<Extent>)
    requires Placed(f, e, f') && Sorted(f') && ValidExtent(e) && forall i :: 0 <= i < |f| ==> End(f[i]) <= e.block
    ensures f' == f + [e]
  {
    var i :| 0 <= i <= |f| && f' == f[..i] + [e] + f[i..];
    PlacedOrder(f, e, i);
  }

  /** Ten unwritten blocks, and three extents that fill the root. */
  ghost function FilledRoot(): seq<Extent> {
    [Make(0, 10, 100, true), Make(20, 1, 300, false), Make(30, 1, 400, false), Make(40, 1, 500, false)]
  }

  method FullInode() returns (ino: Inode)
    ensures fresh(ino) && Bare(ino) && Flat(ino.root) == FilledRoot()
  {
    ino := new Inode(Geometry(4, 4, 340, 340), []);
    Append(ino, Make(0, 10, 100, true));
    Append(ino, Make(20, 1, 300, false));
    Append(ino, Make(30, 1, 400, false));
    Append(ino, Make(40, 1, 500, false));
  }

  /** Extents that cover blocks with a block between them that is not mapped alike are in this order. */
  lemma Later(f: seq<Extent>, i: nat, j: nat, b: nat, m: nat, c: nat)
    requires Sorted(f) && i < |f| && j < |f| && Covers(f[i], b) && Covers(f[j], c) && b < m <= c
    requires At(f, b).Some? && (At(f, m) == None || At(f, m).value.unwritten != At(f, b).value.unwritten)
    ensures i < j
  {
    AtHit(f, i, b);
    if Covers(f[i], m) { AtHit(f, i, m); }
  }

  /** A root of four extents has no space for the blocks behind the request as an extent of their own. */
  lemma FiveExtents(f': seq<Extent>)
    requires Sorted(f') && At(f', 2).Some? && !At(f', 2).value.unwritten && At(f', 5).Some? && At(f', 5).value.unwritten
    requires At(f', 20).Some? && At(f', 30).Some? && At(f', 40).Some?
    requires At(f', 15) == None && At(f', 25) == None && At(f', 35) == None
    ensures |f'| >= 5
  {
    var a := AtSome(f', 2);
    var b := AtSome(f', 5);
    var c := AtSome(f', 20);
    var d := AtSome(f', 30);
    var e := AtSome(f', 40);
    Later(f', a, b, 2, 5, 5);
    Later(f', b, c, 5, 15, 20);
    Later(f', c, d, 20, 25, 30);
    Later(f', d, e, 30, 35, 40);
  }

  lemma FullMap(f: seq<Extent>, f': seq<Extent>, lo: nat)
    requires f == FilledRoot() && Sorted(f) && Sorted(f') && lo <= 2 && Restated(f, f', lo, 5, false)
    ensures |f'| >= 5
  {
    AtHit(f, 0, 2);
    AtHit(f, 0, 5);
    AtHit(f, 1, 20);
    AtHit(f, 2, 30);
    AtHit(f, 3, 40);
    AtNone(f, 15);
    AtNone(f, 25);
    AtNone(f, 35);
    FiveExtents(f');
  }

  /** Of ten unwritten blocks three in the middle are to be converted, in a file system without free blocks. All ten
      turn written; the first two are neither part of the request nor zeroed. */
  method StaleHead() returns (zeros: seq<Extent>, ghost f: seq<Extent>, ghost f': seq<Extent>)
    ensures f == FilledRoot() && Restated(f, f', 0, 10, false) && !NothingStale(f, f', 2, 5, zeros)
  {
    var ino := FullInode();
    f := Flat(ino.root);
    assert Covers(f[0], 2);
    var path := FindCovering(ino, 2, 0);
    BareLeaf(ino);
    var r, got;
    ghost var lo, hi, fell;
    r, got, zeros, lo, hi, fell := ConvertToInitialized(ino, path, 2, 3, 10, 0, true, true, true, true, false, false);
    f' := Flat(ino.root);
    BareLeaf(ino);
    if fell != Behind {
      FullMap(f, f', lo);
    }
  }

  // ------------------------------------------------------- a merge left out

  /** A full root with a gap of one block. */
  ghost function GapRoot(): seq<Extent> {
    [Make(0, 1, 100, false), Make(2, 1, 301, false), Make(20, 1, 400, false), Make(30, 1, 500, false)]
  }

  method GapInode() returns (ino: Inode)
    ensures fresh(ino) && Bare(ino) && ino.pool == [] && Flat(ino.root) == GapRoot()
  {
    ino := new Inode(Geometry(4, 4, 340, 340), []);
    Append(ino, Make(0, 1, 100, false));
    Append(ino, Make(2, 1, 301, false));
    Append(ino, Make(20, 1, 400, false));
    Append(ino, Make(30, 1, 500, false));
  }

  lemma GapClosest(p: nat)
    requires ClosestExt(GapRoot(), 1, p)
    ensures p == 0
  {
    assert GapRoot()[1].block == 2 && GapRoot()[2].block == 20 && GapRoot()[3].block == 30;
  }

  lemma GapTouches(e: Extent)
    requires e == Make(1, 1, 300, false)
    ensures ValidExtent(e) && Apart(GapRoot(), e)
    ensures forall pendingIo :: !Grows(pendingIo, GapRoot(), 0, e)
    ensures forall pendingIo :: !Extends(pendingIo, GapRoot()[0], e) && Extends(pendingIo, e, GapRoot()[1])
  {
  }

  method GapPath(ino: Inode) returns (path: Path)
    requires Bare(ino) && Flat(ino.root) == GapRoot()
    ensures ino.depth == 0 && PathFor(ino.root, path, 1) && |path.pos| == ino.depth
    ensures path.ext == Some(0) && Sub(ino.root, path.pos).exts == GapRoot()
  {
    BareLeaf(ino);
    FitsSearchable(ino.g, ino.root, ino.depth, true);
    path := FindExtent(ino.root, ino.depth, 1);
    GapClosest(path.ext.value);
  }

  method InsertGap(ino: Inode, e: Extent) returns (r: Status)
    requires Bare(ino) && ino.pool == [] && Flat(ino.root) == GapRoot() && e == Make(1, 1, 300, false)
    modifies ino
    ensures r == NoSpace && Flat(ino.root) == GapRoot()
  {
    GapTouches(e);
    var path := GapPath(ino);
    BareLeaf(ino);
    r := ino.InsertExtent(path, e, false, false);
  }

  /** The block of the gap is to be inserted. The extent behind it goes on where it ends, so that no entry is needed,
      but the one before it touches it and is the only one looked at: there is no space. */
  method MergeLeftOut() returns (r: Status, ghost f: seq<Extent>, ghost f': seq<Extent>)
    ensures f == f' == GapRoot() && Extends(false, Make(1, 1, 300, false), f[1])
    ensures r == NoSpace
  {
    var ino := GapInode();
    var e := Make(1, 1, 300, false);
    f := Flat(ino.root);
    GapTouches(e);
    r := InsertGap(ino, e);
    f' := Flat(ino.root);
  }
}
