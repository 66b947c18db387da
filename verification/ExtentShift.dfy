/**
  Shifting the extents of a file to the left (ext4/extents.c):
  ext4_ext_shift_path_extents, ext4_ext_shift_extents for SHIFT_LEFT, and
  ext4_collapse_range as removal followed by the shift.
 */
module ExtentShift {
  import opened Wrappers
  import opened Blocks
  import opened Extents
  import opened ExtentTree
  import opened ExtentSearch
  import opened ExtentNeighbours
  import opened ExtentMerge
  import opened ExtentInsert
  import opened ExtentCut
  import opened ExtentRemove
  import opened ExtentRemoveSpace

  // --------------------------------------------------- shifting a sequence

  function Slide(e: Extent, shift: nat): Extent
    requires shift <= e.block
  {
    e.(block := e.block - shift)
  }

  ghost predicate Beyond(s: seq<Extent>, x: nat) {
    forall i :: 0 <= i < |s| ==> x <= s[i].block
  }

  ghost function Slid(s: seq<Extent>, shift: nat): (r: seq<Extent>)
    requires Beyond(s, shift)
    ensures |r| == |s| && forall i :: 0 <= i < |s| ==> r[i] == Slide(s[i], shift)
  {
    if s == [] then [] else [Slide(s[0], shift)] + Slid(s[1..], shift)
  }

  lemma {:induction false} SlidAt(s: seq<Extent>, shift: nat, b: nat)
    requires Beyond(s, shift)
    ensures At(Slid(s, shift), b) == At(s, b + shift)
  {
    if s != [] {
      assert Slid(s, shift)[1..] == Slid(s[1..], shift);
      SlidAt(s[1..], shift, b);
    }
  }

  lemma {:induction false} SlidOwns(s: seq<Extent>, shift: nat, p: nat)
    requires Beyond(s, shift)
    ensures Owns(Slid(s, shift), p) == Owns(s, p)
  {
    if s != [] {
      assert Slid(s, shift)[1..] == Slid(s[1..], shift);
      SlidOwns(s[1..], shift, p);
    }
  }

  lemma SlidSorted(s: seq<Extent>, shift: nat)
    requires Sorted(s) && Beyond(s, shift)
    ensures Sorted(Slid(s, shift))
  {
    var r := Slid(s, shift);
    forall i | 0 <= i < |r| ensures ValidExtent(r[i]) { assert ValidExtent(s[i]); }
    forall i, j | 0 <= i < j < |r| ensures End(r[i]) <= r[j].block { assert End(s[i]) <= s[j].block; }
  }

  lemma SlidConcat(s: seq<Extent>, t: seq<Extent>, shift: nat)
    requires Beyond(s, shift) && Beyond(t, shift)
    ensures Beyond(s + t, shift) && Slid(s + t, shift) == Slid(s, shift) + Slid(t, shift)
  {
  }

  /** The extents from position m on moved left, the earlier ones where they are. */
  ghost function ShiftedFrom(s: seq<Extent>, m: nat, shift: nat): seq<Extent>
    requires m <= |s| && Beyond(s[m..], shift)
  {
    s[..m] + Slid(s[m..], shift)
  }

  // --------------------------------------------------------------- one leaf

  /** Entries from..k of the leaf have been shifted, and merged where that was possible. */
  ghost predicate LeafInv(exts: seq<Extent>, from: nat, k: nat, shift: nat, i: nat, r: seq<Extent>) {
    && from <= k <= |exts| && i <= |r| && r[i..] == exts[k..] && i <= k
    && Beyond(exts[from..k], shift)
    && Recut(exts[..from] + Slid(exts[from..k], shift), r[..i])
  }

  ghost predicate Movable(exts: seq<Extent>, from: nat, shift: nat) {
    && Sorted(exts) && from < |exts| && 0 < shift <= exts[from].block
    && (from > 0 ==> End(exts[from-1]) + shift <= exts[from].block)
  }

  /** From entry from on to entry i none goes on where the one before it ends. */
  ghost predicate Tight(pendingIo: bool, r: seq<Extent>, from: nat, i: nat) {
    i <= |r| && forall j :: 0 < j < i && from <= j ==> !Extends(pendingIo, r[j-1], r[j])
  }

  /** Entry i, moved, went into the one before it if it goes on there. */
  lemma TightStep(pendingIo: bool, r: seq<Extent>, from: nat, i: nat, r0: seq<Extent>, merged: bool, r': seq<Extent>)
    requires i < |r| == |r0| && r0[..i] == r[..i] && Tight(pendingIo, r, from, i) && Sorted(r0)
    requires merged <==> i > 0 && CanMerge(pendingIo, r0[i-1], r0[i])
    requires merged ==> ValidExtent(r0[i-1]) && ValidExtent(r0[i])
    requires r' == if merged then MergeAt(r0, i - 1) else r0
    ensures Tight(pendingIo, r', from, if merged then i else i + 1)
  {
    var n := if merged then i else i + 1;
    forall j | 0 < j < n && from <= j ensures !Extends(pendingIo, r'[j-1], r'[j]) {
      assert r0[j-1] == r[..i][j-1];
      CanMergeIff(pendingIo, r0[j-1], r0[j]);
      if merged && j == i - 1 { StillApart(pendingIo, r0[j-1], r0[j], r0[i]); }
    }
  }

  /** An extent that does not go on where another ends does not do so either when it has become longer. */
  lemma StillApart(pendingIo: bool, e: Extent, x: Extent, y: Extent)
    requires ValidExtent(x) && ValidExtent(y) && CanMerge(pendingIo, x, y) && !CanMerge(pendingIo, e, x)
    ensures !Extends(pendingIo, e, Merged(x, y))
  {
  }

  /** ext4_ext_try_to_merge_right on the entry before i, when the one behind i does not touch it. */
  method MergeLeft(pendingIo: bool, r: seq<Extent>, i: nat) returns (r': seq<Extent>, merged: bool)
    requires Sorted(r) && i < |r| && (i + 1 < |r| ==> End(r[i]) < r[i+1].block)
    ensures merged <==> i > 0 && CanMerge(pendingIo, r[i-1], r[i])
    ensures merged ==> ValidExtent(r[i-1]) && ValidExtent(r[i])
    ensures r' == if merged then MergeAt(r, i - 1) else r
    ensures i > 0 ==> MergedRight(pendingIo, r, i - 1, r')
  {
    r', merged := r, false;
    if i > 0 {
      assert ValidExtent(r[i-1]) && ValidExtent(r[i]);
      r', merged := TryToMergeRight(pendingIo, r, i - 1);
    }
  }

  /** One round of the loop over the leaf: move entry i and try to merge it to the left. */
  method ShiftEntry(pendingIo: bool, ghost exts: seq<Extent>, ghost from: nat, ghost k: nat, ghost k': nat, shift: nat,
                    i: nat, r: seq<Extent>) returns (r': seq<Extent>, merged: bool)
    requires Movable(exts, from, shift) && LeafInv(exts, from, k, shift, i, r) && i < |r| && k' == k + 1
    ensures |r'| == if merged then |r| - 1 else |r|
    ensures LeafInv(exts, from, k', shift, if merged then i else i + 1, r')
    ensures Tight(pendingIo, r, from, i) ==> Tight(pendingIo, r', from, if merged then i else i + 1)
  {
    SlideOne(exts, from, k, k', shift, i, r);
    ghost var a, e := r[..i], Slide(exts[k], shift);
    var r0 := r[i := Slide(r[i], shift)];
    AfterEntry(a, e, exts[k'..], r0, i);
    r', merged := MergeLeft(pendingIo, r0, i);
    if i > 0 { MergeOne(pendingIo, a, e, i, exts[k'..], r0, r'); }
    if !merged { PlainOne(a, e, exts[k'..], r'); }
    SlideDone(exts, from, k, k', shift, a, if merged then i else i + 1, r');
    if Tight(pendingIo, r, from, i) { TightStep(pendingIo, r, from, i, r0, merged, r'); }
  }

  lemma AfterEntry(a: seq<Extent>, e: Extent, rest: seq<Extent>, r: seq<Extent>, i: nat)
    requires r == a + [e] + rest && i == |a| && (rest != [] ==> End(e) < rest[0].block)
    ensures i + 1 < |r| ==> End(r[i]) < r[i+1].block
  {
  }

  /** The leaf r holds what exts does with everything from entry from on moved, and nothing moved can be merged. */
  ghost predicate LeafShifted(pendingIo: bool, exts: seq<Extent>, from: nat, shift: nat, r: seq<Extent>) {
    && from < |exts| && Beyond(exts[from..], shift) && Recut(ShiftedFrom(exts, from, shift), r)
    && 0 < |r| <= |exts| && Tight(pendingIo, r, from, |r|)
  }

  /** The loop of ext4_ext_shift_path_extents over the leaf. */
  method ShiftLeaf(pendingIo: bool, exts: seq<Extent>, from: nat, shift: nat) returns (r: seq<Extent>)
    requires Movable(exts, from, shift)
    ensures LeafShifted(pendingIo, exts, from, shift, r)
  {
    r := exts;
    var i: nat, last: int := from, |exts| - 1;
    ghost var k := from;
    LeafStart(exts, from, shift);
    while i <= last
      invariant LeafInv(exts, from, k, shift, i, r) && last == |r| - 1 && Tight(pendingIo, r, from, i)
      decreases |exts| - k
    {
      ghost var k' := k + 1;
      var merged;
      r, merged := ShiftEntry(pendingIo, exts, from, k, k', shift, i, r);
      if merged {
        last := last - 1;
      } else {
        i := i + 1;
      }
      k := k';
    }
    LeafEnd(exts, from, k, shift, i, r);
  }

  lemma LeafStart(exts: seq<Extent>, from: nat, shift: nat)
    requires Movable(exts, from, shift)
    ensures LeafInv(exts, from, from, shift, from, exts)
  {
    PrefixSorted(exts, from);
    NothingMoved(exts[..from], [], shift);
    assert exts[from..from] == [];
  }

  /** Everything from position from on starts at or after shift. */
  lemma MovableTail(exts: seq<Extent>, from: nat, shift: nat)
    requires Movable(exts, from, shift)
    ensures forall i :: from <= i < |exts| ==> shift <= exts[i].block
    ensures forall k :: from <= k <= |exts| ==> Beyond(exts[from..k], shift)
  {
    forall i | from <= i < |exts| ensures shift <= exts[i].block {
      assert from < i ==> exts[from].block <= End(exts[from]) <= exts[i].block;
    }
  }

  lemma SliceSorted(s: seq<Extent>, i: nat, j: nat)
    requires Sorted(s) && i <= j <= |s|
    ensures Sorted(s[i..j])
  {
    var m := s[i..j];
    forall x | 0 <= x < |m| ensures ValidExtent(m[x]) { assert m[x] == s[i + x]; }
    forall x, y | 0 <= x < y < |m| ensures End(m[x]) <= m[y].block { assert m[x] == s[i + x] && m[y] == s[i + y]; }
  }

  lemma PrefixSorted(s: seq<Extent>, i: nat)
    requires Sorted(s) && i <= |s|
    ensures Sorted(s[..i])
  {
    SliceSorted(s, 0, i);
  }

  /** The shifted extents before entry k end before the new place of entry k. */
  lemma SlideFits(exts: seq<Extent>, from: nat, k: nat, shift: nat)
    requires Movable(exts, from, shift) && from <= k < |exts|
    ensures Beyond(exts[from..k], shift) && shift <= exts[k].block
    ensures var x := exts[..from] + Slid(exts[from..k], shift);
            && Sorted(x + [Slide(exts[k], shift)])
            && (x != [] ==> End(x[|x|-1]) <= exts[k].block - shift)
  {
    MovableTail(exts, from, shift);
    var m := exts[from..k];
    SliceSorted(exts, from, k);
    PrefixSorted(exts, from);
    SlidSorted(m, shift);
    SlideEnds(exts, from, k, shift);
    SortedJoin(exts[..from], Slid(m, shift));
    SlideValid(exts, k, shift);
    SnocSorted(exts[..from] + Slid(m, shift), Slide(exts[k], shift));
  }

  lemma SlideValid(s: seq<Extent>, k: nat, shift: nat)
    requires Sorted(s) && k < |s| && 0 < shift <= s[k].block
    ensures ValidExtent(Slide(s[k], shift))
    ensures k + 1 < |s| ==> End(Slide(s[k], shift)) < s[k+1].block
  {
    assert ValidExtent(s[k]);
    assert k + 1 < |s| ==> End(s[k]) <= s[k+1].block;
  }

  lemma SnocSorted(s: seq<Extent>, e: Extent)
    requires Sorted(s) && ValidExtent(e) && (s != [] ==> End(s[|s|-1]) <= e.block)
    ensures Sorted(s + [e])
  {
    SortedJoin(s, [e]);
  }

  lemma SlideEnds(exts: seq<Extent>, from: nat, k: nat, shift: nat)
    requires Movable(exts, from, shift) && from <= k < |exts| && Beyond(exts[from..k], shift) && shift <= exts[k].block
    ensures var m, x := Slid(exts[from..k], shift), exts[..from] + Slid(exts[from..k], shift);
            && (x != [] ==> End(x[|x|-1]) <= exts[k].block - shift)
            && (from > 0 && m != [] ==> End(exts[..from][from-1]) <= m[0].block)
  {
    var m := exts[from..k];
    if k > from {
      assert m[|m|-1] == exts[k-1] && m[0] == exts[from];
      assert End(exts[k-1]) <= exts[k].block;
    }
  }

  lemma SlideOne(exts: seq<Extent>, from: nat, k: nat, k': nat, shift: nat, i: nat, r: seq<Extent>)
    requires Movable(exts, from, shift) && LeafInv(exts, from, k, shift, i, r) && i < |r| && k' == k + 1
    ensures k < |exts| && r[i] == exts[k] && shift <= exts[k].block
    ensures var r', e := r[i := Slide(r[i], shift)], Slide(exts[k], shift);
            && r' == r[..i] + [e] + exts[k'..] && Sorted(r') && Sorted(r[..i] + [e])
            && (k' < |exts| ==> End(e) < exts[k'].block)
  {
    assert |exts[k..]| == |r[i..]| > 0 && r[i] == r[i..][0] == exts[k..][0];
    SlideFits(exts, from, k, shift);
    var a, e := r[..i], Slide(exts[k], shift);
    SlideValid(exts, k, shift);
    SnocSorted(a, e);
    SuffixSorted(exts, k');
    SlideJoin(a, e, exts[k'..]);
    ReplaceAt(r, i, e, exts, k, k');
  }

  lemma SlideJoin(a: seq<Extent>, e: Extent, rest: seq<Extent>)
    requires Sorted(a + [e]) && Sorted(rest) && (rest != [] ==> End(e) <= rest[0].block)
    ensures Sorted(a + [e] + rest)
  {
    SortedJoin(a + [e], rest);
  }

  lemma SuffixSorted(s: seq<Extent>, k: nat)
    requires Sorted(s) && k <= |s|
    ensures Sorted(s[k..])
  {
    assert s == s[..k] + s[k..];
    SortedParts(s[..k], s[k..]);
  }

  lemma ReplaceAt(r: seq<Extent>, i: nat, e: Extent, exts: seq<Extent>, k: nat, k': nat)
    requires i < |r| && k < |exts| && r[i..] == exts[k..] && k' == k + 1
    ensures r[i := e] == r[..i] + [e] + exts[k'..]
  {
    assert r[i+1..] == r[i..][1..] && exts[k'..] == exts[k..][1..];
  }

  lemma PlainOne(a: seq<Extent>, e: Extent, rest: seq<Extent>, r: seq<Extent>)
    requires Sorted(a + [e]) && r == a + [e] + rest
    ensures r[..|a|+1] == a + [e] && r[|a|+1..] == rest && Recut(a + [e], r[..|a|+1])
  {
    RecutSelf(a + [e]);
  }

  /** At most one merge happens, of the shifted extent with its left neighbour. */
  lemma MergeOne(pendingIo: bool, a: seq<Extent>, e: Extent, i: nat, rest: seq<Extent>, r0: seq<Extent>, r: seq<Extent>)
    requires 0 < i == |a| && r0 == a + [e] + rest && Sorted(r0) && Sorted(a + [e])
    requires MergedRight(pendingIo, r0, i - 1, r) && (rest != [] ==> End(e) < rest[0].block)
    ensures |r| == |r0| ==> r == r0
    ensures |r| < |r0| ==> |r| + 1 == |r0| && r[i..] == rest && Recut(a + [e], r[..i])
  {
    if |r| < |r0| {
      var s := a + [e];
      assert r0[i-1] == s[i-1] && r0[i] == s[i];
      assert rest != [] ==> r0[i+1] == rest[0];
      assert |r| + 1 == |r0|;
      assert ValidExtent(s[i-1]) && ValidExtent(s[i]);
      MergeAtRecut(pendingIo, s, i - 1);
      MergePrefix(s, rest, r0, i - 1, r);
    }
  }

  lemma MergePrefix(s: seq<Extent>, rest: seq<Extent>, r0: seq<Extent>, j: nat, r: seq<Extent>)
    requires r0 == s + rest && j + 2 == |s|
    requires 0 < Len(s[j]) + Len(s[j+1]) <= if Unwritten(s[j]) then UNWRITTEN_MAX_LEN else INIT_MAX_LEN
    requires r0[j] == s[j] && r0[j+1] == s[j+1] && r == MergeAt(r0, j)
    ensures r[..j+1] == MergeAt(s, j) && r[j+1..] == rest
  {
    assert r0[..j] == s[..j] && r0[j+2..] == rest && s[j+2..] == [];
  }

  lemma SlideDone(exts: seq<Extent>, from: nat, k: nat, k': nat, shift: nat, a: seq<Extent>, i: nat, r: seq<Extent>)
    requires Movable(exts, from, shift) && from <= k < |exts| && k' == k + 1 && i <= |r| && i <= k'
    requires Beyond(exts[from..k], shift) && shift <= exts[k].block
    requires Recut(exts[..from] + Slid(exts[from..k], shift), a)
    requires Recut(a + [Slide(exts[k], shift)], r[..i]) && r[i..] == exts[k'..]
    ensures LeafInv(exts, from, k', shift, i, r)
  {
    var x, e := exts[..from] + Slid(exts[from..k], shift), Slide(exts[k], shift);
    SlideFits(exts, from, k, shift);
    RecutAppend(x, a, [e]);
    RecutTrans(x + [e], a + [e], r[..i]);
    SlidSnoc(exts, from, k, k', shift);
  }

  lemma SlidSnoc(exts: seq<Extent>, from: nat, k: nat, k': nat, shift: nat)
    requires from <= k < |exts| && k' == k + 1 && Beyond(exts[from..k], shift) && shift <= exts[k].block
    ensures Beyond(exts[from..k'], shift)
    ensures exts[..from] + Slid(exts[from..k'], shift) ==
              exts[..from] + Slid(exts[from..k], shift) + [Slide(exts[k], shift)]
  {
    assert exts[from..k'] == exts[from..k] + [exts[k]];
    SlidConcat(exts[from..k], [exts[k]], shift);
    assert Slid([exts[k]], shift) == [Slide(exts[k], shift)];
  }

  lemma RecutAppend(x: seq<Extent>, a: seq<Extent>, y: seq<Extent>)
    requires Recut(x, a) && Sorted(x + y)
    ensures Recut(x + y, a + y)
  {
    assert [] + x + y == x + y && [] + a + y == a + y;
    RecutMiddle([], x, a, y);
  }

  lemma LeafEnd(exts: seq<Extent>, from: nat, k: nat, shift: nat, i: nat, r: seq<Extent>)
    requires Movable(exts, from, shift) && LeafInv(exts, from, k, shift, i, r) && i == |r|
    ensures Beyond(exts[from..], shift) && Recut(ShiftedFrom(exts, from, shift), r) && 0 < |r| <= |exts|
  {
    assert |exts[k..]| == 0;
    assert exts[from..k] == exts[from..] && r[..i] == r;
  }

  // ----------------------------------------------------------- index keys

  /** The node at level k of the path when something below it has been replaced by x. */
  lemma NodeAbove(t: Tree, pos: seq<nat>, k: nat, j: nat, x: Tree)
    requires Reaches(t, pos) && k < |pos| && j == k + 1 && Reaches(t, pos[..j])
    ensures Reaches(t, pos[..k]) && Sub(t, pos[..k]).Node? && pos[k] < |Sub(t, pos[..k]).kids|
    ensures Sub(t, pos[..j]) == Sub(t, pos[..k]).kids[pos[k]].sub
    ensures var t', c := Put(t, pos[..j], x), Sub(t, pos[..k]);
            Reaches(t', pos[..k]) && Sub(t', pos[..k]) == Node(c.kids[pos[k] := c.kids[pos[k]].(sub := x)])
  {
    PathPrefix(t, pos, k);
    PathStep(t, pos, k);
    var c, i := Sub(t, pos[..k]), pos[k];
    PutOne(c, i, x);
    assert pos[..j] == pos[..k] + [i];
    PutConcat(t, pos[..k], [i], x);
    PutReaches(t, pos[..k], Put(c, [i], x));
  }

  /** Along a path of first entries, every index key is the first block of the leaf. */
  lemma KeyAbove(g: Geometry, t: Tree, d: nat, pos: seq<nat>, k: nat, j: nat)
    requires Fits(g, t, d, true) && Reaches(t, pos) && k < |pos| <= d && j == k + 1
    requires Reaches(t, pos[..k]) && Reaches(t, pos[..j]) && Sub(t, pos[..k]).Node? && pos[k] < |Sub(t, pos[..k]).kids|
    requires Sub(t, pos[..j]) == Sub(t, pos[..k]).kids[pos[k]].sub
    ensures Flat(Sub(t, pos[..j])) != [] && Sub(t, pos[..k]).kids[pos[k]].key == First(Sub(t, pos[..j]))
    ensures pos[k] == 0 ==> Flat(Sub(t, pos[..k])) != [] && First(Sub(t, pos[..k])) == First(Sub(t, pos[..j]))
  {
    FitsSub(g, t, d, true, pos[..k]);
    var c := Sub(t, pos[..k]);
    assert KidFits(g, c.kids[pos[k]], d - k - 1);
    FitsNonEmpty(g, c.kids[pos[k]].sub, d - k - 1, false);
    if pos[k] == 0 {
      assert FlatKids(c.kids) == FlatKid(c.kids[0]) + FlatKids(c.kids[1..]);
    }
  }

  /** The index part of ext4_ext_shift_path_extents: subtract shift from the keys above
      a leaf whose first extent has moved. */
  method ShiftKeys(ino: Inode, pos: seq<nat>, shift: nat, ghost t: Tree)
    requires Edited(ino.g, t, ino.depth, pos, ino.root) && Sub(t, pos).Leaf? && Sub(t, pos).exts != []
    requires Sub(ino.root, pos).exts[0].block + shift == Sub(t, pos).exts[0].block
    modifies ino`root
    ensures ino.root == PutKeyed(t, pos, old(Sub(ino.root, pos)))
  {
    ghost var leaf := Sub(ino.root, pos);
    ghost var border := leaf.exts[0].block;
    assert pos[..ino.depth] == pos && pos[ino.depth..] == [];
    PathPrefix(t, pos, ino.depth);
    var k := ino.depth;
    while k > 0 && (k == ino.depth || pos[k] == 0)
      invariant 0 <= k <= ino.depth && Reaches(t, pos[..k]) && Reaches(Sub(t, pos[..k]), pos[k..])
      invariant ino.root == Put(t, pos[..k], PutKeyed(Sub(t, pos[..k]), pos[k..], leaf))
      invariant k == ino.depth || pos[k] == 0 ==>
                  && Flat(PutKeyed(Sub(t, pos[..k]), pos[k..], leaf)) != []
                  && First(PutKeyed(Sub(t, pos[..k]), pos[k..], leaf)) == border
                  && Flat(Sub(t, pos[..k])) != [] && First(Sub(t, pos[..k])) == border + shift
    {
      k := k - 1;
      CorrectStep(t, pos, k, leaf, ino.root, border);
      NodeAbove(t, pos, k, k + 1, PutKeyed(Sub(t, pos[..k+1]), pos[k+1..], leaf));
      KeyAbove(ino.g, t, ino.depth, pos, k, k + 1);
      var node := Sub(ino.root, pos[..k]);
      var key := node.kids[pos[k]].key - shift;
      ino.root := Put(ino.root, pos[..k], Node(node.kids[pos[k] := node.kids[pos[k]].(key := key)]));
    }
    CorrectDone(ino.g, t, ino.depth, pos, k, leaf);
  }

  /** ext4_ext_shift_path_extents for SHIFT_LEFT */
  method ShiftPath(ino: Inode, path: Path, shift: nat) returns (ghost r: seq<Extent>)
    requires Fits(ino.g, ino.root, ino.depth, true) && Reaches(ino.root, path.pos) && |path.pos| == ino.depth
    requires Sub(ino.root, path.pos).Leaf? && path.ext.Some? &&
               Movable(Sub(ino.root, path.pos).exts, path.ext.value, shift)
    modifies ino`root
    ensures LeafShifted(ino.pendingIo, old(Sub(ino.root, path.pos).exts), path.ext.value, shift, r)
    ensures ino.root == PutKeyed(old(ino.root), path.pos, Leaf(r))
  {
    var exts, p := Sub(ino.root, path.pos).exts, path.ext.value;
    var leaf := ShiftLeaf(ino.pendingIo, exts, p, shift);
    r := leaf;
    StoreShifted(ino, path, leaf, shift);
  }

  /** The shifted leaf is in place, and the keys above follow. */
  method StoreShifted(ino: Inode, path: Path, leaf: seq<Extent>, shift: nat)
    requires Fits(ino.g, ino.root, ino.depth, true) && Reaches(ino.root, path.pos) && |path.pos| == ino.depth
    requires Sub(ino.root, path.pos).Leaf? && path.ext.Some? &&
               Movable(Sub(ino.root, path.pos).exts, path.ext.value, shift)
    requires LeafShifted(ino.pendingIo, Sub(ino.root, path.pos).exts, path.ext.value, shift, leaf)
    modifies ino`root
    ensures ino.root == PutKeyed(old(ino.root), path.pos, Leaf(leaf))
  {
    var pos, exts := path.pos, Sub(ino.root, path.pos).exts;
    ghost var t := ino.root;
    PutReaches(t, pos, Leaf(leaf));
    ShiftedFirst(exts, path.ext.value, shift);
    ino.root := Put(ino.root, pos, Leaf(leaf));
    if path.ext.value == 0 {
      ShiftKeys(ino, pos, shift, t);
    } else {
      PutKeyedSame(ino.g, t, ino.depth, true, pos, Leaf(leaf));
    }
  }

  lemma ShiftedFirst(s: seq<Extent>, m: nat, shift: nat)
    requires m < |s| && Beyond(s[m..], shift)
    ensures var x := ShiftedFrom(s, m, shift);
            |x| == |s| && x[0].block == if m == 0 then s[0].block - shift else s[0].block
  {
  }

  // ---------------------------------------------------------- the whole file

  ghost function LastEnd(s: seq<Extent>): nat
    requires s != []
  {
    End(s[|s|-1])
  }

  /** The extents h end at least shift blocks before start; the extents t begin at or after it. */
  ghost predicate Hole(h: seq<Extent>, t: seq<Extent>, start: nat, shift: nat) {
    && Sorted(h) && Sorted(t) && 0 < shift <= start
    && (forall i :: 0 <= i < |h| ==> End(h[i]) + shift <= start)
    && (forall i :: 0 <= i < |t| ==> start <= t[i].block)
  }

  /** h followed by the moved extents is what a holds, up to merging. */
  ghost predicate Shifting(h: seq<Extent>, moved: seq<Extent>, shift: nat, a: seq<Extent>) {
    Beyond(moved, shift) && Recut(h + Slid(moved, shift), a)
  }

  /** The iterator stands between the moved and the unmoved extents. */
  ghost predicate Between(moved: seq<Extent>, rest: seq<Extent>, start: nat, it: nat) {
    && start <= it
    && (moved != [] ==> LastEnd(moved) <= it) && (rest != [] ==> it <= rest[0].block)
  }

  lemma HoleParts(h: seq<Extent>, moved: seq<Extent>, rest: seq<Extent>, start: nat, shift: nat)
    requires Hole(h, moved + rest, start, shift)
    ensures Hole(h, moved, start, shift) && Hole(h, rest, start, shift)
    ensures moved != [] && rest != [] ==> LastEnd(moved) <= rest[0].block
  {
    SortedParts(moved, rest);
    forall i | 0 <= i < |moved| ensures start <= moved[i].block { assert (moved + rest)[i] == moved[i]; }
    forall i | 0 <= i < |rest| ensures start <= rest[i].block { assert (moved + rest)[|moved| + i] == rest[i]; }
  }

  lemma MovedSorted(h: seq<Extent>, moved: seq<Extent>, start: nat, shift: nat)
    requires Hole(h, moved, start, shift)
    ensures Beyond(moved, shift) && Sorted(h + Slid(moved, shift))
    ensures h + Slid(moved, shift) != [] ==>
              LastEnd(h + Slid(moved, shift)) + shift <= if moved != [] then LastEnd(moved) else start
  {
    SlidSorted(moved, shift);
    SortedJoin(h, Slid(moved, shift));
    LastConcat(h, Slid(moved, shift));
  }

  lemma LastConcat(a: seq<Extent>, b: seq<Extent>)
    ensures b != [] ==> LastEnd(a + b) == LastEnd(b)
    ensures b == [] && a != [] ==> LastEnd(a + b) == LastEnd(a)
  {
  }

  lemma DoneLow(h: seq<Extent>, moved: seq<Extent>, start: nat, shift: nat, a: seq<Extent>, it: nat)
    requires Hole(h, moved, start, shift) && Shifting(h, moved, shift, a)
    requires start <= it && (moved != [] ==> LastEnd(moved) <= it)
    ensures a != [] ==> LastEnd(a) + shift <= it
    ensures forall j :: 0 <= j < |a| ==> End(a[j]) + shift <= it
  {
    MovedSorted(h, moved, start, shift);
    if a != [] { EarlierEnds(a, |a| - 1, it - shift); }
  }

  /** Which extent the search for the iterator finds: the first unmoved one, or the one before it. */
  lemma FindsNext(a: seq<Extent>, rest: seq<Extent>, f: seq<Extent>, it: nat, j: nat, shift: nat)
    requires f == a + rest && rest != [] && Sorted(rest) && 0 < shift && j < |f|
    requires forall x :: 0 <= x < |a| ==> End(a[x]) + shift <= it
    requires it <= rest[0].block
    requires (forall x :: j < x < |f| ==> it < f[x].block) && (it < f[j].block ==> j == 0)
    ensures it <= f[j].block ==> j == |a|
    ensures f[j].block < it ==> j + 1 == |a|
  {
    var n := |a|;
    forall x | n < x < |f| ensures rest[0].block < f[x].block {
      assert ValidExtent(rest[0]) && End(rest[0]) <= rest[x - n].block;
    }
    assert f[n] == rest[0];
    var k := if j + 1 < |f| then j + 1 else j;
    assert forall x :: 0 <= x < n ==> f[x] == a[x];
    var x := f[k];
    assert x.block <= End(x);
  }

  /** A leaf cut in two where the moved extents end. */
  lemma LeafParts(a: seq<Extent>, rest: seq<Extent>, bf: seq<Extent>, e1: seq<Extent>, e2: seq<Extent>, af: seq<Extent>)
    requires a + rest == bf + (e1 + e2) + af && |a| == |bf| + |e1|
    ensures a == bf + e1 && rest == e2 + af
  {
    var f := a + rest;
    assert f[..|a|] == a && f[|a|..] == rest;
    assert f == (bf + e1) + (e2 + af);
  }

  lemma RecutPrepend(a: seq<Extent>, x: seq<Extent>, y: seq<Extent>)
    requires Recut(x, y) && Sorted(a + x)
    ensures Recut(a + x, a + y)
  {
    assert a + x + [] == a + x && a + y + [] == a + y;
    RecutMiddle(a, x, y, []);
  }

  /** After the leaf has been shifted its extents are done. */
  lemma LeafMoved(h: seq<Extent>, moved: seq<Extent>, start: nat, shift: nat,
                  bf: seq<Extent>, e1: seq<Extent>, e2: seq<Extent>, r: seq<Extent>)
    requires Hole(h, moved + e2, start, shift) && Shifting(h, moved, shift, bf + e1)
    requires Beyond(e2, shift) && Recut(e1 + Slid(e2, shift), r)
    ensures Shifting(h, moved + e2, shift, bf + r)
  {
    var x, y := h + Slid(moved, shift), Slid(e2, shift);
    MovedSorted(h, moved + e2, start, shift);
    SlidConcat(moved, e2, shift);
    Reassociate(h, Slid(moved, shift), y);
    RecutAppend(x, bf + e1, y);
    Reassociate(bf, e1, y);
    RecutPrepend(bf, e1 + y, r);
    RecutTrans(x + y, bf + (e1 + y), bf + r);
  }

  /** The moved extents and the rest are still sorted. */
  lemma MovedThenRest(h: seq<Extent>, moved: seq<Extent>, rest: seq<Extent>, start: nat, shift: nat, a: seq<Extent>)
    requires Hole(h, moved + rest, start, shift) && Shifting(h, moved, shift, a)
    ensures Sorted(a + rest)
  {
    HoleParts(h, moved, rest, start, shift);
    MovedSorted(h, moved, start, shift);
    SortedJoin(a, rest);
  }

  lemma LeafOf(t: Tree, pos: seq<nat>, p: nat, a: seq<Extent>, rest: seq<Extent>, exts: seq<Extent>)
    requires Reaches(t, pos) && Sub(t, pos) == Leaf(exts) && p < |exts| && Flat(t) == a + rest &&
               |a| == |Before(t, pos)| + p
    ensures a == Before(t, pos) + exts[..p] && rest == exts[p..] + After(t, pos)
  {
    SubFlat(t, pos);
    assert exts == exts[..p] + exts[p..];
    LeafParts(a, rest, Before(t, pos), exts[..p], exts[p..], After(t, pos));
  }

  lemma LeafMovable(exts: seq<Extent>, p: nat, h: seq<Extent>, moved: seq<Extent>, start: nat, shift: nat,
                    a: seq<Extent>, bf: seq<Extent>, it: nat)
    requires p < |exts| && Sorted(exts) && Hole(h, moved, start, shift) && Shifting(h, moved, shift, a)
    requires a == bf + exts[..p] && start <= it <= exts[p].block && (moved != [] ==> LastEnd(moved) <= it)
    ensures Movable(exts, p, shift)
  {
    DoneLow(h, moved, start, shift, a, it);
    if p > 0 {
      LastConcat(bf, exts[..p]);
      assert exts[..p][p-1] == exts[p-1];
    }
  }

  lemma AfterShift(g: Geometry, t: Tree, d: nat, pos: seq<nat>, r: seq<Extent>)
    requires Fits(g, t, d, true) && Reaches(t, pos) && |pos| == d && Sub(t, pos).Leaf? && 0 < |r| <= |Sub(t, pos).exts|
    ensures Fits(g, PutKeyed(t, pos, Leaf(r)), d, true)
    ensures Flat(PutKeyed(t, pos, Leaf(r))) == Before(t, pos) + r + After(t, pos)
    ensures forall b :: Uses(PutKeyed(t, pos, Leaf(r)), b) == Uses(t, b)
  {
    FitsSub(g, t, d, true, pos);
    PutKeyedFits(g, t, d, true, pos, Leaf(r));
    PutParts(t, pos, Leaf(r));
    PutKeyedParts(t, pos, Leaf(r));
    LeafUses(t, pos, r);
  }

  /** The state of the loop of ext4_ext_shift_extents: of the extents t behind the hole, the
      moved ones are in a together with h, and the others are still in place. */
  ghost predicate ShiftState(h: seq<Extent>, t: seq<Extent>, start: nat, shift: nat,
                             moved: seq<Extent>, rest: seq<Extent>, a: seq<Extent>, it: nat, f: seq<Extent>) {
    && Hole(h, t, start, shift) && moved + rest == t && f == a + rest
    && Shifting(h, moved, shift, a) && Between(moved, rest, start, it)
  }

  /** ext4_ext_shift_path_extents with what it does to the whole file. */
  method EditLeaf(ino: Inode, path: Path, shift: nat) returns (ghost r: seq<Extent>)
    requires Fits(ino.g, ino.root, ino.depth, true) && Reaches(ino.root, path.pos) && |path.pos| == ino.depth
    requires Sub(ino.root, path.pos).Leaf? && path.ext.Some? &&
               Movable(Sub(ino.root, path.pos).exts, path.ext.value, shift)
    modifies ino`root
    ensures var exts, p := old(Sub(ino.root, path.pos).exts), path.ext.value;
            Beyond(exts[p..], shift) && Recut(exts[..p] + Slid(exts[p..], shift), r)
    ensures Fits(ino.g, ino.root, ino.depth, true)
    ensures Flat(ino.root) == old(Before(ino.root, path.pos)) + r + old(After(ino.root, path.pos))
    ensures forall b :: Uses(ino.root, b) == old(Uses(ino.root, b))
  {
    ghost var t := ino.root;
    r := ShiftPath(ino, path, shift);
    AfterShift(ino.g, t, ino.depth, path.pos, r);
  }

  /** Shift the leaf of the first unmoved extent: of its extents e1 + now the second part moves. */
  method MoveLeaf(ino: Inode, path: Path, shift: nat, ghost h: seq<Extent>, ghost t: seq<Extent>, ghost start: nat,
                  ghost moved: seq<Extent>, ghost rest: seq<Extent>, ghost a: seq<Extent>, ghost it: nat)
    returns (end: nat, ghost bf: seq<Extent>, ghost e1: seq<Extent>, ghost now: seq<Extent>, ghost af: seq<Extent>,
             ghost r: seq<Extent>)
    requires ino.Valid() && ShiftState(h, t, start, shift, moved, rest, a, it, Flat(ino.root))
    requires Reaches(ino.root, path.pos) && |path.pos| == ino.depth && Sub(ino.root, path.pos).Leaf?
    requires path.ext.Some? && path.ext.value < |Sub(ino.root, path.pos).exts| && Rank(ino.root, path) == |a|
    modifies ino`root
    ensures a == bf + e1 && rest == now + af && now != [] && end == LastEnd(now)
    ensures Beyond(now, shift) && Recut(e1 + Slid(now, shift), r)
    ensures Fits(ino.g, ino.root, ino.depth, true) && Flat(ino.root) == bf + r + af
    ensures forall b :: Uses(ino.root, b) == old(Uses(ino.root, b))
  {
    var pos, exts, p := path.pos, Sub(ino.root, path.pos).exts, path.ext.value;
    ghost var root := ino.root;
    end := End(exts[|exts|-1]);
    LeafFacts(root, pos, p, exts, h, t, start, shift, moved, rest, a, it);
    bf, e1, now, af := Before(root, pos), exts[..p], exts[p..], After(root, pos);
    r := EditLeaf(ino, path, shift);
  }

  lemma MoveDone(h: seq<Extent>, t: seq<Extent>, start: nat, shift: nat, moved: seq<Extent>, a: seq<Extent>, it: nat,
                 bf: seq<Extent>, e1: seq<Extent>, now: seq<Extent>, af: seq<Extent>, r: seq<Extent>)
    requires Hole(h, t, start, shift) && t == moved + (now + af) && Shifting(h, moved, shift, bf + e1)
    requires Beyond(now, shift) && Recut(e1 + Slid(now, shift), r) && now != [] && it == LastEnd(now)
    ensures ShiftState(h, t, start, shift, moved + now, af, bf + r, it, bf + r + af) && Sorted(bf + r + af)
  {
    BetweenStep(h, moved, now, af, start, shift, it);
    HoleParts(h, moved + now, af, start, shift);
    LeafMoved(h, moved, start, shift, bf, e1, now, r);
    MovedThenRest(h, moved + now, af, start, shift, bf + r);
  }

  /** The body of the loop of ext4_ext_shift_extents once the first extent to move is known. */
  method ShiftFromPath(ino: Inode, path: Path, shift: nat, ghost h: seq<Extent>, ghost t: seq<Extent>, ghost start: nat,
                       ghost moved: seq<Extent>, ghost rest: seq<Extent>, ghost a: seq<Extent>, ghost it: nat)
    returns (end: nat, ghost moved': seq<Extent>, ghost rest': seq<Extent>, ghost a': seq<Extent>)
    requires ino.Valid() && ShiftState(h, t, start, shift, moved, rest, a, it, Flat(ino.root))
    requires Reaches(ino.root, path.pos) && |path.pos| == ino.depth && Sub(ino.root, path.pos).Leaf?
    requires path.ext.Some? && path.ext.value < |Sub(ino.root, path.pos).exts| && Rank(ino.root, path) == |a|
    modifies ino`root
    ensures ino.Valid() && ShiftState(h, t, start, shift, moved', rest', a', end, Flat(ino.root))
    ensures |rest'| < |rest|
    ensures forall b :: Uses(ino.root, b) == old(Uses(ino.root, b))
  {
    ghost var bf, e1, now, af, r;
    end, bf, e1, now, af, r := MoveLeaf(ino, path, shift, h, t, start, moved, rest, a, it);
    MoveDone(h, t, start, shift, moved, a, end, bf, e1, now, af, r);
    moved', rest', a' := moved + now, af, bf + r;
  }

  lemma LeafFacts(root: Tree, pos: seq<nat>, p: nat, exts: seq<Extent>, h: seq<Extent>, t: seq<Extent>, start: nat,
                  shift: nat, moved: seq<Extent>, rest: seq<Extent>, a: seq<Extent>, it: nat)
    requires Reaches(root, pos) && Sub(root, pos) == Leaf(exts) && p < |exts| && |a| == |Before(root, pos)| + p
    requires Sorted(Flat(root)) && ShiftState(h, t, start, shift, moved, rest, a, it, Flat(root))
    ensures a == Before(root, pos) + exts[..p] && rest == exts[p..] + After(root, pos)
    ensures Movable(exts, p, shift) && LastEnd(exts[p..]) == End(exts[|exts|-1])
  {
    SubSorted(root, pos);
    LeafOf(root, pos, p, a, rest, exts);
    HoleParts(h, moved, rest, start, shift);
    HeadOfRest(exts, p, After(root, pos), rest);
    LeafMovable(exts, p, h, moved, start, shift, a, Before(root, pos), it);
  }

  lemma HeadOfRest(exts: seq<Extent>, p: nat, af: seq<Extent>, rest: seq<Extent>)
    requires p < |exts| && rest == exts[p..] + af
    ensures rest[0] == exts[p] && LastEnd(exts[p..]) == End(exts[|exts|-1])
  {
  }

  /** Behind the found extent when the iterator is past its start. */
  method NextToMove(ino: Inode, path: Path, it: nat, ghost a: seq<Extent>, ghost rest: seq<Extent>)
    returns (path': Option<Path>, it': nat)
    requires ino.Valid() && Flat(ino.root) == a + rest && rest != []
    requires PathFor(ino.root, path, it) && |path.pos| == ino.depth && path.ext.Some?
    requires it <= rest[0].block
    requires var e := Sub(ino.root, path.pos).exts[path.ext.value];
             if it <= e.block then Rank(ino.root, path) == |a| else Rank(ino.root, path) + 1 == |a|
    ensures path'.None? ==> it < it' == rest[0].block
    ensures path'.Some? ==>
              && path'.value.pos == path.pos && path'.value.ext.Some? && it' == it
              && path'.value.ext.value < |Sub(ino.root, path.pos).exts| && Rank(ino.root, path'.value) == |a|
  {
    var exts, p := Sub(ino.root, path.pos).exts, path.ext.value;
    path', it' := Some(path), it;
    if it > exts[p].block {
      if p + 1 < |exts| {
        path' := Some(Path(path.pos, Some(p + 1)));
      } else {
        path' := None;
        it' := NextAllocatedBlock(ino.g, ino.root, ino.depth, path);
        RankBracket(ino.g, ino.root, ino.depth, path, it);
      }
    }
  }

  /** One round of the loop of ext4_ext_shift_extents for SHIFT_LEFT. */
  method ShiftRound(ino: Inode, it: nat, shift: nat, ghost stop: nat, ghost h: seq<Extent>, ghost t: seq<Extent>,
                    ghost start: nat, ghost moved: seq<Extent>, ghost rest: seq<Extent>, ghost a: seq<Extent>)
    returns (it': nat, ghost moved': seq<Extent>, ghost rest': seq<Extent>, ghost a': seq<Extent>)
    requires ino.Valid() && ShiftState(h, t, start, shift, moved, rest, a, it, Flat(ino.root)) && rest != []
    requires h + t != [] && stop == (h + t)[|h + t| - 1].block
    modifies ino`root
    ensures ino.Valid() && ShiftState(h, t, start, shift, moved', rest', a', it', Flat(ino.root))
    ensures |rest'| < |rest| || (rest' == rest && it < it')
    ensures it' <= stop <==> rest' != []
    ensures forall b :: Uses(ino.root, b) == old(Uses(ino.root, b))
  {
    var path := Locate(ino, it, shift, h, moved, rest, start, a);
    var from;
    from, it' := NextToMove(ino, path, it, a, rest);
    if from.Some? {
      it', moved', rest', a' := ShiftFromPath(ino, from.value, shift, h, t, start, moved, rest, a, it);
    } else {
      moved', rest', a' := moved, rest, a;
    }
    StopRight(h, t, moved', rest', start, shift, it', stop, h + t);
  }

  /** The loop of ext4_ext_shift_extents for SHIFT_LEFT, with the original extents h + t. */
  method ShiftLoop(ino: Inode, start: nat, shift: nat, stop: nat, ghost h: seq<Extent>, ghost t: seq<Extent>)
    requires ino.Valid() && Flat(ino.root) == h + t && Hole(h, t, start, shift)
    requires h + t != [] && stop == (h + t)[|h + t| - 1].block
    modifies ino`root
    ensures ino.Valid() && Shifting(h, t, shift, Flat(ino.root))
    ensures forall b :: Uses(ino.root, b) == old(Uses(ino.root, b))
  {
    var it: nat := start;
    ghost var moved: seq<Extent>, rest, a := [], t, h;
    ShiftStart(h, t, start, shift, stop);
    while it <= stop
      invariant ino.Valid() && ShiftState(h, t, start, shift, moved, rest, a, it, Flat(ino.root))
      invariant it <= stop <==> rest != []
      invariant forall b :: Uses(ino.root, b) == old(Uses(ino.root, b))
      decreases |rest|, stop - it
    {
      it, moved, rest, a := ShiftRound(ino, it, shift, stop, h, t, start, moved, rest, a);
    }
    ShiftEnd(moved, rest, a, Flat(ino.root));
  }

  lemma ShiftStart(h: seq<Extent>, t: seq<Extent>, start: nat, shift: nat, stop: nat)
    requires Hole(h, t, start, shift) && h + t != [] && stop == (h + t)[|h + t| - 1].block
    ensures ShiftState(h, t, start, shift, [], t, h, start, h + t) && (start <= stop <==> t != [])
  {
    NothingMoved(h, t, shift);
    StopRight(h, t, [], t, start, shift, start, stop, h + t);
  }

  lemma NothingMoved(h: seq<Extent>, t: seq<Extent>, shift: nat)
    requires Sorted(h)
    ensures Shifting(h, [], shift, h) && [] + t == t
  {
    assert h + [] == h;
    RecutSelf(h);
  }

  lemma ShiftEnd(moved: seq<Extent>, rest: seq<Extent>, a: seq<Extent>, f: seq<Extent>)
    requires rest == [] && f == a + rest
    ensures f == a && moved + rest == moved
  {
  }

  /** The loop runs exactly while something is left to move. */
  lemma StopRight(h: seq<Extent>, t: seq<Extent>, moved: seq<Extent>, rest: seq<Extent>, start: nat, shift: nat,
                  it: nat, stop: nat, f: seq<Extent>)
    requires f == h + t && t == moved + rest && f != [] && stop == f[|f|-1].block && Hole(h, t, start, shift)
    requires Between(moved, rest, start, it)
    ensures it <= stop <==> rest != []
  {
    HoleParts(h, moved, rest, start, shift);
    var l := f[|f|-1];
    if rest != [] {
      assert l == rest[|rest|-1];
      assert |rest| > 1 ==> End(rest[0]) <= l.block;
    } else if moved != [] {
      assert l == moved[|moved|-1] && ValidExtent(l);
    } else {
      assert l == h[|h|-1];
    }
  }

  lemma BetweenStep(h: seq<Extent>, moved: seq<Extent>, now: seq<Extent>, rest: seq<Extent>, start: nat, shift: nat,
                    it: nat)
    requires now != [] && it == LastEnd(now) && Hole(h, moved + (now + rest), start, shift)
    ensures moved + (now + rest) == (moved + now) + rest && Between(moved + now, rest, start, it)
  {
    Reassociate(moved, now, rest);
    HoleParts(h, moved + now, rest, start, shift);
    HoleParts(h, moved, now, start, shift);
    LastConcat(moved, now);
    assert ValidExtent(now[|now|-1]) && start <= now[|now|-1].block;
  }

  method Locate(ino: Inode, it: nat, shift: nat, ghost h: seq<Extent>, ghost moved: seq<Extent>,
                ghost rest: seq<Extent>, ghost start: nat, ghost a: seq<Extent>)
    returns (path: Path)
    requires ino.Valid() && Flat(ino.root) == a + rest && rest != [] && Hole(h, moved + rest, start, shift)
    requires Shifting(h, moved, shift, a) && Between(moved, rest, start, it)
    ensures PathFor(ino.root, path, it) && |path.pos| == ino.depth && path.ext.Some?
    ensures var e := Sub(ino.root, path.pos).exts[path.ext.value];
            if it <= e.block then Rank(ino.root, path) == |a| else Rank(ino.root, path) + 1 == |a|
  {
    FitsSearchable(ino.g, ino.root, ino.depth, true);
    path := FindExtent(ino.root, ino.depth, it);
    FindsSome(ino.g, ino.root, ino.depth, path, it);
    RankBracket(ino.g, ino.root, ino.depth, path, it);
    LocatedRank(h, moved, rest, start, shift, a, Flat(ino.root), it, Rank(ino.root, path));
  }

  lemma LocatedRank(h: seq<Extent>, moved: seq<Extent>, rest: seq<Extent>, start: nat, shift: nat, a: seq<Extent>,
                    f: seq<Extent>, it: nat, j: nat)
    requires f == a + rest && rest != [] && Hole(h, moved + rest, start, shift)
    requires Shifting(h, moved, shift, a) && Between(moved, rest, start, it)
    requires j < |f| && (forall x :: j < x < |f| ==> it < f[x].block) && (it < f[j].block ==> j == 0)
    ensures if it <= f[j].block then j == |a| else j + 1 == |a|
  {
    HoleParts(h, moved, rest, start, shift);
    DoneLow(h, moved, start, shift, a, it);
    FindsNext(a, rest, f, it, j, shift);
  }

  lemma FindsSome(g: Geometry, t: Tree, d: nat, path: Path, b: nat)
    requires WellFormed(g, t, d) && PathFor(t, path, b) && Flat(t) != []
    ensures path.ext.Some?
  {
    if path.ext.None? { EmptyLeaf(g, t, d, path.pos); }
  }

  // ------------------------------------------------------------- the result

  /** 32-bit subtraction, as ext4_lblk_t does it. */
  function Sub32(a: nat, b: nat): nat
    requires b < 0x1_0000_0000
  {
    (a + 0x1_0000_0000 - b) % 0x1_0000_0000
  }

  /** ext4_ext_shift_extents refuses the shift. ex is the extent found for the block before start. */
  predicate Refused(ex: Extent, start: nat, shift: nat)
    requires End(ex) <= MAX_BLOCKS
  {
    (start == ex.block && shift > ex.block) || shift > Sub32(start, End(ex))
  }

  ghost predicate Free(f: seq<Extent>, lo: nat, hi: nat) {
    forall b: nat :: lo <= b < hi ==> At(f, b) == None
  }

  /** What the search for the block before start tells about the position of its result. */
  ghost predicate Nearest(f: seq<Extent>, j: nat, start: nat) {
    j < |f| && (forall x :: j < x < |f| ==> start <= f[x].block) && (start <= f[j].block ==> j == 0)
  }

  /** When no extent crosses start, the test refuses exactly the shifts for which
      one of the shift blocks before start is in use. */
  lemma RefusedRight(f: seq<Extent>, j: nat, start: nat, shift: nat)
    requires Sorted(f) && 0 < shift <= start <= MAX_BLOCKS && NoStraddle(f, start - 1) && Nearest(f, j, start)
    ensures ValidExtent(f[j])
    ensures Refused(f[j], start, shift) <==> !Free(f, start - shift, start)
    ensures !Refused(f[j], start, shift) && f[j].block < start ==> End(f[j]) + shift <= start
  {
    assert ValidExtent(f[j]);
    if Refused(f[j], start, shift) {
      AtHit(f, j, End(f[j]) - 1);
    } else {
      if f[j].block < start { EarlierEnds(f, j, start - shift); }
      forall b: nat | start - shift <= b < start ensures At(f, b) == None { AtNone(f, b); }
    }
  }

  lemma HoleSplit(f: seq<Extent>, j: nat, start: nat, shift: nat) returns (h: seq<Extent>, t: seq<Extent>)
    requires Sorted(f) && 0 < shift <= start && Nearest(f, j, start)
    requires f[j].block < start ==> End(f[j]) + shift <= start
    ensures f == h + t && Hole(h, t, start, shift)
  {
    if f[j].block < start {
      h, t := f[..j+1], f[j+1..];
      EarlierEnds(f, j, start - shift);
      TwoParts(f, j + 1);
      SortedParts(h, t);
    } else {
      h, t := [], f;
    }
  }

  lemma ShiftedMap(h: seq<Extent>, t: seq<Extent>, start: nat, shift: nat, f: seq<Extent>, b: nat)
    requires Hole(h, t, start, shift) && Shifting(h, t, shift, f)
    ensures At(f, b) == At(h + t, if b < start - shift then b else b + shift)
  {
    assert At(f, b) == At(h + Slid(t, shift), b);
    if b < start - shift {
      ShiftedLow(h, t, start, shift, b);
    } else {
      ShiftedHigh(h, t, start, shift, b, b + shift);
    }
  }

  lemma ShiftedLow(h: seq<Extent>, t: seq<Extent>, start: nat, shift: nat, b: nat)
    requires Hole(h, t, start, shift) && Beyond(t, shift) && b < start - shift
    ensures At(h + Slid(t, shift), b) == At(h + t, b)
  {
    AtConcat(h, Slid(t, shift), b);
    AtConcat(h, t, b);
    SlidAt(t, shift, b);
    NoneFrom(t, start, b);
    NoneFrom(t, start, b + shift);
  }

  lemma ShiftedHigh(h: seq<Extent>, t: seq<Extent>, start: nat, shift: nat, b: nat, c: nat)
    requires Hole(h, t, start, shift) && Beyond(t, shift) && start - shift <= b && c == b + shift
    ensures At(h + Slid(t, shift), b) == At(h + t, c)
  {
    AtConcat(h, Slid(t, shift), b);
    AtConcat(h, t, c);
    SlidAt(t, shift, b);
    NoneUpTo(h, start - shift, b);
    NoneUpTo(h, start - shift, c);
  }

  lemma NoneFrom(t: seq<Extent>, start: nat, b: nat)
    requires b < start && forall i :: 0 <= i < |t| ==> start <= t[i].block
    ensures At(t, b) == None
  {
    AtNone(t, b);
  }

  lemma NoneUpTo(h: seq<Extent>, end: nat, b: nat)
    requires end <= b && forall i :: 0 <= i < |h| ==> End(h[i]) <= end
    ensures At(h, b) == None
  {
    AtNone(h, b);
  }

  lemma ShiftedOwns(h: seq<Extent>, t: seq<Extent>, shift: nat, f: seq<Extent>, p: nat)
    requires Shifting(h, t, shift, f)
    ensures Owns(f, p) == Owns(h + t, p)
  {
    OwnsConcat(h, Slid(t, shift), p);
    OwnsConcat(h, t, p);
    SlidOwns(t, shift, p);
  }

  /** The map of f is that of f0 with the blocks from start on moved down by shift. */
  ghost predicate MapShifted(f0: seq<Extent>, f: seq<Extent>, start: nat, shift: nat)
    requires shift <= start
  {
    && (forall b: nat :: At(f, b) == At(f0, if b < start - shift then b else b + shift))
    && (forall p :: Owns(f, p) == Owns(f0, p))
  }

  lemma ShiftResult(h: seq<Extent>, t: seq<Extent>, start: nat, shift: nat, f: seq<Extent>)
    requires Hole(h, t, start, shift) && Shifting(h, t, shift, f)
    ensures MapShifted(h + t, f, start, shift)
  {
    forall b: nat ensures At(f, b) == At(h + t, if b < start - shift then b else b + shift) {
      ShiftedMap(h, t, start, shift, f, b);
    }
    forall p ensures Owns(f, p) == Owns(h + t, p) { ShiftedOwns(h, t, shift, f, p); }
  }

  /** Where the last extent of the file starts. */
  method LastStart(ino: Inode) returns (stop: Option<nat>)
    requires ino.Valid()
    ensures stop.None? <==> Flat(ino.root) == []
    ensures stop.Some? ==> stop.value == Flat(ino.root)[|Flat(ino.root)|-1].block
  {
    FitsSearchable(ino.g, ino.root, ino.depth, true);
    var path := FindExtent(ino.root, ino.depth, MAX_BLOCKS - 1);
    if path.ext.None? {
      EmptyLeaf(ino.g, ino.root, ino.depth, path.pos);
      return None;
    }
    RankBracket(ino.g, ino.root, ino.depth, path, MAX_BLOCKS - 1);
    LastRank(Flat(ino.root), Rank(ino.root, path));
    stop := Some(Sub(ino.root, path.pos).exts[path.ext.value].block);
  }

  /** Is the hole on the left of start big enough? */
  method HoleTest(ino: Inode, start: nat, shift: nat) returns (ok: bool, ghost h: seq<Extent>, ghost t: seq<Extent>)
    requires ino.Valid() && Flat(ino.root) != [] && 0 < shift <= start <= MAX_BLOCKS &&
               NoStraddle(Flat(ino.root), start - 1)
    ensures ok <==> Free(Flat(ino.root), start - shift, start)
    ensures ok ==> Flat(ino.root) == h + t && Hole(h, t, start, shift)
  {
    FitsSearchable(ino.g, ino.root, ino.depth, true);
    var path := FindExtent(ino.root, ino.depth, start - 1);
    FindsSome(ino.g, ino.root, ino.depth, path, start - 1);
    RankBracket(ino.g, ino.root, ino.depth, path, start - 1);
    RefusedRight(Flat(ino.root), Rank(ino.root, path), start, shift);
    var ex := Sub(ino.root, path.pos).exts[path.ext.value];
    ok := !Refused(ex, start, shift);
    h, t := [], [];
    if ok { h, t := HoleSplit(Flat(ino.root), Rank(ino.root, path), start, shift); }
  }

  /** ext4_ext_shift_extents for SHIFT_LEFT; false stands for EINVAL. */
  method ShiftExtents(ino: Inode, start: nat, shift: nat) returns (ok: bool)
    requires ino.Valid() && 0 < shift <= start <= MAX_BLOCKS && NoStraddle(Flat(ino.root), start - 1)
    modifies ino`root
    ensures ino.Valid()
    ensures ok <==> old(Free(Flat(ino.root), start - shift, start))
    ensures ok ==> MapShifted(old(Flat(ino.root)), Flat(ino.root), start, shift)
    ensures !ok ==> ino.root == old(ino.root)
    ensures forall b :: ino.Held(b) == old(ino.Held(b))
  {
    var stop := LastStart(ino);
    if stop.None? {
      return true;
    }
    ghost var h, t;
    ok, h, t := HoleTest(ino, start, shift);
    if ok {
      ShiftLoop(ino, start, shift, stop.value, h, t);
      ShiftResult(h, t, start, shift, Flat(ino.root));
    }
  }

  /** The extent found for the last possible block is the last one of the file. */
  lemma LastRank(f: seq<Extent>, j: nat)
    requires Sorted(f) && j < |f| && forall x :: j < x < |f| ==> MAX_BLOCKS - 1 < f[x].block
    ensures j == |f| - 1
  {
    assert ValidExtent(f[|f|-1]);
  }

  /** ext4_collapse_range from the removal on: blocks punchStart..punchStop go away and what follows moves down. */
  method CollapseRange(ino: Inode, punchStart: nat, punchStop: nat) returns (r: Status)
    requires ino.Valid() && punchStart < punchStop <= MAX_BLOCKS
    requires forall b: nat :: b <= ino.g.rootIdx ==> ino.Held(b) == 0
    modifies ino
    ensures ino.Valid()
    ensures r == Ok ==> forall b: nat ::
              At(Flat(ino.root), b) ==
                  old(At(Flat(ino.root), if b < punchStart then b else b + (punchStop - punchStart)))
    ensures r != Ok ==>
              r == NoSpace && Flat(ino.root) == old(Flat(ino.root)) && |old(ino.pool)| < old(ino.depth) + 2 &&
                  ino.pool == []
    ensures DataKept(old(ino.freed), old(Flat(ino.root)), ino.freed, Flat(ino.root))
    ensures forall b :: ino.Held(b) == old(ino.Held(b))
  {
    ghost var f0 := Flat(ino.root);
    ghost var mid;
    r, mid := RemoveSpace(ino, punchStart, punchStop - 1);
    if r != Ok {
      return;
    }
    ghost var f1, log := Flat(ino.root), ino.freed;
    PunchedHole(f0, f1, punchStart, punchStop);
    var ok := ShiftExtents(ino, punchStop, punchStop - punchStart);
    CollapsedMap(f0, f1, Flat(ino.root), punchStart, punchStop);
    KeptTrans(old(ino.freed), f0, log, f1, Flat(ino.root));
  }

  lemma PunchedHole(f0: seq<Extent>, f1: seq<Extent>, lo: nat, hi: nat)
    requires Sorted(f1) && lo < hi && forall b: nat :: At(f1, b) == if lo <= b <= hi - 1 then None else At(f0, b)
    ensures Free(f1, lo, hi) && NoStraddle(f1, hi - 1)
  {
    forall i | 0 <= i < |f1| ensures f1[i].block <= hi - 1 ==> End(f1[i]) <= hi {
      if Covers(f1[i], hi - 1) { AtHit(f1, i, hi - 1); }
    }
  }

  lemma CollapsedMap(f0: seq<Extent>, f1: seq<Extent>, f2: seq<Extent>, lo: nat, hi: nat)
    requires lo < hi && forall b: nat :: At(f1, b) == if lo <= b <= hi - 1 then None else At(f0, b)
    requires MapShifted(f1, f2, hi, hi - lo)
    ensures forall b: nat :: At(f2, b) == At(f0, if b < lo then b else b + (hi - lo))
  {
    forall b: nat ensures At(f2, b) == At(f0, if b < lo then b else b + (hi - lo)) {
      var c := if b < lo then b else b + (hi - lo);
      assert At(f2, b) == At(f1, c);
    }
  }

  lemma KeptTrans(log0: seq<Freed>, f0: seq<Extent>, log1: seq<Freed>, f1: seq<Extent>, f2: seq<Extent>)
    requires DataKept(log0, f0, log1, f1) && forall p :: Owns(f2, p) == Owns(f1, p)
    ensures DataKept(log0, f0, log1, f2)
  {
    forall p ensures FreedData(log1, p) + Owns(f2, p) == FreedData(log0, p) + Owns(f0, p) {
      assert Owns(f2, p) == Owns(f1, p);
    }
  }
}
