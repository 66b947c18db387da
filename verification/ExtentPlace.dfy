/**
  What it means to add one extent to a file's map, and where the insertion code
  may put it.
 */
module ExtentPlace {
  import opened Wrappers
  import opened Blocks
  import opened Extents
  import opened ExtentMerge

  /** s' maps exactly what s maps, plus the blocks of e. */
  ghost predicate MapsPlus(s: seq<Extent>, e: Extent, s': seq<Extent>) {
    && (forall b: nat :: At(s', b) == if Covers(e, b) then Some(CellOf(e, b)) else At(s, b))
    && (forall p: nat :: Owns(s', p) == Owns(s, p) + InRun(e.pblk, Len(e), p))
  }

  /** s' is s with e put between two of its extents. */
  ghost predicate Placed(s: seq<Extent>, e: Extent, s': seq<Extent>) {
    exists i :: 0 <= i <= |s| && s' == s[..i] + [e] + s[i..]
  }

  lemma PlacedAt(a: seq<Extent>, c: seq<Extent>, e: Extent)
    ensures Placed(a + c, e, a + [e] + c)
  {
    var s, i := a + c, |a|;
    assert s[..i] == a && s[i..] == c;
  }

  lemma PlaceSorted(a: seq<Extent>, c: seq<Extent>, e: Extent)
    requires Sorted(a + c) && ValidExtent(e) && Apart(a + c, e)
    requires a != [] ==> a[|a|-1].block <= e.block
    requires c != [] ==> e.block <= c[0].block
    ensures Sorted(a + [e] + c)
  {
    SortedParts(a, c);
    assert a != [] ==> (a + c)[|a|-1] == a[|a|-1] && ValidExtent(a[|a|-1]);
    assert c != [] ==> (a + c)[|a|] == c[0] && ValidExtent(c[0]);
    SortedJoin(a, [e]);
    assert (a + [e])[|a|] == e;
    SortedJoin(a + [e], c);
  }

  lemma PlaceMaps(a: seq<Extent>, c: seq<Extent>, e: Extent)
    requires Sorted(a + [e] + c)
    ensures MapsPlus(a + c, e, a + [e] + c)
  {
    var s, s' := a + c, a + [e] + c;
    forall b: nat ensures At(s', b) == if Covers(e, b) then Some(CellOf(e, b)) else At(s, b) {
      AtConcat3(a, [e], c, b);
      AtConcat(a, c, b);
      AtOne(e, b);
      if Covers(e, b) {
        assert s'[|a|] == e;
        AtHit(s', |a|, b);
      }
    }
    forall p: nat ensures Owns(s', p) == Owns(s, p) + InRun(e.pblk, Len(e), p) {
      OwnsConcat(a, c, p);
      OwnsConcat(a + [e], c, p);
      OwnsConcat(a, [e], p);
      OwnsOne(e, p);
    }
  }

  lemma PlusRecut(s: seq<Extent>, e: Extent, s': seq<Extent>, s'': seq<Extent>)
    requires MapsPlus(s, e, s') && Recut(s', s'')
    ensures MapsPlus(s, e, s'')
  {
    forall b: nat ensures At(s'', b) == if Covers(e, b) then Some(CellOf(e, b)) else At(s, b) {
      assert At(s', b) == At(s'', b);
    }
  }

  /** Appending e to the extent before it, and prepending it to the one after it. */
  lemma AppendRecut(pendingIo: bool, a: seq<Extent>, x: Extent, e: Extent, c: seq<Extent>)
    requires Sorted(a + [x, e] + c) && ValidExtent(x) && CanMerge(pendingIo, x, e)
    ensures Recut(a + [x, e] + c, a + [Merged(x, e)] + c)
  {
    var s := a + [x, e] + c;
    assert s[|a|] == x && s[|a|+1] == e;
    MergeAtRecut(pendingIo, s, |a|);
    assert s[..|a|] == a && s[|a|+2..] == c;
  }

  lemma Regroup(bf: seq<Extent>, exts: seq<Extent>, af: seq<Extent>, i: nat, y: Extent)
    requires i < |exts|
    ensures bf + exts + af == (bf + exts[..i]) + [exts[i]] + (exts[i+1..] + af)
    ensures bf + exts[i := y] + af == (bf + exts[..i]) + [y] + (exts[i+1..] + af)
  {
    assert exts == exts[..i] + [exts[i]] + exts[i+1..];
    assert exts[i := y] == exts[..i] + [y] + exts[i+1..];
  }

  /** Extending entry i of a leaf at its end. */
  lemma AppendLeaf(pendingIo: bool, bf: seq<Extent>, exts: seq<Extent>, af: seq<Extent>, i: nat, e: Extent)
    requires Sorted(bf + exts + af) && ValidExtent(e) && Apart(bf + exts + af, e)
    requires i < |exts| && ValidExtent(exts[i]) && CanMerge(pendingIo, exts[i], e)
    ensures Sorted(bf + exts[i := Merged(exts[i], e)] + af)
    ensures MapsPlus(bf + exts + af, e, bf + exts[i := Merged(exts[i], e)] + af)
  {
    var a, x, c := bf + exts[..i], exts[i], exts[i+1..] + af;
    Regroup(bf, exts, af, i, Merged(x, e));
    SortedParts(a + [x], c);
    assert (a + [x])[|a|] == x;
    PlaceSorted(a + [x], c, e);
    PlaceMaps(a + [x], c, e);
    assert a + [x] + [e] + c == a + [x, e] + c;
    AppendRecut(pendingIo, a, x, e, c);
    PlusRecut(a + [x] + c, e, a + [x, e] + c, a + [Merged(x, e)] + c);
  }

  /** Extending entry i of a leaf at its start. */
  lemma PrependLeaf(pendingIo: bool, bf: seq<Extent>, exts: seq<Extent>, af: seq<Extent>, i: nat, e: Extent)
    requires Sorted(bf + exts + af) && ValidExtent(e) && Apart(bf + exts + af, e)
    requires i < |exts| && CanMerge(pendingIo, e, exts[i])
    ensures Sorted(bf + exts[i := Merged(e, exts[i])] + af)
    ensures MapsPlus(bf + exts + af, e, bf + exts[i := Merged(e, exts[i])] + af)
  {
    var a, x, c := bf + exts[..i], exts[i], exts[i+1..] + af;
    Regroup(bf, exts, af, i, Merged(e, x));
    var f := a + ([x] + c);
    assert a + [x] + c == f;
    SortedParts(a, [x] + c);
    if a != [] {
      assert f[|a|-1] == a[|a|-1] && f[|a|] == x;
      assert ValidExtent(x) && ValidExtent(a[|a|-1]);
    }
    PlaceSorted(a, [x] + c, e);
    PlaceMaps(a, [x] + c, e);
    assert a + [e] + ([x] + c) == a + [e, x] + c;
    AppendRecut(pendingIo, a, e, x, c);
    PlusRecut(f, e, a + [e, x] + c, a + [Merged(e, x)] + c);
  }

  /** e belongs between entries q - 1 and q of the leaf. */
  ghost predicate GapAt(bf: seq<Extent>, exts: seq<Extent>, af: seq<Extent>, q: nat, e: Extent) {
    && q <= |exts|
    && (0 < q ==> exts[q-1].block <= e.block)
    && (q == 0 && bf != [] ==> bf[|bf|-1].block <= e.block)
    && (q < |exts| ==> e.block <= exts[q].block)
    && (q == |exts| && af != [] ==> e.block <= af[0].block)
  }

  lemma PlaceLeaf(bf: seq<Extent>, exts: seq<Extent>, af: seq<Extent>, q: nat, e: Extent)
    requires Sorted(bf + exts + af) && ValidExtent(e) && Apart(bf + exts + af, e)
    requires GapAt(bf, exts, af, q, e)
    ensures Sorted(bf + (exts[..q] + [e] + exts[q..]) + af)
    ensures MapsPlus(bf + exts + af, e, bf + (exts[..q] + [e] + exts[q..]) + af)
    ensures Placed(bf + exts + af, e, bf + (exts[..q] + [e] + exts[q..]) + af)
  {
    var a, c := bf + exts[..q], exts[q..] + af;
    PlaceGroup(bf, exts, af, q, e);
    if q == 0 { assert a == bf; } else { assert a[|a|-1] == exts[q-1]; }
    if q == |exts| { assert c == af; } else { assert c[0] == exts[q]; }
    PlaceSorted(a, c, e);
    PlaceMaps(a, c, e);
    PlacedAt(a, c, e);
  }

  lemma PlaceGroup(bf: seq<Extent>, exts: seq<Extent>, af: seq<Extent>, q: nat, e: Extent)
    requires q <= |exts|
    ensures bf + exts + af == (bf + exts[..q]) + (exts[q..] + af)
    ensures bf + (exts[..q] + [e] + exts[q..]) + af == (bf + exts[..q]) + [e] + (exts[q..] + af)
  {
    assert exts == exts[..q] + exts[q..];
  }
}
