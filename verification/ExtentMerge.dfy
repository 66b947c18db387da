/**
  Merging neighbouring extents inside one leaf (ext4/extents.c). A recut of a
  sequence of extents maps the same logical blocks to the same physical blocks,
  starts and ends at the same places and has no extent that starts anew.
 */
module ExtentMerge {
  import opened Extents

  /** The blocks at which an extent starts. */
  ghost function Starts(s: seq<Extent>): set<nat> {
    set e | e in s :: e.block
  }

  lemma StartsConcat(s: seq<Extent>, t: seq<Extent>)
    ensures Starts(s + t) == Starts(s) + Starts(t)
  {
    forall e ensures e in s + t <==> e in s || e in t { }
  }

  ghost predicate Recut(s: seq<Extent>, s': seq<Extent>) {
    && Sorted(s) && Sorted(s') && SameMap(s, s')
    && (forall p :: Owns(s, p) == Owns(s', p))
    && (s == [] <==> s' == [])
    && (s != [] ==> s[0].block == s'[0].block && End(s[|s|-1]) == End(s'[|s'|-1]))
    && Starts(s') <= Starts(s)
  }

  lemma RecutSelf(s: seq<Extent>)
    requires Sorted(s)
    ensures Recut(s, s)
  {
  }

  lemma RecutTrans(s: seq<Extent>, s': seq<Extent>, s'': seq<Extent>)
    requires Recut(s, s') && Recut(s', s'')
    ensures Recut(s, s'')
  {
    forall b: nat ensures At(s, b) == At(s'', b) { assert At(s, b) == At(s', b); }
  }

  lemma SortedMiddle(a: seq<Extent>, s: seq<Extent>, s': seq<Extent>, c: seq<Extent>)
    requires Sorted(a + s + c) && Sorted(s') && s != [] && s' != []
    requires s[0].block <= s'[0].block && End(s'[|s'|-1]) <= End(s[|s|-1])
    ensures Sorted(a + s' + c)
  {
    SortedParts(a + s, c);
    SortedParts(a, s);
    SortedJoin(a, s');
    if c != [] {
      assert (a + s)[|a + s| - 1] == s[|s|-1];
      assert (a + s')[|a + s'| - 1] == s'[|s'|-1];
    }
    SortedJoin(a + s', c);
  }

  lemma RecutMiddle(a: seq<Extent>, s: seq<Extent>, s': seq<Extent>, c: seq<Extent>)
    requires Sorted(a + s + c) && Recut(s, s')
    ensures Recut(a + s + c, a + s' + c)
  {
    if s == [] {
      assert s' == [];
    } else {
      SortedMiddle(a, s, s', c);
      SameMiddle(a, s, s', c);
      RecutEnds(a, s, s', c);
    }
    forall p ensures Owns(a + s + c, p) == Owns(a + s' + c, p) {
      OwnsConcat(a + s, c, p); OwnsConcat(a, s, p);
      OwnsConcat(a + s', c, p); OwnsConcat(a, s', p);
    }
    StartsMiddle(a, s, s', c);
  }

  lemma StartsMiddle(a: seq<Extent>, s: seq<Extent>, s': seq<Extent>, c: seq<Extent>)
    requires Starts(s') <= Starts(s)
    ensures Starts(a + s' + c) <= Starts(a + s + c)
  {
    StartsConcat(a + s, c); StartsConcat(a, s);
    StartsConcat(a + s', c); StartsConcat(a, s');
  }

  lemma RecutEnds(a: seq<Extent>, s: seq<Extent>, s': seq<Extent>, c: seq<Extent>)
    requires s != [] && s' != []
    requires s[0].block == s'[0].block && End(s[|s|-1]) == End(s'[|s'|-1])
    ensures (a + s + c)[0].block == (a + s' + c)[0].block
    ensures var u, u' := a + s + c, a + s' + c; End(u[|u|-1]) == End(u'[|u'|-1])
  {
    if c == [] {
      assert a + s + c == a + s && a + s' + c == a + s';
    }
  }

  // ------------------------------------------------------------- one merge

  /** ext4_can_extents_be_merged; pendingIo stands for in-flight writes to unwritten extents. */
  predicate CanMerge(pendingIo: bool, e: Extent, f: Extent) {
    && Unwritten(e) == Unwritten(f)
    && End(e) == f.block
    && Len(e) + Len(f) <= INIT_MAX_LEN
    && !(Unwritten(e) && (pendingIo || Len(e) + Len(f) > UNWRITTEN_MAX_LEN))
    && e.pblk + Len(e) == f.pblk
  }

  /** f goes on where e ends: the next logical and the next physical block, the same state, together not longer than an
      extent of that state can be, and no write to them in flight if they are unwritten. */
  ghost predicate Extends(pendingIo: bool, e: Extent, f: Extent) {
    && f.block == e.block + Len(e) && f.pblk == e.pblk + Len(e) && (Unwritten(e) <==> Unwritten(f))
    && Len(e) + Len(f) <= (if Unwritten(e) then 0x7fff else 0x8000) && !(Unwritten(e) && pendingIo)
  }

  lemma CanMergeIff(pendingIo: bool, e: Extent, f: Extent)
    ensures CanMerge(pendingIo, e, f) <==> Extends(pendingIo, e, f)
  {
  }

  function Merged(e: Extent, f: Extent): Extent
    requires 0 < Len(e) + Len(f) <= if Unwritten(e) then UNWRITTEN_MAX_LEN else INIT_MAX_LEN
  {
    Make(e.block, Len(e) + Len(f), e.pblk, Unwritten(e))
  }

  lemma MergeTwo(pendingIo: bool, e: Extent, f: Extent)
    requires ValidExtent(e) && ValidExtent(f) && CanMerge(pendingIo, e, f)
    ensures Recut([e, f], [Merged(e, f)])
  {
    var m := Merged(e, f);
    forall b: nat ensures At([e, f], b) == At([m], b) {
      assert [e, f] == [e] + [f];
      AtConcat([e], [f], b);
      AtOne(e, b); AtOne(f, b); AtOne(m, b);
    }
    forall p ensures Owns([e, f], p) == Owns([m], p) {
      assert [e, f] == [e] + [f];
      OwnsConcat([e], [f], p);
      OwnsOne(e, p); OwnsOne(f, p); OwnsOne(m, p);
    }
    assert Starts([m]) <= Starts([e, f]) by { assert e in [e, f]; }
  }

  /** exts with entries i and i + 1 replaced by their merge. */
  function MergeAt(exts: seq<Extent>, i: nat): seq<Extent>
    requires i + 1 < |exts|
    requires 0 < Len(exts[i]) + Len(exts[i+1]) <= if Unwritten(exts[i]) then UNWRITTEN_MAX_LEN else INIT_MAX_LEN
  {
    exts[..i] + [Merged(exts[i], exts[i+1])] + exts[i+2..]
  }

  lemma MergeAtRecut(pendingIo: bool, exts: seq<Extent>, i: nat)
    requires Sorted(exts) && i + 1 < |exts| && CanMerge(pendingIo, exts[i], exts[i+1])
    ensures Recut(exts, MergeAt(exts, i))
  {
    var e, f := exts[i], exts[i+1];
    assert exts == exts[..i] + [e, f] + exts[i+2..];
    MergeTwo(pendingIo, e, f);
    RecutMiddle(exts[..i], [e, f], [Merged(e, f)], exts[i+2..]);
  }

  /** What merging to the right of entry i may have done so far. A second merge needs a
      third extent that touches the second. */
  ghost predicate MergedRight(pendingIo: bool, exts: seq<Extent>, i: nat, r: seq<Extent>)
    requires Sorted(exts)
  {
    && i < |r| <= |exts| && r[..i] == exts[..i] && r[i].block == exts[i].block
    && (|r| == |exts| ==> r == exts)
    && (|r| + 1 == |exts| ==>
          && CanMerge(pendingIo, exts[i], exts[i+1]) && ValidExtent(exts[i]) && r == MergeAt(exts, i))
    && (i + 2 < |exts| && End(exts[i+1]) < exts[i+2].block ==> |r| + 1 >= |exts|)
  }

  /** Nothing is left to merge to the right of entry i. */
  ghost predicate MergedFrom(pendingIo: bool, exts: seq<Extent>, i: nat, r: seq<Extent>)
    requires Sorted(exts)
  {
    MergedRight(pendingIo, exts, i, r) && (i + 1 < |r| ==> !CanMerge(pendingIo, r[i], r[i+1]))
  }

  lemma MergeAtParts(exts: seq<Extent>, i: nat)
    requires i + 1 < |exts| && End(exts[i]) == exts[i+1].block
    requires 0 < Len(exts[i]) + Len(exts[i+1]) <= if Unwritten(exts[i]) then UNWRITTEN_MAX_LEN else INIT_MAX_LEN
    ensures var r := MergeAt(exts, i);
            && |r| + 1 == |exts| && r[..i] == exts[..i] && r[i].block == exts[i].block
            && End(r[i]) == End(exts[i+1]) && r[i+1..] == exts[i+2..]
  {
  }

  lemma MergedRightStep(pendingIo: bool, exts: seq<Extent>, i: nat, r: seq<Extent>)
    requires Sorted(exts) && Sorted(r) && MergedRight(pendingIo, exts, i, r)
    requires i + 1 < |r| && CanMerge(pendingIo, r[i], r[i+1])
    ensures ValidExtent(r[i]) && ValidExtent(r[i+1]) && MergedRight(pendingIo, exts, i, MergeAt(r, i))
  {
    assert ValidExtent(r[i]) && ValidExtent(r[i+1]);
    MergeAtParts(r, i);
    if |r| + 1 == |exts| {
      assert ValidExtent(exts[i]) && ValidExtent(exts[i+1]);
      MergeAtParts(exts, i);
      assert r[i+1] == r[i+1..][0] == exts[i+2..][0];
    }
  }

  /** ext4_ext_try_to_merge_right */
  method TryToMergeRight(pendingIo: bool, exts: seq<Extent>, i: nat) returns (r: seq<Extent>, merged: bool)
    requires Sorted(exts) && i < |exts|
    ensures Recut(exts, r) && MergedFrom(pendingIo, exts, i, r)
    ensures merged <==> |r| < |exts|
    ensures merged <==> i + 1 < |exts| && CanMerge(pendingIo, exts[i], exts[i+1])
  {
    r, merged := exts, false;
    RecutSelf(exts);
    while i + 1 < |r|
      invariant Recut(exts, r) && MergedRight(pendingIo, exts, i, r)
      invariant merged <==> |r| < |exts|
      invariant merged ==> i + 1 < |exts| && CanMerge(pendingIo, exts[i], exts[i+1])
      decreases |r|
    {
      if !CanMerge(pendingIo, r[i], r[i+1]) {
        return;
      }
      MergedRightStep(pendingIo, exts, i, r);
      MergeAtRecut(pendingIo, r, i);
      RecutTrans(exts, r, MergeAt(r, i));
      r, merged := MergeAt(r, i), true;
    }
  }

  /** Entry i can be merged with the one before it or the one behind it. */
  ghost predicate Mergeable(pendingIo: bool, exts: seq<Extent>, i: nat)
    requires i < |exts|
  {
    || (i > 0 && CanMerge(pendingIo, exts[i-1], exts[i]))
    || (i + 1 < |exts| && CanMerge(pendingIo, exts[i], exts[i+1]))
  }

  /** The leaf part of ext4_ext_try_to_merge: everything that can be merged is, from the left neighbour on if
      that one takes the entry, else from the entry on. */
  method TryToMerge(pendingIo: bool, exts: seq<Extent>, i: nat) returns (r: seq<Extent>)
    requires Sorted(exts) && i < |exts|
    ensures Recut(exts, r) && 0 < |r| <= |exts|
    ensures |r| < |exts| <==> Mergeable(pendingIo, exts, i)
    ensures |r| == |exts| ==> r == exts
    ensures var j := if i > 0 && CanMerge(pendingIo, exts[i-1], exts[i]) then i - 1 else i;
            MergedFrom(pendingIo, exts, j, r)
  {
    var merged := false;
    if i > 0 {
      r, merged := TryToMergeRight(pendingIo, exts, i - 1);
      if merged {
        return;
      }
    }
    // nothing has changed so far
    r, merged := TryToMergeRight(pendingIo, exts, i);
  }
}
