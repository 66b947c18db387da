/**
  Descent of the extent tree (ext4/extents.c): binary search in index nodes and
  leaves, ext4_find_extent, and the neighbour searches that start from a path.
 */
module ExtentSearch {
  import opened Wrappers
  import opened Extents
  import opened ExtentTree

  // ------------------------------------------------------------ binary search

  /** What a linear scan for the closest index entry finds: the last entry whose
      key is not above b, or the first entry. */
  ghost predicate ClosestKid(kids: seq<Kid>, b: nat, i: nat) {
    && i < |kids|
    && (forall j :: 0 < j <= i ==> kids[j].key <= b)
    && (forall j :: i < j < |kids| ==> b < kids[j].key)
  }

  ghost predicate ClosestExt(exts: seq<Extent>, b: nat, i: nat) {
    && i < |exts|
    && (forall j :: 0 < j <= i ==> exts[j].block <= b)
    && (forall j :: i < j < |exts| ==> b < exts[j].block)
  }

  ghost predicate KeysIncreasing(kids: seq<Kid>) {
    forall i, j :: 0 <= i < j < |kids| ==> kids[i].key < kids[j].key
  }

  ghost predicate StartsIncreasing(exts: seq<Extent>) {
    forall i, j :: 0 <= i < j < |exts| ==> exts[i].block < exts[j].block
  }

  /** ext4_ext_binsearch_idx */
  method BinSearchIdx(kids: seq<Kid>, b: nat) returns (i: nat)
    requires kids != [] && KeysIncreasing(kids)
    ensures ClosestKid(kids, b, i)
  {
    var l, r := 1, |kids| - 1;
    while l <= r
      invariant 1 <= l <= r + 1 <= |kids|
      invariant forall j :: 0 < j < l ==> kids[j].key <= b
      invariant forall j :: r < j < |kids| ==> b < kids[j].key
    {
      var m := l + (r - l) / 2;
      if b < kids[m].key {
        r := m - 1;
      } else {
        l := m + 1;
      }
    }
    i := l - 1;
  }

  /** ext4_ext_binsearch: an empty leaf has no closest extent. */
  method BinSearchExt(exts: seq<Extent>, b: nat) returns (i: Option<nat>)
    requires StartsIncreasing(exts)
    ensures i.None? <==> exts == []
    ensures i.Some? ==> ClosestExt(exts, b, i.value)
  {
    if exts == [] {
      return None;
    }
    var l, r := 1, |exts| - 1;
    while l <= r
      invariant 1 <= l <= r + 1 <= |exts|
      invariant forall j :: 0 < j < l ==> exts[j].block <= b
      invariant forall j :: r < j < |exts| ==> b < exts[j].block
    {
      var m := l + (r - l) / 2;
      if b < exts[m].block {
        r := m - 1;
      } else {
        l := m + 1;
      }
    }
    i := Some(l - 1);
  }

  // ------------------------------------------------------------------ descent

  /** Every step of pos is the closest entry for b. */
  ghost predicate Follows(t: Tree, pos: seq<nat>, b: nat)
    decreases |pos|
  {
    pos == [] ||
    (t.Node? && ClosestKid(t.kids, b, pos[0]) && Follows(t.kids[pos[0]].sub, pos[1..], b))
  }

  /** A tree on which the descent works: uniform depth, index keys increasing. Leaves may be empty. */
  ghost predicate Searchable(t: Tree, d: nat)
    decreases t
  {
    match t
    case Leaf(exts) => d == 0 && StartsIncreasing(exts)
    case Node(kids) => 0 < d && kids != [] && KeysIncreasing(kids) && SearchableKids(kids, d - 1)
  }

  ghost predicate SearchableKids(kids: seq<Kid>, d: nat)
    decreases kids
  {
    forall i :: 0 <= i < |kids| ==> SearchableKid(kids[i], d)
  }

  ghost predicate SearchableKid(k: Kid, d: nat)
    decreases k
  {
    Searchable(k.sub, d)
  }

  /** A path with the position of the closest extent, None for an empty leaf. */
  datatype Path = Path(pos: seq<nat>, ext: Option<nat>)

  ghost predicate PathFor(t: Tree, path: Path, b: nat) {
    && Follows(t, path.pos, b)
    && Reaches(t, path.pos)
    && Sub(t, path.pos).Leaf?
    && var exts := Sub(t, path.pos).exts;
       match path.ext
       case None => exts == []
       case Some(p) => exts != [] && ClosestExt(exts, b, p)
  }

  lemma {:induction false} FollowsSnoc(t: Tree, pos: seq<nat>, b: nat, i: nat)
    requires Follows(t, pos, b) && Reaches(t, pos)
    requires Sub(t, pos).Node? && ClosestKid(Sub(t, pos).kids, b, i)
    ensures Follows(t, pos + [i], b)
    ensures Reaches(t, pos + [i]) && Sub(t, pos + [i]) == Sub(t, pos).kids[i].sub
    decreases |pos|
  {
    if pos == [] {
      assert pos + [i] == [i];
      assert [i][1..] == [];
    } else {
      assert (pos + [i])[0] == pos[0] && (pos + [i])[1..] == pos[1..] + [i];
      FollowsSnoc(t.kids[pos[0]].sub, pos[1..], b, i);
    }
  }

  /** The descent is deterministic. */
  lemma {:induction false} FollowsUnique(t: Tree, p: seq<nat>, q: seq<nat>, b: nat)
    requires Follows(t, p, b) && Follows(t, q, b) && |p| == |q|
    ensures p == q
    decreases |p|
  {
    if p != [] {
      assert p[0] == q[0];
      FollowsUnique(t.kids[p[0]].sub, p[1..], q[1..], b);
      assert p == [p[0]] + p[1..] && q == [q[0]] + q[1..];
    }
  }

  /** ext4_find_extent on a tree of depth d. */
  method FindExtent(t: Tree, d: nat, b: nat) returns (path: Path)
    requires Searchable(t, d)
    ensures PathFor(t, path, b) && |path.pos| == d
  {
    var pos: seq<nat> := [];
    var node := t;
    var i := d;
    while i > 0
      invariant 0 <= i <= d && |pos| == d - i
      invariant Follows(t, pos, b) && Reaches(t, pos) && node == Sub(t, pos)
      invariant Searchable(node, i)
    {
      var k := BinSearchIdx(node.kids, b);
      FollowsSnoc(t, pos, b, k);
      assert SearchableKid(node.kids[k], i - 1);
      pos, node, i := pos + [k], node.kids[k].sub, i - 1;
    }
    var p := BinSearchExt(node.exts, b);
    path := Path(pos, p);
  }

  // ------------------------------------- what the descent means on a good tree

  lemma KidsApart(kids: seq<Kid>, i: nat, j: nat)
    requires i < j < |kids| && Sorted(FlatKids(kids))
    ensures Sorted(FlatKid(kids[i])) && Sorted(FlatKid(kids[j]))
    ensures forall x, y :: 0 <= x < |FlatKid(kids[i])| && 0 <= y < |FlatKid(kids[j])| ==>
              End(FlatKid(kids[i])[x]) <= FlatKid(kids[j])[y].block
  {
    FlatKidsAt(kids, j);
    var a, m, c := FlatKids(kids[..j]), FlatKid(kids[j]), FlatKids(kids[j+1..]);
    SortedParts(a + m, c);
    SortedParts(a, m);
    FlatKidsAt(kids[..j], i);
    var a', m', c' := FlatKids(kids[..j][..i]), FlatKid(kids[i]), FlatKids(kids[..j][i+1..]);
    assert a == a' + m' + c';
    SortedParts(a' + m', c');
    SortedParts(a', m');
    forall x, y | 0 <= x < |m'| && 0 <= y < |m| ensures End(m'[x]) <= m[y].block {
      assert a[|a'| + x] == m'[x];
    }
  }

  lemma KidSorted(kids: seq<Kid>, i: nat)
    requires i < |kids| && Sorted(FlatKids(kids))
    ensures Sorted(FlatKid(kids[i]))
  {
    FlatKidsAt(kids, i);
    var a, m, c := FlatKids(kids[..i]), FlatKid(kids[i]), FlatKids(kids[i+1..]);
    SortedParts(a + m, c);
    SortedParts(a, m);
  }

  lemma KeysSorted(g: Geometry, kids: seq<Kid>, d: nat)
    requires KidsFit(g, kids, d) && Sorted(FlatKids(kids))
    ensures KeysIncreasing(kids)
  {
    forall i, j | 0 <= i < j < |kids| ensures kids[i].key < kids[j].key {
      assert KidFits(g, kids[i], d) && KidFits(g, kids[j], d);
      FitsNonEmpty(g, kids[i].sub, d, false);
      FitsNonEmpty(g, kids[j].sub, d, false);
      KidsApart(kids, i, j);
      assert ValidExtent(FlatKid(kids[i])[0]);
    }
  }

  lemma {:induction false} FitsSearchable(g: Geometry, t: Tree, d: nat, top: bool)
    requires Fits(g, t, d, top) && Sorted(Flat(t))
    ensures Searchable(t, d)
    decreases t
  {
    match t
    case Leaf(exts) =>
      assert forall i :: 0 <= i < |exts| ==> ValidExtent(exts[i]);
    case Node(kids) =>
      KeysSorted(g, kids, d - 1);
      forall i | 0 <= i < |kids| ensures SearchableKid(kids[i], d - 1) {
        assert KidFits(g, kids[i], d - 1);
        KidSorted(kids, i);
        FitsSearchable(g, kids[i].sub, d - 1, false);
      }
  }

  lemma SideFacts(g: Geometry, t: Tree, d: nat, top: bool, pos: seq<nat>)
    requires Fits(g, t, d, top) && Sorted(Flat(t)) && Reaches(t, pos) && pos != [] && d > 0
    ensures KidFits(g, t.kids[pos[0]], d - 1) && Sorted(Flat(t.kids[pos[0]].sub))
    ensures KeysIncreasing(t.kids)
    ensures pos[0] > 0 ==> FlatKids(t.kids[..pos[0]]) != []
    ensures pos[0] + 1 < |t.kids| ==>
              FlatKids(t.kids[pos[0]+1..]) != [] &&
              FlatKids(t.kids[pos[0]+1..])[0].block == t.kids[pos[0]+1].key
  {
    var kids, i := t.kids, pos[0];
    KeysSorted(g, kids, d - 1);
    KidSorted(kids, i);
    assert KidFits(g, kids[i], d - 1);
    if i > 0 {
      assert kids[..i][0] == kids[0];
      assert KidsFit(g, kids[..i], d - 1) by {
        forall j | 0 <= j < i ensures KidFits(g, kids[..i][j], d - 1) { assert KidFits(g, kids[j], d - 1); }
      }
      FirstKid(g, kids[..i], d - 1);
      assert FlatKids(kids[..i]) == FlatKid(kids[0]) + FlatKids(kids[..i][1..]);
    }
    if i + 1 < |kids| {
      var r := kids[i+1..];
      assert KidsFit(g, r, d - 1) by {
        forall j | 0 <= j < |r| ensures KidFits(g, r[j], d - 1) { assert KidFits(g, kids[i+1+j], d - 1); }
      }
      FirstKid(g, r, d - 1);
      assert FlatKids(r) == FlatKid(r[0]) + FlatKids(r[1..]);
    }
  }

  /** Where the descent for b lands: everything to the right starts after b, and
      unless the landing node is the leftmost, it starts at or before b. */
  lemma {:induction false} Bracket(g: Geometry, t: Tree, d: nat, top: bool, pos: seq<nat>, b: nat)
    requires Fits(g, t, d, top) && Sorted(Flat(t))
    requires Follows(t, pos, b) && Reaches(t, pos)
    ensures Before(t, pos) != [] ==> First(Sub(t, pos)) <= b
    ensures After(t, pos) != [] ==> b < After(t, pos)[0].block
    decreases |pos|
  {
    if pos != [] {
      var kids, i, rest := t.kids, pos[0], pos[1..];
      var k := kids[i];
      SideFacts(g, t, d, top, pos);
      Bracket(g, k.sub, d - 1, false, rest, b);
      if i > 0 && Before(k.sub, rest) == [] { FirstLeftmost(g, k.sub, d - 1, rest); }
    }
  }

  /** A node with nothing before it starts where the tree starts. */
  lemma FirstLeftmost(g: Geometry, t: Tree, d: nat, pos: seq<nat>)
    requires Fits(g, t, d, false) && Reaches(t, pos) && Before(t, pos) == []
    ensures Flat(t) != [] && Flat(Sub(t, pos)) != [] && First(Sub(t, pos)) == First(t)
  {
    SubFlat(t, pos);
    FitsSub(g, t, d, false, pos);
    FitsNonEmpty(g, Sub(t, pos), d - |pos|, false);
  }

  /** The converse: a position with those two properties is the one the descent finds. */
  lemma {:induction false} BracketFollows(g: Geometry, t: Tree, d: nat, top: bool, pos: seq<nat>, b: nat)
    requires Fits(g, t, d, top) && Sorted(Flat(t)) && Reaches(t, pos)
    requires Before(t, pos) != [] ==> First(Sub(t, pos)) <= b
    requires After(t, pos) != [] ==> b < After(t, pos)[0].block
    ensures Follows(t, pos, b)
    decreases |pos|
  {
    if pos != [] {
      var kids, i, rest := t.kids, pos[0], pos[1..];
      var k := kids[i];
      SideFacts(g, t, d, top, pos);
      FirstBelow(g, k.sub, d - 1, rest);
      BracketFollows(g, k.sub, d - 1, false, rest, b);
      assert ClosestKid(kids, b, i) by {
        forall j | i < j < |kids| ensures b < kids[j].key {
          AfterBelowKey(t, pos, j, Flat(t));
        }
      }
    }
  }

  /** A node starts no later than any node below it. */
  lemma FirstBelow(g: Geometry, t: Tree, d: nat, pos: seq<nat>)
    requires Fits(g, t, d, false) && Sorted(Flat(t)) && Reaches(t, pos)
    ensures First(t) <= First(Sub(t, pos))
  {
    SubFlat(t, pos);
    FitsSub(g, t, d, false, pos);
    FitsNonEmpty(g, Sub(t, pos), d - |pos|, false);
    var f, x := Flat(t), |Before(t, pos)|;
    assert f[x] == Flat(Sub(t, pos))[0];
    assert f[0].block <= f[x].block;
  }

  /** The first extent right of pos is no later than the key of any later sibling. */
  lemma AfterBelowKey(t: Tree, pos: seq<nat>, j: nat, f: seq<Extent>)
    requires Reaches(t, pos) && pos != [] && pos[0] < j < |t.kids|
    requires f == Flat(t) && Sorted(f) && KeysIncreasing(t.kids)
    requires FlatKids(t.kids[pos[0]+1..]) != [] &&
             FlatKids(t.kids[pos[0]+1..])[0].block == t.kids[pos[0]+1].key
    ensures After(t, pos) != [] && After(t, pos)[0].block <= t.kids[j].key
  {
    var r := FlatKids(t.kids[pos[0]+1..]);
    var a := After(t.kids[pos[0]].sub, pos[1..]);
    SubFlat(t, pos);
    SortedParts(Before(t, pos) + Flat(Sub(t, pos)), After(t, pos));
    var u := After(t, pos);
    assert u == a + r;
    assert u[|a|] == r[0];
    assert u[0].block <= u[|a|].block;
    assert t.kids[pos[0]+1].key <= t.kids[j].key;
  }

  /** The descent looks at keys only, so it does not notice a rewritten landing node. */
  lemma {:induction false} FollowsPut(t: Tree, pos: seq<nat>, s: Tree, b: nat)
    requires Follows(t, pos, b) && Reaches(t, pos)
    ensures Follows(Put(t, pos, s), pos, b)
    decreases |pos|
  {
    if pos != [] {
      FollowsPut(t.kids[pos[0]].sub, pos[1..], s, b);
      var kids' := Put(t, pos, s).kids;
      assert forall j :: 0 <= j < |kids'| ==> kids'[j].key == t.kids[j].key;
    }
  }

  lemma {:induction false} SearchablePut(t: Tree, d: nat, pos: seq<nat>, s: Tree)
    requires Searchable(t, d) && Reaches(t, pos) && |pos| <= d && Searchable(s, d - |pos|)
    ensures Searchable(Put(t, pos, s), d)
    decreases |pos|
  {
    if pos != [] {
      var kids := t.kids;
      assert SearchableKid(kids[pos[0]], d - 1);
      SearchablePut(kids[pos[0]].sub, d - 1, pos[1..], s);
      var kids' := Put(t, pos, s).kids;
      assert forall j :: 0 <= j < |kids'| ==> kids'[j].key == kids[j].key;
      forall j | 0 <= j < |kids'| ensures SearchableKid(kids'[j], d - 1) {
        assert j != pos[0] ==> SearchableKid(kids[j], d - 1);
      }
    }
  }
}
