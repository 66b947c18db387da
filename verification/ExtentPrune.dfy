/**
  Which blocks of an extent tree go away with a range of the file (ext4/extents.c): those of
  nodes below which nothing is left.
 */
module ExtentPrune {
  import opened Extents
  import opened ExtentTree
  import opened ExtentInsert
  import opened ExtentCut
  import opened ExtentWalk

  /** The tree without the blocks start..end of the file and without nodes that hold nothing else. Keys do not
      matter. */
  ghost function Prune(t: Tree, start: nat, end: nat): Tree
    decreases t
  {
    match t
    case Leaf(exts) => Leaf(Cut(exts, start, end))
    case Node(kids) => Node(PruneKids(kids, start, end))
  }

  ghost function PruneKids(kids: seq<Kid>, start: nat, end: nat): seq<Kid>
    decreases kids
  {
    if kids == [] then [] else PruneKid(kids[0], start, end) + PruneKids(kids[1..], start, end)
  }

  ghost function PruneKid(k: Kid, start: nat, end: nat): seq<Kid>
    decreases k
  {
    var s := Prune(k.sub, start, end);
    if Flat(s) == [] then [] else [Kid(0, k.blk, s)]
  }

  lemma {:induction false} PruneKidsConcat(a: seq<Kid>, b: seq<Kid>, start: nat, end: nat)
    ensures PruneKids(a + b, start, end) == PruneKids(a, start, end) + PruneKids(b, start, end)
  {
    if a == [] {
      assert a + b == b;
    } else {
      assert (a + b)[0] == a[0] && (a + b)[1..] == a[1..] + b;
      PruneKidsConcat(a[1..], b, start, end);
    }
  }

  lemma PruneKidsAt(kids: seq<Kid>, i: nat, start: nat, end: nat)
    requires i < |kids|
    ensures PruneKids(kids, start, end) ==
            PruneKids(kids[..i], start, end) + PruneKid(kids[i], start, end) + PruneKids(kids[i+1..], start, end)
  {
    assert kids == kids[..i] + kids[i..] && kids[i..][1..] == kids[i+1..];
    PruneKidsConcat(kids[..i], kids[i..], start, end);
  }

  /** What is left is the cut of what was there. */
  lemma {:induction false} PruneFlat(t: Tree, start: nat, end: nat)
    ensures Flat(Prune(t, start, end)) == Cut(Flat(t), start, end)
    decreases t
  {
    match t
    case Leaf(_) =>
    case Node(kids) => PruneKidsFlat(kids, start, end);
  }

  lemma {:induction false} PruneKidsFlat(kids: seq<Kid>, start: nat, end: nat)
    ensures FlatKids(PruneKids(kids, start, end)) == Cut(FlatKids(kids), start, end)
    decreases kids
  {
    if kids != [] {
      var k, rest := kids[0], kids[1..];
      PruneKidFlat(k, start, end);
      PruneKidsFlat(rest, start, end);
      FlatKidsConcat(PruneKid(k, start, end), PruneKids(rest, start, end));
      CutConcat(FlatKid(k), FlatKids(rest), start, end);
    }
  }

  lemma {:induction false} PruneKidFlat(k: Kid, start: nat, end: nat)
    ensures FlatKids(PruneKid(k, start, end)) == Cut(FlatKid(k), start, end)
    decreases k
  {
    PruneFlat(k.sub, start, end);
    if PruneKid(k, start, end) != [] { FlatKidsOne(PruneKid(k, start, end)[0]); }
  }

  // ------------------------------------------------------ what changes nothing

  /** Writing a node that leaves the same behind. */
  lemma {:induction false} PrunePut(t: Tree, pos: seq<nat>, s: Tree, start: nat, end: nat)
    requires Reaches(t, pos) && Prune(s, start, end) == Prune(Sub(t, pos), start, end)
    ensures Prune(Put(t, pos, s), start, end) == Prune(t, start, end)
    decreases |pos|
  {
    if pos != [] {
      var i, k := pos[0], t.kids[pos[0]];
      PrunePut(k.sub, pos[1..], s, start, end);
      KidUpdate(t.kids, i, k.(sub := Put(k.sub, pos[1..], s)), start, end);
    }
  }

  lemma KidUpdate(kids: seq<Kid>, i: nat, k: Kid, start: nat, end: nat)
    requires i < |kids| && PruneKid(k, start, end) == PruneKid(kids[i], start, end)
    ensures PruneKids(kids[i := k], start, end) == PruneKids(kids, start, end)
  {
    var kids' := kids[i := k];
    assert kids'[..i] == kids[..i] && kids'[i+1..] == kids[i+1..];
    PruneKidsAt(kids, i, start, end);
    PruneKidsAt(kids', i, start, end);
  }

  /** Correcting keys. */
  lemma {:induction false} PruneKeyed(t: Tree, pos: seq<nat>, s: Tree, start: nat, end: nat)
    requires Reaches(t, pos)
    ensures Prune(PutKeyed(t, pos, s), start, end) == Prune(Put(t, pos, s), start, end)
    decreases |pos|
  {
    if pos != [] {
      var i, k := pos[0], t.kids[pos[0]];
      var kids, s' := Put(t, pos, s).kids, PutKeyed(k.sub, pos[1..], s);
      PruneKeyed(k.sub, pos[1..], s, start, end);
      KidUpdate(kids, i, Kid(First(s'), k.blk, s'), start, end);
      assert PutKeyed(t, pos, s).kids == kids[i := Kid(First(s'), k.blk, s')];
    }
  }

  lemma {:induction false} CutTwice(s: seq<Extent>, start: nat, end: nat)
    requires Sorted(s)
    ensures Cut(Cut(s, start, end), start, end) == Cut(s, start, end)
    ensures forall e :: e in Cut(s, start, end) ==> end < e.block || End(e) <= start
  {
    if s != [] {
      assert ValidExtent(s[0]);
      TailSorted(s);
      CutTwice(s[1..], start, end);
      var a := Trim(s[0], start, end);
      CutConcat(a, Cut(s[1..], start, end), start, end);
      assert forall i :: 0 <= i < |a| ==> end < a[i].block || End(a[i]) <= start;
      CutOutside(a, start, end);
    }
  }

  /** Cutting a leaf. */
  lemma PruneLeaf(t: Tree, pos: seq<nat>, start: nat, end: nat)
    requires Reaches(t, pos) && Sub(t, pos).Leaf? && Sorted(Sub(t, pos).exts)
    ensures var cut := Leaf(Cut(Sub(t, pos).exts, start, end));
            && Prune(Put(t, pos, cut), start, end) == Prune(t, start, end)
            && Prune(PutKeyed(t, pos, cut), start, end) == Prune(t, start, end)
  {
    var exts := Sub(t, pos).exts;
    CutTwice(exts, start, end);
    PrunePut(t, pos, Leaf(Cut(exts, start, end)), start, end);
    PruneKeyed(t, pos, Leaf(Cut(exts, start, end)), start, end);
  }

  /** Removing an empty node, whose index was not empty in tree t0. */
  lemma PruneEmpty(t: Tree, t0: Tree, pos: seq<nat>, start: nat, end: nat)
    requires pos != [] && Reaches(t0, pos) && Reaches(t, pos) && t == Put(t0, pos, Sub(t, pos)) &&
               Entries(Sub(t, pos)) == 0
    requires var q := pos[..|pos|-1]; Reaches(t0, q) && Sub(t0, q).Node? && pos[|pos|-1] < |Sub(t0, q).kids|
    ensures var rest := Node(Without(Sub(t0, pos[..|pos|-1]).kids, pos[|pos|-1]));
            && Prune(Put(t0, pos[..|pos|-1], rest), start, end) == Prune(t, start, end)
            && Prune(PutKeyed(t0, pos[..|pos|-1], rest), start, end) == Prune(t, start, end)
  {
    var q, k := pos[..|pos|-1], pos[|pos|-1];
    var kids, n := Sub(t0, q).kids, Sub(t, pos);
    var rest := Without(kids, k);
    var kids' := kids[k := kids[k].(sub := n)];
    RmIdxStart(t0, pos, t);
    assert Prune(Node(rest), start, end) == Prune(Node(kids'), start, end) by {
      assert Flat(Prune(n, start, end)) == [];
      assert PruneKid(kids'[k], start, end) == [];
      PruneKidsAt(kids', k, start, end);
      PruneKidsConcat(kids[..k], kids[k+1..], start, end);
      assert kids'[..k] == kids[..k] && kids'[k+1..] == kids[k+1..];
    }
    assert Sub(t, q) == Node(kids');
    PrunePut(t, q, Node(rest), start, end);
    PruneKeyed(t0, q, Node(rest), start, end);
  }

  // ------------------------------------------------------------------ the end

  /** A fitting tree without blocks of the range is what is left of it. */
  lemma {:induction false} PruneDone(g: Geometry, t: Tree, d: nat, top: bool, start: nat, end: nat, b: nat)
    requires Fits(g, t, d, top) && forall e :: e in Flat(t) ==> end < e.block || End(e) <= start
    ensures Uses(Prune(t, start, end), b) == Uses(t, b)
    decreases t
  {
    match t
    case Leaf(_) =>
    case Node(kids) => PruneKidsDone(g, kids, d - 1, start, end, b);
  }

  lemma {:induction false} PruneKidsDone(g: Geometry, kids: seq<Kid>, d: nat, start: nat, end: nat, b: nat)
    requires KidsFit(g, kids, d) && forall e :: e in FlatKids(kids) ==> end < e.block || End(e) <= start
    ensures UsesKids(PruneKids(kids, start, end), b) == UsesKids(kids, b)
    decreases kids
  {
    if kids != [] {
      var k, rest := kids[0], kids[1..];
      assert KidFits(g, k, d);
      assert FlatKids(kids) == FlatKid(k) + FlatKids(rest);
      PruneKidDone(g, k, d, start, end, b);
      PruneKidsDone(g, rest, d, start, end, b);
      UsesKidsConcat(PruneKid(k, start, end), PruneKids(rest, start, end), b);
    }
  }

  lemma {:induction false} PruneKidDone(g: Geometry, k: Kid, d: nat, start: nat, end: nat, b: nat)
    requires KidFits(g, k, d) && forall e :: e in FlatKid(k) ==> end < e.block || End(e) <= start
    ensures UsesKids(PruneKid(k, start, end), b) == UsesKid(k, b)
    decreases k
  {
    PruneDone(g, k.sub, d, false, start, end, b);
    PruneFlat(k.sub, start, end);
    CutOutside(Flat(k.sub), start, end);
    FitsNonEmpty(g, k.sub, d, false);
    FlatKidsOne(PruneKid(k, start, end)[0]);
  }
}
