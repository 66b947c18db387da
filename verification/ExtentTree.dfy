/**
  The shape of an extent tree (ext4/extents.c): leaves hold extents, index
  nodes hold a key, the physical block of the child, and the child. A path is
  the sequence of index positions from the root down. An in-place write to the
  block at level |pos| of a path is Put(root, pos, node).
 */
module ExtentTree {
  import opened Extents

  datatype Tree = Leaf(exts: seq<Extent>) | Node(kids: seq<Kid>)

  datatype Kid = Kid(key: nat, blk: nat, sub: Tree)

  /** Entries that fit in the inode and in a block, as extents and as indexes. */
  datatype Geometry = Geometry(rootLeaf: nat, rootIdx: nat, blockLeaf: nat, blockIdx: nat)

  predicate ValidGeometry(g: Geometry) {
    1 <= g.rootLeaf < g.blockLeaf && 2 <= g.rootIdx <= g.blockIdx
  }

  function LeafCap(g: Geometry, top: bool): nat {
    if top then g.rootLeaf else g.blockLeaf
  }

  function IdxCap(g: Geometry, top: bool): nat {
    if top then g.rootIdx else g.blockIdx
  }

  // ---------------------------------------------------------------- contents

  /** The extents of a tree from left to right. */
  ghost function Flat(t: Tree): seq<Extent>
    decreases t
  {
    match t
    case Leaf(exts) => exts
    case Node(kids) => FlatKids(kids)
  }

  ghost function FlatKids(kids: seq<Kid>): seq<Extent>
    decreases kids
  {
    if kids == [] then [] else FlatKid(kids[0]) + FlatKids(kids[1..])
  }

  ghost function FlatKid(k: Kid): seq<Extent>
    decreases k
  {
    Flat(k.sub)
  }

  /** How many index entries below t point at block b (the root itself lives in the inode). */
  ghost function Uses(t: Tree, b: nat): nat
    decreases t
  {
    match t
    case Leaf(_) => 0
    case Node(kids) => UsesKids(kids, b)
  }

  ghost function UsesKids(kids: seq<Kid>, b: nat): nat
    decreases kids
  {
    if kids == [] then 0 else UsesKid(kids[0], b) + UsesKids(kids[1..], b)
  }

  ghost function UsesKid(k: Kid, b: nat): nat
    decreases k
  {
    (if k.blk == b then 1 else 0) + Uses(k.sub, b)
  }

  ghost function First(t: Tree): nat {
    if Flat(t) == [] then 0 else Flat(t)[0].block
  }

  lemma {:induction false} FlatKidsConcat(a: seq<Kid>, b: seq<Kid>)
    ensures FlatKids(a + b) == FlatKids(a) + FlatKids(b)
  {
    if a == [] {
      assert a + b == b;
    } else {
      assert (a + b)[0] == a[0] && (a + b)[1..] == a[1..] + b;
      FlatKidsConcat(a[1..], b);
    }
  }

  lemma {:induction false} UsesKidsConcat(a: seq<Kid>, b: seq<Kid>, n: nat)
    ensures UsesKids(a + b, n) == UsesKids(a, n) + UsesKids(b, n)
  {
    if a == [] {
      assert a + b == b;
    } else {
      assert (a + b)[0] == a[0] && (a + b)[1..] == a[1..] + b;
      UsesKidsConcat(a[1..], b, n);
    }
  }

  lemma FlatKidsOne(k: Kid)
    ensures FlatKids([k]) == FlatKid(k)
    ensures forall n :: UsesKids([k], n) == UsesKid(k, n)
  {
    assert [k][1..] == [];
  }

  lemma FlatKidsAt(kids: seq<Kid>, i: nat)
    requires i < |kids|
    ensures FlatKids(kids) == FlatKids(kids[..i]) + FlatKid(kids[i]) + FlatKids(kids[i+1..])
  {
    assert kids == kids[..i] + kids[i..];
    FlatKidsConcat(kids[..i], kids[i..]);
    var a, x, y := FlatKids(kids[..i]), FlatKid(kids[i]), FlatKids(kids[i+1..]);
    assert kids[i..][1..] == kids[i+1..];
    assert FlatKids(kids[i..]) == x + y;
    assert a + (x + y) == a + x + y;
  }

  lemma UsesKidsAt(kids: seq<Kid>, i: nat, n: nat)
    requires i < |kids|
    ensures UsesKids(kids, n) == UsesKids(kids[..i], n) + UsesKid(kids[i], n) + UsesKids(kids[i+1..], n)
  {
    assert kids == kids[..i] + ([kids[i]] + kids[i+1..]);
    UsesKidsConcat(kids[..i], [kids[i]] + kids[i+1..], n);
    UsesKidsConcat([kids[i]], kids[i+1..], n);
    FlatKidsOne(kids[i]);
  }

  // ---------------------------------------------------------- well-formedness

  /** Uniform depth d, capacities respected, no empty node below the root, and
      every index key equal to the first block of its subtree. */
  ghost predicate Fits(g: Geometry, t: Tree, d: nat, top: bool)
    decreases t
  {
    match t
    case Leaf(exts) => d == 0 && |exts| <= LeafCap(g, top) && (top || 0 < |exts|)
    case Node(kids) => 0 < d && 0 < |kids| <= IdxCap(g, top) && KidsFit(g, kids, d - 1)
  }

  ghost predicate KidsFit(g: Geometry, kids: seq<Kid>, d: nat)
    decreases kids
  {
    forall i :: 0 <= i < |kids| ==> KidFits(g, kids[i], d)
  }

  ghost predicate KidFits(g: Geometry, k: Kid, d: nat)
    decreases k
  {
    Fits(g, k.sub, d, false) && k.key == First(k.sub)
  }

  /** The invariant of an extent tree of depth d. */
  ghost predicate WellFormed(g: Geometry, t: Tree, d: nat) {
    Fits(g, t, d, true) && Sorted(Flat(t))
  }

  lemma {:induction false} FitsNonEmpty(g: Geometry, t: Tree, d: nat, top: bool)
    requires Fits(g, t, d, top)
    requires !top || d > 0
    ensures Flat(t) != []
    decreases t
  {
    match t
    case Leaf(_) =>
    case Node(kids) =>
      assert KidFits(g, kids[0], d - 1);
      FitsNonEmpty(g, kids[0].sub, d - 1, false);
      assert FlatKids(kids) == FlatKid(kids[0]) + FlatKids(kids[1..]);
  }

  // ------------------------------------------------------------------- paths

  predicate Reaches(t: Tree, pos: seq<nat>)
    decreases |pos|
  {
    pos == [] || (t.Node? && pos[0] < |t.kids| && Reaches(t.kids[pos[0]].sub, pos[1..]))
  }

  function Sub(t: Tree, pos: seq<nat>): Tree
    requires Reaches(t, pos)
    decreases |pos|
  {
    if pos == [] then t else Sub(t.kids[pos[0]].sub, pos[1..])
  }

  function Put(t: Tree, pos: seq<nat>, s: Tree): Tree
    requires Reaches(t, pos)
    decreases |pos|
  {
    if pos == [] then s
    else
      var k := t.kids[pos[0]];
      Node(t.kids[pos[0] := k.(sub := Put(k.sub, pos[1..], s))])
  }

  /** Extents left of, and right of, the subtree at pos; blocks outside it. */
  ghost function Before(t: Tree, pos: seq<nat>): seq<Extent>
    requires Reaches(t, pos)
    decreases |pos|
  {
    if pos == [] then [] else FlatKids(t.kids[..pos[0]]) + Before(t.kids[pos[0]].sub, pos[1..])
  }

  ghost function After(t: Tree, pos: seq<nat>): seq<Extent>
    requires Reaches(t, pos)
    decreases |pos|
  {
    if pos == [] then [] else After(t.kids[pos[0]].sub, pos[1..]) + FlatKids(t.kids[pos[0]+1..])
  }

  ghost function Outside(t: Tree, pos: seq<nat>, n: nat): nat
    requires Reaches(t, pos)
    decreases |pos|
  {
    if pos == [] then 0
    else
      UsesKids(t.kids[..pos[0]], n) + UsesKids(t.kids[pos[0]+1..], n) +
      (if t.kids[pos[0]].blk == n then 1 else 0) + Outside(t.kids[pos[0]].sub, pos[1..], n)
  }

  lemma Nested(a: seq<Extent>, b: seq<Extent>, m: seq<Extent>, c: seq<Extent>, e: seq<Extent>)
    ensures a + (b + m + c) + e == (a + b) + m + (c + e)
  {
  }

  lemma {:induction false} SubFlat(t: Tree, pos: seq<nat>)
    requires Reaches(t, pos)
    ensures Flat(t) == Before(t, pos) + Flat(Sub(t, pos)) + After(t, pos)
    decreases |pos|
  {
    if pos != [] {
      var i, k := pos[0], t.kids[pos[0]];
      FlatKidsAt(t.kids, i);
      SubFlat(k.sub, pos[1..]);
      Nested(FlatKids(t.kids[..i]), Before(k.sub, pos[1..]), Flat(Sub(k.sub, pos[1..])), After(k.sub, pos[1..]),
             FlatKids(t.kids[i+1..]));
    }
  }

  lemma {:induction false} SubUses(t: Tree, pos: seq<nat>, n: nat)
    requires Reaches(t, pos)
    ensures Uses(t, n) == Outside(t, pos, n) + Uses(Sub(t, pos), n)
    decreases |pos|
  {
    if pos != [] {
      UsesKidsAt(t.kids, pos[0], n);
      SubUses(t.kids[pos[0]].sub, pos[1..], n);
    }
  }

  lemma {:induction false} PutReaches(t: Tree, pos: seq<nat>, s: Tree)
    requires Reaches(t, pos)
    ensures Reaches(Put(t, pos, s), pos)
    ensures Sub(Put(t, pos, s), pos) == s
    ensures Before(Put(t, pos, s), pos) == Before(t, pos)
    ensures After(Put(t, pos, s), pos) == After(t, pos)
    ensures forall n :: Outside(Put(t, pos, s), pos, n) == Outside(t, pos, n)
    decreases |pos|
  {
    if pos != [] {
      var i := pos[0];
      var t' := Put(t, pos, s);
      PutReaches(t.kids[i].sub, pos[1..], s);
      assert t'.kids[..i] == t.kids[..i] && t'.kids[i+1..] == t.kids[i+1..];
    }
  }

  lemma PutParts(t: Tree, pos: seq<nat>, s: Tree)
    requires Reaches(t, pos)
    ensures Reaches(Put(t, pos, s), pos)
    ensures Sub(Put(t, pos, s), pos) == s
    ensures Before(Put(t, pos, s), pos) == Before(t, pos)
    ensures After(Put(t, pos, s), pos) == After(t, pos)
    ensures Flat(Put(t, pos, s)) == Before(t, pos) + Flat(s) + After(t, pos)
    ensures forall n :: Uses(Put(t, pos, s), n) == Outside(t, pos, n) + Uses(s, n)
  {
    PutReaches(t, pos, s);
    SubFlat(Put(t, pos, s), pos);
    forall n ensures Uses(Put(t, pos, s), n) == Outside(t, pos, n) + Uses(s, n) {
      SubUses(Put(t, pos, s), pos, n);
    }
  }

  lemma {:induction false} PathConcat(t: Tree, p: seq<nat>, q: seq<nat>)
    requires Reaches(t, p)
    ensures Reaches(t, p + q) <==> Reaches(Sub(t, p), q)
    ensures Reaches(t, p + q) ==> Sub(t, p + q) == Sub(Sub(t, p), q)
    decreases |p|
  {
    if p == [] {
      assert p + q == q;
    } else {
      assert (p + q)[0] == p[0] && (p + q)[1..] == p[1..] + q;
      PathConcat(t.kids[p[0]].sub, p[1..], q);
    }
  }

  lemma {:induction false} SidesConcat(t: Tree, p: seq<nat>, q: seq<nat>)
    requires Reaches(t, p) && Reaches(Sub(t, p), q) && Reaches(t, p + q)
    ensures Before(t, p + q) == Before(t, p) + Before(Sub(t, p), q)
    ensures After(t, p + q) == After(Sub(t, p), q) + After(t, p)
    decreases |p|
  {
    if p == [] {
      assert p + q == q;
    } else {
      assert (p + q)[0] == p[0] && (p + q)[1..] == p[1..] + q;
      var k, n := p[0], t.kids[p[0]].sub;
      SidesConcat(n, p[1..], q);
      Reassociate(FlatKids(t.kids[..k]), Before(n, p[1..]), Before(Sub(t, p), q));
      Reassociate(After(Sub(t, p), q), After(n, p[1..]), FlatKids(t.kids[k+1..]));
    }
  }

  lemma Reassociate(a: seq<Extent>, b: seq<Extent>, c: seq<Extent>)
    ensures (a + b) + c == a + (b + c)
  {
  }

  lemma {:induction false} PutConcat(t: Tree, p: seq<nat>, q: seq<nat>, s: Tree)
    requires Reaches(t, p) && Reaches(Sub(t, p), q) && Reaches(t, p + q)
    ensures Put(t, p + q, s) == Put(t, p, Put(Sub(t, p), q, s))
    decreases |p|
  {
    if p == [] {
      assert p + q == q;
    } else {
      assert (p + q)[0] == p[0] && (p + q)[1..] == p[1..] + q;
      PathConcat(t.kids[p[0]].sub, p[1..], q);
      PutConcat(t.kids[p[0]].sub, p[1..], q, s);
    }
  }

  lemma {:induction false} PutPut(t: Tree, p: seq<nat>, a: Tree, b: Tree)
    requires Reaches(t, p)
    ensures Reaches(Put(t, p, a), p)
    ensures Put(Put(t, p, a), p, b) == Put(t, p, b)
    decreases |p|
  {
    if p != [] {
      PutPut(t.kids[p[0]].sub, p[1..], a, b);
    }
  }

  lemma {:induction false} PutSame(t: Tree, p: seq<nat>)
    requires Reaches(t, p)
    ensures Put(t, p, Sub(t, p)) == t
    decreases |p|
  {
    if p != [] {
      PutSame(t.kids[p[0]].sub, p[1..]);
    }
  }

  /** Facts about a path cut at level i. */
  lemma PathPrefix(t: Tree, pos: seq<nat>, i: nat)
    requires Reaches(t, pos) && i <= |pos|
    ensures Reaches(t, pos[..i]) && Reaches(Sub(t, pos[..i]), pos[i..])
    ensures Sub(t, pos) == Sub(Sub(t, pos[..i]), pos[i..])
    decreases |pos|
  {
    if i > 0 {
      PathPrefix(t.kids[pos[0]].sub, pos[1..], i - 1);
      assert pos[..i][1..] == pos[1..][..i-1] && pos[i..] == pos[1..][i-1..];
    } else {
      assert pos[..0] == [] && pos[0..] == pos;
    }
  }

  /** One level of a path: the node at level i and its child at level i + 1. */
  lemma PathStep(t: Tree, pos: seq<nat>, i: nat)
    requires Reaches(t, pos) && i < |pos|
    ensures Reaches(t, pos[..i]) && Reaches(t, pos[..i+1])
    ensures Sub(t, pos[..i]).Node? && pos[i] < |Sub(t, pos[..i]).kids|
    ensures Sub(t, pos[..i+1]) == Sub(t, pos[..i]).kids[pos[i]].sub
    ensures forall s :: Put(t, pos[..i+1], s) ==
              Put(t, pos[..i], Put(Sub(t, pos[..i]), [pos[i]], s))
  {
    PathPrefix(t, pos, i);
    PathPrefix(t, pos, i + 1);
    assert pos[..i+1] == pos[..i] + [pos[i]];
    PathConcat(t, pos[..i], [pos[i]]);
    forall s ensures Put(t, pos[..i+1], s) == Put(t, pos[..i], Put(Sub(t, pos[..i]), [pos[i]], s)) {
      PutConcat(t, pos[..i], [pos[i]], s);
    }
  }

  // ------------------------------------------------- writing along a path

  lemma {:induction false} FitsSub(g: Geometry, t: Tree, d: nat, top: bool, pos: seq<nat>)
    requires Fits(g, t, d, top) && Reaches(t, pos)
    ensures |pos| <= d
    ensures Fits(g, Sub(t, pos), d - |pos|, top && pos == [])
    decreases |pos|
  {
    if pos != [] {
      assert KidFits(g, t.kids[pos[0]], d - 1);
      FitsSub(g, t.kids[pos[0]].sub, d - 1, false, pos[1..]);
    }
  }

  /** The first block of a node is that of its first child. */
  lemma FirstKid(g: Geometry, kids: seq<Kid>, d: nat)
    requires KidsFit(g, kids, d) && kids != []
    ensures Flat(kids[0].sub) != []
    ensures First(Node(kids)) == kids[0].key
  {
    assert KidFits(g, kids[0], d);
    FitsNonEmpty(g, kids[0].sub, d, false);
    assert Flat(Node(kids)) == FlatKid(kids[0]) + FlatKids(kids[1..]);
  }

  lemma KidsFitUpdate(g: Geometry, kids: seq<Kid>, d: nat, i: nat, k: Kid)
    requires KidsFit(g, kids, d) && i < |kids| && KidFits(g, k, d)
    ensures KidsFit(g, kids[i := k], d)
  {
    var kids' := kids[i := k];
    forall j | 0 <= j < |kids'| ensures KidFits(g, kids'[j], d) {
      assert j != i ==> KidFits(g, kids[j], d);
    }
  }

  /** Overwriting a node by a fitting one with the same first block keeps the tree fitting. */
  lemma {:induction false} PutFits(g: Geometry, t: Tree, d: nat, top: bool, pos: seq<nat>, s: Tree)
    requires Fits(g, t, d, top) && Reaches(t, pos) && |pos| <= d
    requires Fits(g, s, d - |pos|, top && pos == [])
    requires pos != [] ==> First(s) == First(Sub(t, pos))
    ensures Fits(g, Put(t, pos, s), d, top)
    ensures pos != [] ==> First(Put(t, pos, s)) == First(t)
    decreases |pos|
  {
    if pos != [] {
      var i := pos[0];
      var k := t.kids[i];
      assert KidFits(g, k, d - 1);
      FitsSub(g, k.sub, d - 1, false, pos[1..]);
      PutFits(g, k.sub, d - 1, false, pos[1..], s);
      var k' := k.(sub := Put(k.sub, pos[1..], s));
      assert KidFits(g, k', d - 1);
      KidsFitUpdate(g, t.kids, d - 1, i, k');
      FirstKid(g, t.kids, d - 1);
      FirstKid(g, t.kids[i := k'], d - 1);
    }
  }

  /** Put followed by setting every key on the path to its subtree's first block. */
  ghost function PutKeyed(t: Tree, pos: seq<nat>, s: Tree): Tree
    requires Reaches(t, pos)
    decreases |pos|
  {
    if pos == [] then s
    else
      var k := t.kids[pos[0]];
      var s' := PutKeyed(k.sub, pos[1..], s);
      Node(t.kids[pos[0] := Kid(First(s'), k.blk, s')])
  }

  lemma {:induction false} PutKeyedParts(t: Tree, pos: seq<nat>, s: Tree)
    requires Reaches(t, pos)
    ensures Reaches(PutKeyed(t, pos, s), pos)
    ensures Sub(PutKeyed(t, pos, s), pos) == s
    ensures Flat(PutKeyed(t, pos, s)) == Flat(Put(t, pos, s))
    ensures forall n :: Uses(PutKeyed(t, pos, s), n) == Uses(Put(t, pos, s), n)
    decreases |pos|
  {
    if pos != [] {
      var i := pos[0];
      var t1, t2 := Put(t, pos, s), PutKeyed(t, pos, s);
      PutKeyedParts(t.kids[i].sub, pos[1..], s);
      assert t1.kids[..i] == t2.kids[..i] && t1.kids[i+1..] == t2.kids[i+1..];
      FlatKidsAt(t1.kids, i);
      FlatKidsAt(t2.kids, i);
      forall n ensures Uses(t2, n) == Uses(t1, n) {
        UsesKidsAt(t1.kids, i, n);
        UsesKidsAt(t2.kids, i, n);
      }
    }
  }

  lemma {:induction false} PutKeyedFits(g: Geometry, t: Tree, d: nat, top: bool, pos: seq<nat>, s: Tree)
    requires Fits(g, t, d, top) && Reaches(t, pos) && |pos| <= d
    requires Fits(g, s, d - |pos|, top && pos == [])
    ensures Fits(g, PutKeyed(t, pos, s), d, top)
    decreases |pos|
  {
    if pos != [] {
      var k := t.kids[pos[0]];
      assert KidFits(g, k, d - 1);
      PutKeyedFits(g, k.sub, d - 1, false, pos[1..], s);
      var s' := PutKeyed(k.sub, pos[1..], s);
      assert KidFits(g, Kid(First(s'), k.blk, s'), d - 1);
      KidsFitUpdate(g, t.kids, d - 1, pos[0], Kid(First(s'), k.blk, s'));
    }
  }
}
