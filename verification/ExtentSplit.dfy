/**
  The effect of ext4_ext_split on a subtree, as a function of the path. The left
  half keeps everything up to the path, the right half starts with the given
  leaf and continues with everything right of the path.
 */
module ExtentSplit {
  import opened Blocks
  import opened Extents
  import opened ExtentTree

  /** Left half: nodes on the path truncated after the path entry, leaf replaced. */
  function SplitL(t: Tree, pos: seq<nat>, left: seq<Extent>): Tree
    requires Reaches(t, pos)
    decreases |pos|
  {
    if pos == [] then Leaf(left)
    else
      var k := t.kids[pos[0]];
      Node(t.kids[..pos[0]] + [k.(sub := SplitL(k.sub, pos[1..], left))])
  }

  /** Right half: one new node per level, whose first entry leads down to the new leaf. */
  function SplitR(t: Tree, pos: seq<nat>, border: nat, ab: seq<nat>, right: seq<Extent>): Tree
    requires Reaches(t, pos) && |ab| == |pos|
    decreases |pos|
  {
    if pos == [] then Leaf(right)
    else
      Node([Kid(border, ab[0], SplitR(t.kids[pos[0]].sub, pos[1..], border, ab[1..], right))] + t.kids[pos[0]+1..])
  }

  lemma {:induction false} SplitLPath(t: Tree, pos: seq<nat>, left: seq<Extent>)
    requires Reaches(t, pos)
    ensures var l := SplitL(t, pos, left);
            Reaches(l, pos) && Sub(l, pos) == Leaf(left) && Before(l, pos) == Before(t, pos) && After(l, pos) == []
    ensures Flat(SplitL(t, pos, left)) == Before(t, pos) + left
    decreases |pos|
  {
    if pos != [] {
      var i, k := pos[0], t.kids[pos[0]];
      SplitLPath(k.sub, pos[1..], left);
      var l := SplitL(t, pos, left);
      assert l.kids[..i] == t.kids[..i] && l.kids[i+1..] == [];
    }
    SubFlat(SplitL(t, pos, left), pos);
  }

  lemma {:induction false} SplitLFits(g: Geometry, t: Tree, d: nat, pos: seq<nat>, left: seq<Extent>)
    requires Fits(g, t, d, false) && Reaches(t, pos) && |pos| == d
    requires 0 < |left| <= g.blockLeaf && left[0].block == First(Sub(t, pos))
    ensures Fits(g, SplitL(t, pos, left), d, false)
    ensures First(SplitL(t, pos, left)) == First(t)
    decreases |pos|
  {
    if pos != [] {
      var i, k := pos[0], t.kids[pos[0]];
      assert KidFits(g, k, d - 1);
      SplitLFits(g, k.sub, d - 1, pos[1..], left);
      var kids := SplitL(t, pos, left).kids;
      forall j | 0 <= j < |kids| ensures KidFits(g, kids[j], d - 1) {
        assert j < i ==> KidFits(g, t.kids[j], d - 1);
      }
      FirstKid(g, kids, d - 1);
      FirstKid(g, t.kids, d - 1);
    }
  }

  lemma {:induction false} SplitRPath(t: Tree, pos: seq<nat>, border: nat, ab: seq<nat>, right: seq<Extent>)
    requires Reaches(t, pos) && |ab| == |pos|
    ensures var r, z := SplitR(t, pos, border, ab, right), Zeros(|pos|);
            |z| == |pos| && Reaches(r, z) && Sub(r, z) == Leaf(right) && Before(r, z) == [] &&
                After(r, z) == After(t, pos)
    ensures Flat(SplitR(t, pos, border, ab, right)) == right + After(t, pos)
    decreases |pos|
  {
    var r, z := SplitR(t, pos, border, ab, right), Zeros(|pos|);
    if pos != [] {
      SplitRPath(t.kids[pos[0]].sub, pos[1..], border, ab[1..], right);
      assert z[0] == 0 && z[1..] == Zeros(|pos| - 1);
      assert r.kids[..0] == [] && r.kids[1..] == t.kids[pos[0]+1..];
    }
    SubFlat(r, z);
  }

  /** The right half does not depend on what is in its new leaf. */
  lemma {:induction false} SplitRLeaf(t: Tree, pos: seq<nat>, border: nat, ab: seq<nat>, a: seq<Extent>, c: seq<Extent>)
    requires Reaches(t, pos) && |ab| == |pos|
    ensures Reaches(SplitR(t, pos, border, ab, a), Zeros(|pos|))
    ensures SplitR(t, pos, border, ab, c) == Put(SplitR(t, pos, border, ab, a), Zeros(|pos|), Leaf(c))
    decreases |pos|
  {
    if pos != [] {
      SplitRLeaf(t.kids[pos[0]].sub, pos[1..], border, ab[1..], a, c);
      assert Zeros(|pos|)[1..] == Zeros(|pos| - 1);
      var ra, rc := SplitR(t, pos, border, ab, a), SplitR(t, pos, border, ab, c);
      assert rc.kids == Put(ra, Zeros(|pos|), Leaf(c)).kids;
    }
  }

  lemma {:induction false} SplitRFits(g: Geometry, t: Tree, d: nat, pos: seq<nat>, border: nat, ab: seq<nat>,
                                      right: seq<Extent>)
    requires Fits(g, t, d, false) && Reaches(t, pos) && |ab| == |pos| == d
    requires 0 < |right| <= g.blockLeaf && right[0].block == border
    ensures Fits(g, SplitR(t, pos, border, ab, right), d, false)
    ensures First(SplitR(t, pos, border, ab, right)) == border
    decreases |pos|
  {
    if pos != [] {
      var i, k := pos[0], t.kids[pos[0]];
      assert KidFits(g, k, d - 1);
      SplitRFits(g, k.sub, d - 1, pos[1..], border, ab[1..], right);
      var kids := SplitR(t, pos, border, ab, right).kids;
      forall j | 0 <= j < |kids| ensures KidFits(g, kids[j], d - 1) {
        assert j > 0 ==> kids[j] == t.kids[i + j] && KidFits(g, t.kids[i + j], d - 1);
      }
      FirstKid(g, kids, d - 1);
    }
  }

  lemma {:induction false} SplitUses(t: Tree, pos: seq<nat>, border: nat, ab: seq<nat>, left: seq<Extent>,
                                     right: seq<Extent>, b: nat)
    requires Reaches(t, pos) && |ab| == |pos| && Sub(t, pos).Leaf?
    ensures Uses(SplitL(t, pos, left), b) + Uses(SplitR(t, pos, border, ab, right), b) == Uses(t, b) + Count(ab, b)
    decreases |pos|
  {
    if pos != [] {
      var i, k := pos[0], t.kids[pos[0]];
      SplitUses(k.sub, pos[1..], border, ab[1..], left, right, b);
      var l, r := SplitL(t, pos, left).kids, SplitR(t, pos, border, ab, right).kids;
      UsesKidsAt(t.kids, i, b);
      UsesKidsAt(l, i, b);
      assert l[..i] == t.kids[..i] && l[i+1..] == [];
      assert UsesKids(r, b) == UsesKid(r[0], b) + UsesKids(t.kids[i+1..], b) by { assert r[1..] == t.kids[i+1..]; }
      assert Count(ab, b) == (if ab[0] == b then 1 else 0) + Count(ab[1..], b);
    }
  }

  // ----------------------------------------------- hooking the right half in

  /** kids with entry i now leading to l and a new entry for r behind it. */
  function Hook(kids: seq<Kid>, i: nat, l: Tree, border: nat, blk: nat, r: Tree): seq<Kid>
    requires i < |kids|
  {
    kids[..i] + [kids[i].(sub := l), Kid(border, blk, r)] + kids[i+1..]
  }

  lemma HookFlat(kids: seq<Kid>, i: nat, l: Tree, border: nat, blk: nat, r: Tree)
    requires i < |kids|
    ensures FlatKids(Hook(kids, i, l, border, blk, r)) ==
            FlatKids(kids[..i]) + (Flat(l) + Flat(r)) + FlatKids(kids[i+1..])
  {
    var m := [kids[i].(sub := l), Kid(border, blk, r)];
    FlatKidsConcat(kids[..i] + m, kids[i+1..]);
    FlatKidsConcat(kids[..i], m);
    assert FlatKids(m) == Flat(l) + Flat(r) by {
      assert m == [m[0]] + [m[1]];
      FlatKidsConcat([m[0]], [m[1]]);
      FlatKidsOne(m[0]);
      FlatKidsOne(m[1]);
    }
  }

  lemma HookUses(kids: seq<Kid>, i: nat, l: Tree, border: nat, blk: nat, r: Tree, b: nat)
    requires i < |kids|
    ensures UsesKids(Hook(kids, i, l, border, blk, r), b) ==
            UsesKids(kids, b) - Uses(kids[i].sub, b) + Uses(l, b) + Uses(r, b) + (if blk == b then 1 else 0)
  {
    var h := Hook(kids, i, l, border, blk, r);
    UsesKidsAt(kids, i, b);
    UsesKidsAt(h, i, b);
    assert h[..i] == kids[..i] && h[i+1..][1..] == kids[i+1..];
  }

  lemma HookFits(g: Geometry, kids: seq<Kid>, d: nat, i: nat, l: Tree, border: nat, blk: nat, r: Tree)
    requires KidsFit(g, kids, d) && i < |kids|
    requires Fits(g, l, d, false) && First(l) == First(kids[i].sub)
    requires Fits(g, r, d, false) && First(r) == border
    ensures KidsFit(g, Hook(kids, i, l, border, blk, r), d)
    ensures First(Node(Hook(kids, i, l, border, blk, r))) == First(Node(kids))
  {
    var h := Hook(kids, i, l, border, blk, r);
    forall j | 0 <= j < |h| ensures KidFits(g, h[j], d) {
      assert j <= i ==> KidFits(g, kids[j], d);
      assert j > i + 1 ==> h[j] == kids[j - 1] && KidFits(g, kids[j - 1], d);
    }
    FirstKid(g, kids, d);
    FirstKid(g, h, d);
  }

  /** The tree after ext4_ext_split with the free entry at level at. */
  function SplitTree(t: Tree, pos: seq<nat>, at: nat, border: nat, ab: seq<nat>, left: seq<Extent>,
                     right: seq<Extent>): Tree
    requires Reaches(t, pos) && at < |pos| && |ab| == |pos| - at
    requires Reaches(t, pos[..at]) && Sub(t, pos[..at]).Node? && pos[at] < |Sub(t, pos[..at]).kids|
    requires Reaches(Sub(t, pos[..at]).kids[pos[at]].sub, pos[at+1..])
  {
    var n := Sub(t, pos[..at]);
    var c := n.kids[pos[at]].sub;
    Put(t, pos[..at], Node(Hook(n.kids, pos[at], SplitL(c, pos[at+1..], left), border, ab[0],
                                SplitR(c, pos[at+1..], border, ab[1..], right))))
  }

  lemma SplitPrecondition(t: Tree, pos: seq<nat>, at: nat)
    requires Reaches(t, pos) && at < |pos|
    ensures Reaches(t, pos[..at]) && Sub(t, pos[..at]).Node? && pos[at] < |Sub(t, pos[..at]).kids|
    ensures Reaches(Sub(t, pos[..at]).kids[pos[at]].sub, pos[at+1..])
    ensures Sub(Sub(t, pos[..at]).kids[pos[at]].sub, pos[at+1..]) == Sub(t, pos)
  {
    PathPrefix(t, pos, at);
    assert pos[at..][0] == pos[at] && pos[at..][1..] == pos[at+1..];
  }

  lemma SplitTreeFits(g: Geometry, t: Tree, d: nat, pos: seq<nat>, at: nat, border: nat, ab: seq<nat>,
                      left: seq<Extent>, right: seq<Extent>)
    requires Fits(g, t, d, true) && Reaches(t, pos) && at < |pos| == d && |ab| == d - at
    requires Reaches(t, pos[..at]) && Sub(t, pos[..at]).Node? && pos[at] < |Sub(t, pos[..at]).kids|
    requires Reaches(Sub(t, pos[..at]).kids[pos[at]].sub, pos[at+1..])
    requires |Sub(t, pos[..at]).kids| < IdxCap(g, at == 0)
    requires 0 < |left| <= g.blockLeaf && left[0].block == First(Sub(t, pos))
    requires 0 < |right| <= g.blockLeaf && right[0].block == border
    ensures Fits(g, SplitTree(t, pos, at, border, ab, left, right), d, true)
  {
    var n := Sub(t, pos[..at]);
    var c := n.kids[pos[at]].sub;
    SplitPrecondition(t, pos, at);
    FitsSub(g, t, d, true, pos[..at]);
    assert KidFits(g, n.kids[pos[at]], d - at - 1);
    SplitLFits(g, c, d - at - 1, pos[at+1..], left);
    SplitRFits(g, c, d - at - 1, pos[at+1..], border, ab[1..], right);
    var l, r := SplitL(c, pos[at+1..], left), SplitR(c, pos[at+1..], border, ab[1..], right);
    HookFits(g, n.kids, d - at - 1, pos[at], l, border, ab[0], r);
    PutFits(g, t, d, true, pos[..at], Node(Hook(n.kids, pos[at], l, border, ab[0], r)));
  }

  lemma SplitTreeFlat(t: Tree, pos: seq<nat>, at: nat, border: nat, ab: seq<nat>, left: seq<Extent>, right: seq<Extent>)
    requires Reaches(t, pos) && at < |pos| && |ab| == |pos| - at
    requires Reaches(t, pos[..at]) && Sub(t, pos[..at]).Node? && pos[at] < |Sub(t, pos[..at]).kids|
    requires Reaches(Sub(t, pos[..at]).kids[pos[at]].sub, pos[at+1..])
    ensures Flat(SplitTree(t, pos, at, border, ab, left, right)) ==
            Before(t, pos) + (left + right) + After(t, pos)
  {
    var n := Sub(t, pos[..at]);
    var i, rest := pos[at], pos[at+1..];
    var c := n.kids[i].sub;
    var l, r := SplitL(c, rest, left), SplitR(c, rest, border, ab[1..], right);
    SplitLPath(c, rest, left);
    SplitRPath(c, rest, border, ab[1..], right);
    HookFlat(n.kids, i, l, border, ab[0], r);
    PutParts(t, pos[..at], Node(Hook(n.kids, i, l, border, ab[0], r)));
    assert pos == pos[..at] + pos[at..] && pos[at..][0] == i && pos[at..][1..] == rest;
    SidesConcat(t, pos[..at], pos[at..]);
    Assoc(Before(t, pos[..at]), FlatKids(n.kids[..i]), Before(c, rest), left, right,
          After(c, rest), FlatKids(n.kids[i+1..]), After(t, pos[..at]));
  }

  lemma Assoc(a: seq<Extent>, b: seq<Extent>, c: seq<Extent>, l: seq<Extent>, r: seq<Extent>,
              d: seq<Extent>, e: seq<Extent>, f: seq<Extent>)
    ensures a + (b + ((c + l) + (r + d)) + e) + f == (a + (b + c)) + (l + r) + ((d + e) + f)
  {
  }

  lemma SplitTreeUses(t: Tree, pos: seq<nat>, at: nat, border: nat, ab: seq<nat>, left: seq<Extent>, right: seq<Extent>,
                      b: nat)
    requires Reaches(t, pos) && at < |pos| && |ab| == |pos| - at && Sub(t, pos).Leaf?
    requires Reaches(t, pos[..at]) && Sub(t, pos[..at]).Node? && pos[at] < |Sub(t, pos[..at]).kids|
    requires Reaches(Sub(t, pos[..at]).kids[pos[at]].sub, pos[at+1..])
    ensures Uses(SplitTree(t, pos, at, border, ab, left, right), b) == Uses(t, b) + Count(ab, b)
  {
    var n := Sub(t, pos[..at]);
    var i, rest := pos[at], pos[at+1..];
    var c := n.kids[i].sub;
    var l, r := SplitL(c, rest, left), SplitR(c, rest, border, ab[1..], right);
    SplitPrecondition(t, pos, at);
    SplitUses(c, rest, border, ab[1..], left, right, b);
    HookUses(n.kids, i, l, border, ab[0], r, b);
    SubUses(t, pos[..at], b);
    PutParts(t, pos[..at], Node(Hook(n.kids, i, l, border, ab[0], r)));
  }

  /** Where the new leaf is after the split. */
  function NewLeafPos(pos: seq<nat>, at: nat): (q: seq<nat>)
    requires at < |pos|
  {
    pos[..at] + ([pos[at] + 1] + Zeros(|pos| - at - 1))
  }

  lemma SplitTreeOldLeaf(t: Tree, pos: seq<nat>, at: nat, border: nat, ab: seq<nat>, left: seq<Extent>,
                         right: seq<Extent>)
    requires Reaches(t, pos) && at < |pos| && |ab| == |pos| - at
    requires Reaches(t, pos[..at]) && Sub(t, pos[..at]).Node? && pos[at] < |Sub(t, pos[..at]).kids|
    requires Reaches(Sub(t, pos[..at]).kids[pos[at]].sub, pos[at+1..])
    ensures var t' := SplitTree(t, pos, at, border, ab, left, right);
            && Reaches(t', pos) && Sub(t', pos) == Leaf(left)
            && Before(t', pos) == Before(t, pos) && After(t', pos) == right + After(t, pos)
  {
    var n := Sub(t, pos[..at]);
    var i, rest := pos[at], pos[at+1..];
    var c := n.kids[i].sub;
    var l, r := SplitL(c, rest, left), SplitR(c, rest, border, ab[1..], right);
    var h := Node(Hook(n.kids, i, l, border, ab[0], r));
    SplitLPath(c, rest, left);
    assert Flat(r) == right + After(c, rest) by { SplitRPath(c, rest, border, ab[1..], right); }
    HookOld(n.kids, i, l, border, ab[0], r, rest);
    PutSides(t, pos[..at], h, [i] + rest);
    CutPath(pos, at);
    SidesAt(t, pos, at);
    GlueAfter(After(Put(t, pos[..at], h), pos), After(h, [i] + rest), After(l, rest), Flat(r), right,
              After(c, rest), FlatKids(n.kids[i+1..]), After(t, pos[..at]), After(t, pos));
  }

  lemma CutPath(pos: seq<nat>, at: nat)
    requires at < |pos|
    ensures pos == pos[..at] + ([pos[at]] + pos[at+1..])
  {
  }

  lemma GlueAfter(a': seq<Extent>, ah: seq<Extent>, al: seq<Extent>, fr: seq<Extent>, right: seq<Extent>,
                  ac: seq<Extent>, fk: seq<Extent>, at: seq<Extent>, a: seq<Extent>)
    requires a' == ah + at && ah == al + (fr + fk) && al == [] && fr == right + ac && a == (ac + fk) + at
    ensures a' == right + a
  {
  }

  lemma GlueBefore(b': seq<Extent>, bh: seq<Extent>, fk: seq<Extent>, fl: seq<Extent>, br: seq<Extent>,
                   left: seq<Extent>, bc: seq<Extent>, bt: seq<Extent>, b: seq<Extent>)
    requires b' == bt + bh && bh == fk + fl + br && br == [] && fl == bc + left && b == bt + (fk + bc)
    ensures b' == b + left
  {
  }

  lemma SplitTreeNewLeaf(t: Tree, pos: seq<nat>, at: nat, border: nat, ab: seq<nat>, left: seq<Extent>,
                         right: seq<Extent>)
    requires Reaches(t, pos) && at < |pos| && |ab| == |pos| - at
    requires Reaches(t, pos[..at]) && Sub(t, pos[..at]).Node? && pos[at] < |Sub(t, pos[..at]).kids|
    requires Reaches(Sub(t, pos[..at]).kids[pos[at]].sub, pos[at+1..])
    ensures var t', q := SplitTree(t, pos, at, border, ab, left, right), NewLeafPos(pos, at);
            && |q| == |pos| && Reaches(t', q) && Sub(t', q) == Leaf(right)
            && Before(t', q) == Before(t, pos) + left && After(t', q) == After(t, pos)
  {
    var n := Sub(t, pos[..at]);
    var i, rest, z := pos[at], pos[at+1..], Zeros(|pos| - at - 1);
    var c := n.kids[i].sub;
    var l, r := SplitL(c, rest, left), SplitR(c, rest, border, ab[1..], right);
    var h := Node(Hook(n.kids, i, l, border, ab[0], r));
    assert Flat(l) == Before(c, rest) + left by { SplitLPath(c, rest, left); }
    SplitRPath(c, rest, border, ab[1..], right);
    HookNew(n.kids, i, l, border, ab[0], r, z);
    PutSides(t, pos[..at], h, [i + 1] + z);
    SidesAt(t, pos, at);
    GlueBefore(Before(Put(t, pos[..at], h), NewLeafPos(pos, at)), Before(h, [i + 1] + z), FlatKids(n.kids[..i]),
               Flat(l), Before(r, z), left, Before(c, rest), Before(t, pos[..at]), Before(t, pos));
  }

  lemma HookOld(kids: seq<Kid>, i: nat, l: Tree, border: nat, blk: nat, r: Tree, rest: seq<nat>)
    requires i < |kids| && Reaches(l, rest)
    ensures var h := Node(Hook(kids, i, l, border, blk, r));
            && Reaches(h, [i] + rest) && Sub(h, [i] + rest) == Sub(l, rest)
            && Before(h, [i] + rest) == FlatKids(kids[..i]) + Before(l, rest)
            && After(h, [i] + rest) == After(l, rest) + (Flat(r) + FlatKids(kids[i+1..]))
  {
    var h := Hook(kids, i, l, border, blk, r);
    assert ([i] + rest)[1..] == rest;
    assert h[..i] == kids[..i];
    assert h[i+1..] == [h[i+1]] + kids[i+1..] && h[i+1..][1..] == kids[i+1..];
    assert FlatKids(h[i+1..]) == Flat(r) + FlatKids(kids[i+1..]);
  }

  lemma HookNew(kids: seq<Kid>, i: nat, l: Tree, border: nat, blk: nat, r: Tree, z: seq<nat>)
    requires i < |kids| && Reaches(r, z)
    ensures var h := Node(Hook(kids, i, l, border, blk, r));
            && Reaches(h, [i + 1] + z) && Sub(h, [i + 1] + z) == Sub(r, z)
            && Before(h, [i + 1] + z) == FlatKids(kids[..i]) + Flat(l) + Before(r, z)
            && After(h, [i + 1] + z) == After(r, z) + FlatKids(kids[i+1..])
  {
    var h := Hook(kids, i, l, border, blk, r);
    assert ([i + 1] + z)[1..] == z;
    assert h[..i+1] == kids[..i] + [h[i]] && h[i+2..] == kids[i+1..];
    FlatKidsConcat(kids[..i], [h[i]]);
    FlatKidsOne(h[i]);
  }

  /** A path that runs through a rewritten node. */
  lemma PutSides(t: Tree, p: seq<nat>, s: Tree, q: seq<nat>)
    requires Reaches(t, p) && Reaches(s, q)
    ensures var t' := Put(t, p, s);
            && Reaches(t', p + q) && Sub(t', p + q) == Sub(s, q)
            && Before(t', p + q) == Before(t, p) + Before(s, q)
            && After(t', p + q) == After(s, q) + After(t, p)
  {
    PutReaches(t, p, s);
    PathConcat(Put(t, p, s), p, q);
    SidesConcat(Put(t, p, s), p, q);
  }

  /** The two sides of a path, cut at level at. */
  lemma SidesAt(t: Tree, pos: seq<nat>, at: nat)
    requires Reaches(t, pos) && at < |pos|
    requires Reaches(t, pos[..at]) && Sub(t, pos[..at]).Node? && pos[at] < |Sub(t, pos[..at]).kids|
    requires Reaches(Sub(t, pos[..at]).kids[pos[at]].sub, pos[at+1..])
    ensures var n := Sub(t, pos[..at]);
            var c := n.kids[pos[at]].sub;
            && Before(t, pos) == Before(t, pos[..at]) + (FlatKids(n.kids[..pos[at]]) + Before(c, pos[at+1..]))
            && After(t, pos) == (After(c, pos[at+1..]) + FlatKids(n.kids[pos[at]+1..])) + After(t, pos[..at])
  {
    assert pos == pos[..at] + pos[at..] && pos[at..][0] == pos[at] && pos[at..][1..] == pos[at+1..];
    SidesConcat(t, pos[..at], pos[at..]);
  }
}
