/**
  ext4_ext_remove_space (ext4/extents.c): the walk over the tree from right to
  left. The extents of the tree are always a prefix of the original ones that
  is still to be looked at, followed by the cut of the rest.
 */
module ExtentRemoveSpace {
  import opened Wrappers
  import opened Blocks
  import opened Extents
  import opened ExtentTree
  import opened ExtentSearch
  import opened ExtentNeighbours
  import opened ExtentInsert
  import opened ExtentModify
  import opened ExtentCut
  import opened ExtentRemove
  import opened ExtentWalk
  import opened ExtentPrune

  // ---------------------------------------------------------- the invariant

  /** The first u entries of a node, and the others. */
  ghost function Part(n: Tree, u: nat): seq<Extent>
    requires u <= Entries(n)
  {
    match n
    case Leaf(exts) => exts[..u]
    case Node(kids) => FlatKids(kids[..u])
  }

  ghost function RestOf(n: Tree, u: nat): seq<Extent>
    requires u <= Entries(n)
  {
    match n
    case Leaf(exts) => exts[u..]
    case Node(kids) => FlatKids(kids[u..])
  }

  lemma PartEnds(n: Tree)
    ensures Part(n, 0) == [] && RestOf(n, 0) == Flat(n)
    ensures Part(n, Entries(n)) == Flat(n) && RestOf(n, Entries(n)) == []
  {
    if n.Node? {
      assert n.kids[..0] == [] && n.kids[0..] == n.kids;
      assert n.kids[..|n.kids|] == n.kids && n.kids[|n.kids|..] == [];
    }
  }

  /** t is the fitting tree t0, except that the node at pos may have become empty. */
  ghost predicate Shaped(g: Geometry, t: Tree, d: nat, t0: Tree, pos: seq<nat>) {
    && Fits(g, t0, d, true) && Reaches(t0, pos) && Reaches(t, pos) && |pos| <= d
    && t == Put(t0, pos, Sub(t, pos)) && (t == t0 || Entries(Sub(t, pos)) == 0)
    && (Sub(t, pos).Leaf? <==> |pos| == d)
  }

  /** The first n extents of f are still to be done; the others have been cut. */
  ghost predicate Cutting(todo: seq<Extent>, done: seq<Extent>, f: seq<Extent>, n: nat, start: nat, end: nat) {
    n <= |f| && todo == f[..n] && done == Cut(f[n..], start, end)
  }

  ghost predicate Halves(t: Tree, pos: seq<nat>, u: nat, f: seq<Extent>, n: nat, start: nat, end: nat)
    requires Reaches(t, pos)
  {
    && u <= Entries(Sub(t, pos))
    && Cutting(Before(t, pos) + Part(Sub(t, pos), u), RestOf(Sub(t, pos), u) + After(t, pos), f, n, start, end)
  }

  /** Everything still to be done ends before the range starts. */
  ghost predicate Finished(f: seq<Extent>, n: nat, start: nat)
    requires n <= |f|
  {
    forall x :: 0 <= x < n ==> End(f[x]) <= start
  }

  /** Level j of the path: c is the saved entry count. If no entry has gone since, the
      subtree being walked holds only extents that start no later than end. */
  ghost predicate FrameOk(t: Tree, pos: seq<nat>, j: nat, c: nat, m: nat, f: seq<Extent>, n: nat, start: nat, end: nat)
    requires j < |pos|
  {
    && Reaches(t, pos[..j]) && Reaches(t, pos[..j+1]) && Sub(t, pos[..j]).Node?
    && |Sub(t, pos[..j]).kids| <= c && n <= m <= |f|
    && (|Sub(t, pos[..j]).kids| == c ==> Low(f[..m], end) && After(t, pos[..j+1]) == Cut(f[m..], start, end))
  }

  ghost predicate FramesOk(t: Tree, pos: seq<nat>, cnt: seq<nat>, ms: seq<nat>, f: seq<Extent>, n: nat, start: nat,
                           end: nat) {
    && |cnt| == |pos| && |ms| == |pos|
    && forall j :: 0 <= j < |pos| ==> FrameOk(t, pos, j, cnt[j], ms[j], f, n, start, end)
  }

  ghost predicate Walking(g: Geometry, t: Tree, d: nat, t0: Tree, pos: seq<nat>, cnt: seq<nat>, ms: seq<nat>,
                          u: nat, f: seq<Extent>, n: nat, start: nat, end: nat) {
    && Sorted(f) && NoStraddle(f, end)
    && Shaped(g, t, d, t0, pos)
    && Halves(t, pos, u, f, n, start, end)
    && FramesOk(t, pos, cnt, ms, f, n, start, end)
  }

  // ------------------------------------------------------------- going down

  lemma GoDown(g: Geometry, t: Tree, d: nat, t0: Tree, pos: seq<nat>, cnt: seq<nat>, ms: seq<nat>,
               k: nat, f: seq<Extent>, n: nat, start: nat, end: nat)
    requires Walking(g, t, d, t0, pos, cnt, ms, k + 1, f, n, start, end)
    requires |pos| < d && Low(f[..n], end)
    ensures Sub(t, pos).Node? && k < |Sub(t, pos).kids| && Reaches(t, pos + [k])
    ensures Walking(g, t, d, t, pos + [k], cnt + [|Sub(t, pos).kids|], ms + [n],
                    Entries(Sub(t, pos + [k])), f, n, start, end)
  {
    assert Reaches(t, pos + [k]) && Sub(t, pos + [k]) == Sub(t, pos).kids[k].sub by { LastStep(t, pos, k); }
    DownShape(g, t, d, pos, k);
    DownHalves(t, pos, k, f, n, start, end);
    DownFrames(t, pos, cnt, ms, k, f, n, start, end);
  }

  lemma DownShape(g: Geometry, t: Tree, d: nat, pos: seq<nat>, k: nat)
    requires Fits(g, t, d, true) && Reaches(t, pos) && |pos| < d && Sub(t, pos).Node? && k < |Sub(t, pos).kids|
    requires Reaches(t, pos + [k]) && Sub(t, pos + [k]) == Sub(t, pos).kids[k].sub
    ensures Shaped(g, t, d, t, pos + [k])
  {
    FitsSub(g, t, d, true, pos + [k]);
    assert Fits(g, Sub(t, pos + [k]), d - |pos| - 1, false);
    PutSame(t, pos + [k]);
  }

  lemma DownHalves(t: Tree, pos: seq<nat>, k: nat, f: seq<Extent>, n: nat, start: nat, end: nat)
    requires Reaches(t, pos) && Sub(t, pos).Node? && k < |Sub(t, pos).kids|
    requires Halves(t, pos, k + 1, f, n, start, end)
    ensures Reaches(t, pos + [k])
    ensures Halves(t, pos + [k], Entries(Sub(t, pos + [k])), f, n, start, end)
    ensures After(t, pos + [k]) == Cut(f[n..], start, end)
  {
    var u, kids := k + 1, Sub(t, pos).kids;
    LastStep(t, pos, k);
    PartEnds(Sub(t, pos + [k]));
    assert kids[..u][..k] == kids[..k] && kids[..u][k] == kids[k] && kids[..u][k+1..] == [];
    FlatKidsAt(kids[..u], k);
    DownSeq(Before(t, pos), FlatKids(kids[..u]), FlatKids(kids[..k]), FlatKid(kids[k]), FlatKids(kids[u..]),
            After(t, pos));
  }

  lemma DownSeq(bf: seq<Extent>, part: seq<Extent>, a: seq<Extent>, c: seq<Extent>, rest: seq<Extent>, af: seq<Extent>)
    requires part == a + c + []
    ensures bf + part == (bf + a) + c && rest + af == [] + (rest + af)
  {
  }

  lemma DownFrames(t: Tree, pos: seq<nat>, cnt: seq<nat>, ms: seq<nat>, k: nat, f: seq<Extent>, n: nat, start: nat,
                   end: nat)
    requires FramesOk(t, pos, cnt, ms, f, n, start, end) && n <= |f| && Low(f[..n], end)
    requires Reaches(t, pos) && Sub(t, pos).Node? && k < |Sub(t, pos).kids|
    requires Reaches(t, pos + [k]) && After(t, pos + [k]) == Cut(f[n..], start, end)
    ensures FramesOk(t, pos + [k], cnt + [|Sub(t, pos).kids|], ms + [n], f, n, start, end)
  {
    var pos', cnt', ms' := pos + [k], cnt + [|Sub(t, pos).kids|], ms + [n];
    forall j | 0 <= j < |pos'| ensures FrameOk(t, pos', j, cnt'[j], ms'[j], f, n, start, end) {
      if j < |pos| {
        assert FrameOk(t, pos, j, cnt[j], ms[j], f, n, start, end);
        assert pos'[..j] == pos[..j] && pos'[..j+1] == pos[..j+1];
      } else {
        assert pos'[..j] == pos && pos'[..j+1] == pos';
      }
    }
  }

  // --------------------------------------------------------------- going up

  /** Back to the parent when the node is kept: either all of it was looked at, or
      the walk has found that nothing further left is in the range. */
  lemma GoUp(g: Geometry, t: Tree, d: nat, t0: Tree, pos: seq<nat>, cnt: seq<nat>, ms: seq<nat>,
             u: nat, f: seq<Extent>, n: nat, start: nat, end: nat)
    requires Walking(g, t, d, t0, pos, cnt, ms, u, f, n, start, end)
    requires pos != [] && Entries(Sub(t, pos)) > 0 && (u == 0 || Finished(f, n, start))
    ensures var l, n' := |pos| - 1, |Before(t, pos)|;
            && n' <= n && Reaches(t, pos[..l]) && Sub(t, pos[..l]).Node?
            && Walking(g, t, d, t, pos[..l], cnt[..l], ms[..l], pos[l], f, n', start, end)
            && |Sub(t, pos[..l]).kids| <= cnt[l]
            && (|Sub(t, pos[..l]).kids| == cnt[l] ==> Finished(f, n', start))
  {
    var l := |pos| - 1;
    assert FrameOk(t, pos, l, cnt[l], ms[l], f, n, start, end);
    assert pos[..l+1] == pos;
    UpHalves(t, pos, u, f, n, start, end);
    UpShape(g, t, d, pos);
    if |Sub(t, pos[..l]).kids| == cnt[l] && u == 0 {
      UpFinished(g, t, d, pos, ms[l], f, n, start, end);
    }
    UpFrames(t, t, pos, cnt, ms, f, n, |Before(t, pos)|, start, end);
  }

  /** Frames above the last survive when the trees agree beside the path. */
  lemma UpFrames(t: Tree, t': Tree, pos: seq<nat>, cnt: seq<nat>, ms: seq<nat>, f: seq<Extent>, n: nat, n': nat,
                 start: nat, end: nat)
    requires pos != [] && FramesOk(t, pos, cnt, ms, f, n, start, end) && n' <= n
    requires t == t' || SameAround(t, t', pos[..|pos|-1])
    ensures FramesOk(t', pos[..|pos|-1], cnt[..|pos|-1], ms[..|pos|-1], f, n', start, end)
  {
    var l := |pos| - 1;
    var q := pos[..l];
    forall j | 0 <= j < l ensures FrameOk(t', q, j, cnt[..l][j], ms[..l][j], f, n', start, end) {
      assert FrameOk(t, pos, j, cnt[j], ms[j], f, n, start, end);
      assert q[..j] == pos[..j] && q[..j+1] == pos[..j+1];
      if t != t' { assert AroundAt(t, t', q, j) && AroundAt(t, t', q, j + 1); }
    }
  }

  lemma UpShape(g: Geometry, t: Tree, d: nat, pos: seq<nat>)
    requires Fits(g, t, d, true) && pos != [] && Reaches(t, pos) && |pos| <= d
    requires Reaches(t, pos[..|pos|-1]) && Sub(t, pos[..|pos|-1]).Node?
    ensures Shaped(g, t, d, t, pos[..|pos|-1])
  {
    PutSame(t, pos[..|pos|-1]);
  }

  /** Entries that were not looked at because the walk is finished count as cut: cutting leaves them alone. */
  lemma UpHalves(t: Tree, pos: seq<nat>, u: nat, f: seq<Extent>, n: nat, start: nat, end: nat)
    requires pos != [] && Reaches(t, pos)
    requires Halves(t, pos, u, f, n, start, end) && (u == 0 || Finished(f, n, start))
    ensures var l := |pos| - 1;
            && |Before(t, pos)| <= n && Reaches(t, pos[..l]) && Sub(t, pos[..l]).Node?
            && Halves(t, pos[..l], pos[l], f, |Before(t, pos)|, start, end)
            && (Finished(f, n, start) ==> Finished(f, |Before(t, pos)|, start))
  {
    var l, k := |pos| - 1, pos[|pos|-1];
    Snoc(pos);
    PathStep(t, pos, l);
    LastStep(t, pos[..l], k);
    var node, kids := Sub(t, pos), Sub(t, pos[..l]).kids;
    PartJoin(node, u);
    if u == 0 { PartEnds(node); }
    TailKids(kids, k);
    UpGlue(Part(node, u), RestOf(node, u), FlatKids(kids[k+1..]), After(t, pos[..l]), After(t, pos), FlatKid(kids[k]),
           FlatKids(kids[k..]));
    UpSeq(Before(t, pos), Part(node, u), RestOf(node, u), After(t, pos), FlatKids(kids[k..]) + After(t, pos[..l]), f, n,
          start, end);
  }

  lemma UpSeq(bf: seq<Extent>, a: seq<Extent>, b: seq<Extent>, af: seq<Extent>, done: seq<Extent>, f: seq<Extent>,
              n: nat, start: nat, end: nat)
    requires Cutting(bf + a, b + af, f, n, start, end) && (a == [] || Finished(f, n, start))
    requires done == a + (b + af)
    ensures |bf| <= n && Cutting(bf, done, f, |bf|, start, end)
  {
    PrefixParts(bf, a, f, n);
    var n' := |bf|;
    JoinSlice(f, n', n);
    CutConcat(f[n'..n], f[n..], start, end);
    if a != [] { CutOutside(f[n'..n], start, end); }
  }

  lemma JoinSlice(f: seq<Extent>, i: nat, j: nat)
    requires i <= j <= |f|
    ensures f[i..] == f[i..j] + f[j..]
  {
  }

  lemma TailKids(kids: seq<Kid>, k: nat)
    requires k < |kids|
    ensures FlatKids(kids[k..]) == FlatKid(kids[k]) + FlatKids(kids[k+1..])
  {
    assert kids[k..][0] == kids[k] && kids[k..][1..] == kids[k+1..];
  }

  lemma UpGlue(a: seq<Extent>, b: seq<Extent>, x: seq<Extent>, y: seq<Extent>, af: seq<Extent>, fk: seq<Extent>,
               tail: seq<Extent>)
    requires af == x + y && fk == a + b && tail == fk + x
    ensures tail + y == a + (b + af)
  {
  }

  lemma PrefixParts(bf: seq<Extent>, a: seq<Extent>, f: seq<Extent>, n: nat)
    requires n <= |f| && bf + a == f[..n]
    ensures |bf| <= n && f[..|bf|] == bf && f[|bf|..n] == a
  {
    assert f[..n][..|bf|] == bf && f[..n][|bf|..] == a;
  }

  lemma PartJoin(n: Tree, u: nat)
    requires u <= Entries(n)
    ensures Flat(n) == Part(n, u) + RestOf(n, u)
  {
    match n
    case Leaf(exts) => assert exts == exts[..u] + exts[u..];
    case Node(kids) =>
      assert kids == kids[..u] + kids[u..];
      FlatKidsConcat(kids[..u], kids[u..]);
  }

  /** A node that held only extents starting no later than end, and is not empty after
      the cut, starts before the range: nothing left of it is in the range. */
  lemma UpFinished(g: Geometry, t: Tree, d: nat, pos: seq<nat>, m: nat, f: seq<Extent>, n: nat, start: nat, end: nat)
    requires Fits(g, t, d, true) && pos != [] && Reaches(t, pos) && |pos| <= d
    requires Sorted(f) && NoStraddle(f, end) && n <= m <= |f| && Low(f[..m], end)
    requires Halves(t, pos, 0, f, n, start, end) && After(t, pos) == Cut(f[m..], start, end)
    ensures Finished(f, n, start)
  {
    FitsSub(g, t, d, true, pos);
    FitsNonEmpty(g, Sub(t, pos), d - |pos|, false);
    PartEnds(Sub(t, pos));
    var s := f[n..m];
    JoinSlice(f, n, m);
    CutConcat(s, f[m..], start, end);
    SameSuffix(Flat(Sub(t, pos)), Cut(s, start, end), After(t, pos));
    LowSlice(f, n, m, end);
    CutLow(s, start, end);
    forall x | 0 <= x < n ensures End(f[x]) <= start {
      assert s[0] == f[n];
      assert End(f[x]) <= f[n].block;
    }
  }

  lemma SameSuffix(a: seq<Extent>, b: seq<Extent>, c: seq<Extent>)
    requires a + c == b + c
    ensures a == b
  {
    assert |a| == |b|;
    forall i | 0 <= i < |a| ensures a[i] == b[i] { assert (a + c)[i] == (b + c)[i]; }
  }

  lemma LowSlice(f: seq<Extent>, n: nat, m: nat, end: nat)
    requires Sorted(f) && NoStraddle(f, end) && n <= m <= |f| && Low(f[..m], end)
    ensures Sorted(f[n..m]) && NoStraddle(f[n..m], end) && Low(f[n..m], end)
  {
    var s := f[n..m];
    forall i | 0 <= i < |s| ensures ValidExtent(s[i]) && s[i].block <= end && End(s[i]) <= end + 1 {
      assert s[i] == f[n + i] && f[..m][n + i] == f[n + i];
    }
    forall i, j | 0 <= i < j < |s| ensures End(s[i]) <= s[j].block {
      assert s[i] == f[n + i] && s[j] == f[n + j];
    }
  }

  /** Back to the parent when the node had become empty and its index was removed. */
  lemma GoUpRemoved(g: Geometry, t: Tree, d: nat, t0: Tree, pos: seq<nat>, cnt: seq<nat>, ms: seq<nat>,
                    f: seq<Extent>, n: nat, start: nat, end: nat, t': Tree)
    requires Walking(g, t, d, t0, pos, cnt, ms, 0, f, n, start, end)
    requires pos != [] && Entries(Sub(t, pos)) == 0
    requires var q, k := pos[..|pos|-1], pos[|pos|-1];
             && Reaches(t0, q) && Sub(t0, q).Node? && k < |Sub(t0, q).kids|
             && var kids := Without(Sub(t0, q).kids, k);
                t' == if kids == [] then Put(t0, q, Node([])) else PutKeyed(t0, q, Node(kids))
    ensures var l := |pos| - 1;
            && Reaches(t', pos[..l]) && Sub(t', pos[..l]).Node?
            && Walking(g, t', d, if Sub(t', pos[..l]).kids == [] then t0 else t', pos[..l], cnt[..l], ms[..l], pos[l],
                       f, n, start, end)
            && |Sub(t', pos[..l]).kids| < cnt[l]
  {
    var l := |pos| - 1;
    var q, k := pos[..l], pos[l];
    var kids := Without(Sub(t0, q).kids, k);
    assert FrameOk(t, pos, l, cnt[l], ms[l], f, n, start, end);
    assert Reaches(t', q) && Sub(t', q) == Node(kids) && SameAround(t, t', q) by {
      RemovedAround(t, t0, pos, t');
    }
    RmIdxStart(t0, pos, t);
    RemovedShape(g, t0, d, q, k, t');
    RemovedHalves(t, t', pos, f, n, start, end);
    UpFrames(t, t', pos, cnt, ms, f, n, n, start, end);
  }

  lemma RemovedAround(t: Tree, t0: Tree, pos: seq<nat>, t': Tree)
    requires pos != [] && Reaches(t0, pos) && Reaches(t, pos) && t == Put(t0, pos, Sub(t, pos))
    requires var q, k := pos[..|pos|-1], pos[|pos|-1];
             && Reaches(t0, q) && Sub(t0, q).Node? && k < |Sub(t0, q).kids|
             && var kids := Without(Sub(t0, q).kids, k);
                t' == if kids == [] then Put(t0, q, Node([])) else PutKeyed(t0, q, Node(kids))
    ensures var q, k := pos[..|pos|-1], pos[|pos|-1];
            Reaches(t', q) && Sub(t', q) == Node(Without(Sub(t0, q).kids, k)) && SameAround(t, t', q)
  {
    var q, k := pos[..|pos|-1], pos[|pos|-1];
    var kids := Without(Sub(t0, q).kids, k);
    AroundPut(t0, pos, Sub(t, pos));
    AroundPrefix(t0, t, pos, |pos| - 1);
    AroundFlip(t0, t, q);
    if kids == [] {
      PutReaches(t0, q, Node([]));
      AroundPut(t0, q, Node([]));
    } else {
      PutKeyedParts(t0, q, Node(kids));
      AroundPutKeyed(t0, q, Node(kids));
    }
    AroundTrans(t, t0, t', q);
  }

  lemma RemovedShape(g: Geometry, t0: Tree, d: nat, q: seq<nat>, k: nat, t': Tree)
    requires Fits(g, t0, d, true) && Reaches(t0, q) && |q| < d && Sub(t0, q).Node? && k < |Sub(t0, q).kids|
    requires var kids := Without(Sub(t0, q).kids, k);
             t' == if kids == [] then Put(t0, q, Node([])) else PutKeyed(t0, q, Node(kids))
    requires Reaches(t', q) && Sub(t', q) == Node(Without(Sub(t0, q).kids, k))
    ensures Shaped(g, t', d, if Sub(t', q).kids == [] then t0 else t', q)
  {
    var n, kids := Sub(t0, q), Without(Sub(t0, q).kids, k);
    FitsSub(g, t0, d, true, q);
    if kids != [] {
      forall j | 0 <= j < |kids| ensures KidFits(g, kids[j], d - |q| - 1) {
        assert KidFits(g, n.kids[if j < k then j else j + 1], d - |q| - 1);
      }
      PutKeyedFits(g, t0, d, true, q, Node(kids));
      PutSame(t', q);
    }
  }

  lemma RemovedHalves(t: Tree, t': Tree, pos: seq<nat>, f: seq<Extent>, n: nat, start: nat, end: nat)
    requires pos != [] && Reaches(t, pos) && Entries(Sub(t, pos)) == 0 && Halves(t, pos, 0, f, n, start, end)
    requires SameAround(t, t', pos[..|pos|-1]) && Sub(t, pos[..|pos|-1]).Node? &&
               pos[|pos|-1] < |Sub(t, pos[..|pos|-1]).kids|
    requires Sub(t', pos[..|pos|-1]) == Node(Without(Sub(t, pos[..|pos|-1]).kids, pos[|pos|-1]))
    ensures Halves(t', pos[..|pos|-1], pos[|pos|-1], f, n, start, end)
  {
    var l, k := |pos| - 1, pos[|pos|-1];
    var q := pos[..l];
    var kids := Sub(t, q).kids;
    var kids' := Without(kids, k);
    Snoc(pos);
    LastStep(t, q, k);
    PartEnds(Sub(t, pos));
    assert AroundAt(t, t', q, l) && q[..l] == q;
    assert kids'[..k] == kids[..k] && kids'[k..] == kids[k+1..];
    EmptyGlue(Before(t, pos), Part(Sub(t, pos), 0), RestOf(Sub(t, pos), 0), After(t, pos));
  }

  lemma EmptyGlue(a: seq<Extent>, b: seq<Extent>, c: seq<Extent>, d: seq<Extent>)
    requires b == [] && c == []
    ensures a + b == a && c + d == d
  {
  }

  // ------------------------------------------------------------------- a leaf

  /** The leaf at the end of the path has been cut. */
  lemma LeafCut(g: Geometry, t: Tree, d: nat, t0: Tree, pos: seq<nat>, cnt: seq<nat>, ms: seq<nat>,
                f: seq<Extent>, n: nat, start: nat, end: nat, t': Tree)
    requires Reaches(t, pos) && Walking(g, t, d, t0, pos, cnt, ms, Entries(Sub(t, pos)), f, n, start, end)
    requires |pos| == d && t == t0
    requires var exts := Cut(Sub(t, pos).exts, start, end);
             && |exts| <= |Sub(t, pos).exts|
             && t' == if exts == [] then Put(t, pos, Leaf([])) else PutKeyed(t, pos, Leaf(exts))
    ensures Reaches(t', pos) && Sub(t', pos) == Leaf(Cut(Sub(t, pos).exts, start, end))
    ensures Walking(g, t', d, if Sub(t', pos).exts == [] then t else t', pos, cnt, ms, 0, f, |Before(t, pos)|, start,
                    end)
    ensures |Before(t, pos)| + |Sub(t, pos).exts| == n
    ensures Before(t, pos) == Before(t', pos) && After(t, pos) == After(t', pos)
  {
    var exts := Sub(t, pos).exts;
    var cut := Cut(exts, start, end);
    FitsSub(g, t, d, true, pos);
    if cut == [] {
      PutReaches(t, pos, Leaf([]));
      AroundPut(t, pos, Leaf([]));
    } else {
      PutKeyedParts(t, pos, Leaf(cut));
      AroundPutKeyed(t, pos, Leaf(cut));
      PutKeyedFits(g, t, d, true, pos, Leaf(cut));
      PutSame(t', pos);
    }
    assert AroundAt(t, t', pos, d) && pos[..d] == pos;
    PartEnds(Sub(t, pos));
    PartEnds(Sub(t', pos));
    LeafSeq(Before(t, pos), exts, After(t, pos), f, n, start, end);
    SameFrames(t, t', pos, cnt, ms, f, n, |Before(t, pos)|, start, end);
  }

  lemma LeafSeq(bf: seq<Extent>, exts: seq<Extent>, af: seq<Extent>, f: seq<Extent>, n: nat, start: nat, end: nat)
    requires Cutting(bf + exts, [] + af, f, n, start, end)
    ensures |bf| + |exts| == n
    ensures Cutting(bf + [], Cut(exts, start, end) + af, f, |bf|, start, end)
  {
    PrefixParts(bf, exts, f, n);
    JoinSlice(f, |bf|, n);
    CutConcat(f[|bf|..n], f[n..], start, end);
    assert bf + [] == bf && [] + af == af;
  }

  lemma SameFrames(t: Tree, t': Tree, pos: seq<nat>, cnt: seq<nat>, ms: seq<nat>, f: seq<Extent>, n: nat, n': nat,
                   start: nat, end: nat)
    requires FramesOk(t, pos, cnt, ms, f, n, start, end) && n' <= n && SameAround(t, t', pos)
    ensures FramesOk(t', pos, cnt, ms, f, n', start, end)
  {
    forall j | 0 <= j < |pos| ensures FrameOk(t', pos, j, cnt[j], ms[j], f, n', start, end) {
      assert FrameOk(t, pos, j, cnt[j], ms[j], f, n, start, end);
      assert AroundAt(t, t', pos, j) && AroundAt(t, t', pos, j + 1);
    }
  }

  // ------------------------------------------------------------- the program

  lemma WalkFlat(t: Tree, pos: seq<nat>, u: nat, f: seq<Extent>, n: nat, start: nat, end: nat)
    requires Reaches(t, pos) && Halves(t, pos, u, f, n, start, end)
    ensures n <= |f| && Flat(t) == f[..n] + Cut(f[n..], start, end)
  {
    SubFlat(t, pos);
    PartJoin(Sub(t, pos), u);
    WalkGlue(Before(t, pos), Part(Sub(t, pos), u), RestOf(Sub(t, pos), u), After(t, pos), Flat(Sub(t, pos)), Flat(t));
  }

  lemma WalkGlue(a: seq<Extent>, b: seq<Extent>, c: seq<Extent>, e: seq<Extent>, m: seq<Extent>, s: seq<Extent>)
    requires s == a + m + e && m == b + c
    ensures s == (a + b) + (c + e)
  {
  }

  /** Data blocks are conserved: what left the extents is in the log. */
  ghost predicate DataKept(log: seq<Freed>, s: seq<Extent>, log': seq<Freed>, s': seq<Extent>) {
    forall p :: FreedData(log', p) + Owns(s', p) == FreedData(log, p) + Owns(s, p)
  }

  /** ext4_ext_rm_leaf up to the removal of an emptied leaf from its parent. */
  method RmLeaf(ino: Inode, pos: seq<nat>, ext: Option<nat>, start: nat, end: nat)
    requires Fits(ino.g, ino.root, ino.depth, true) && Reaches(ino.root, pos) && |pos| == ino.depth
    requires Sub(ino.root, pos).Leaf? && Sorted(Sub(ino.root, pos).exts) && NoStraddle(Sub(ino.root, pos).exts, end)
    requires start <= end < MAX_BLOCKS
    requires ext.Some? ==> end < MAX_BLOCKS - 1 && ext.value < |Sub(ino.root, pos).exts|
    requires ext.Some? ==> forall j :: ext.value < j < |Sub(ino.root, pos).exts| ==>
               end < Sub(ino.root, pos).exts[j].block
    modifies ino
    ensures ino.depth == old(ino.depth) && ino.pool == old(ino.pool) && ino.pendingIo == old(ino.pendingIo)
    ensures var exts := old(Sub(ino.root, pos).exts);
            var cut := Cut(exts, start, end);
            && |cut| <= |exts|
            && ino.root ==
                 (if cut == [] then Put(old(ino.root), pos, Leaf([])) else PutKeyed(old(ino.root), pos, Leaf(cut)))
            && Balanced(old(ino.freed), exts, ino.freed, cut)
    ensures forall b :: ino.Held(b) == old(ino.Held(b))
  {
    var exts := Sub(ino.root, pos).exts;
    ghost var t := ino.root;
    if exts == [] {
      PutSame(t, pos);
      return;
    }
    var from := if ext.Some? then ext.value else |exts| - 1;
    WholeLeaf(exts, from, start, end);
    var ok, cut, firstHit, log := TrimLeaf(exts, from, start, end, ino.freed);
    CutSize(exts, start, end);
    ino.freed := log;
    LeafUses(t, pos, cut);
    StoreLeaf(ino, pos, cut, firstHit);
  }

  /** Write a shortened leaf back, correcting index keys when its first entry was touched. */
  method StoreLeaf(ino: Inode, pos: seq<nat>, cut: seq<Extent>, firstHit: bool)
    requires Fits(ino.g, ino.root, ino.depth, true) && Reaches(ino.root, pos) && |pos| == ino.depth
    requires Sub(ino.root, pos).Leaf? && Sub(ino.root, pos).exts != []
    requires cut != [] && !firstHit ==> cut[0].block == Sub(ino.root, pos).exts[0].block
    modifies ino`root
    ensures ino.root == if cut == [] then Put(old(ino.root), pos, Leaf([])) else PutKeyed(old(ino.root), pos, Leaf(cut))
  {
    ghost var t := ino.root;
    PutReaches(t, pos, Leaf(cut));
    ino.root := Put(ino.root, pos, Leaf(cut));
    if cut != [] {
      if firstHit {
        ino.CorrectIndexes(Path(pos, Some(0)), t);
      } else {
        PutKeyedSame(ino.g, t, ino.depth, true, pos, Leaf(cut));
      }
    }
  }

  lemma LeafUses(t: Tree, pos: seq<nat>, cut: seq<Extent>)
    requires Reaches(t, pos) && Sub(t, pos).Leaf?
    ensures forall b :: Uses(Put(t, pos, Leaf(cut)), b) == Uses(t, b)
    ensures cut != [] ==> forall b :: Uses(PutKeyed(t, pos, Leaf(cut)), b) == Uses(t, b)
  {
    PutParts(t, pos, Leaf(cut));
    PutKeyedParts(t, pos, Leaf(cut));
    forall b ensures Uses(Put(t, pos, Leaf(cut)), b) == Uses(t, b) { SubUses(t, pos, b); }
  }

  /** Entries behind the first one to look at lie beyond the range. */
  lemma WholeLeaf(exts: seq<Extent>, from: nat, start: nat, end: nat)
    requires from < |exts| && NoStraddle(exts, end)
    requires forall j :: from < j < |exts| ==> end < exts[j].block
    ensures Cut(exts[..from+1], start, end) + exts[from+1..] == Cut(exts, start, end)
    ensures NoStraddle(exts[..from+1], end)
  {
    var a, c := exts[..from+1], exts[from+1..];
    assert exts == a + c;
    CutConcat(a, c, start, end);
    CutOutside(c, start, end);
    forall i | 0 <= i < |a| ensures a[i].block <= end ==> End(a[i]) <= end + 1 { assert a[i] == exts[i]; }
  }

  lemma {:induction false} CutSize(s: seq<Extent>, start: nat, end: nat)
    ensures |Cut(s, start, end)| <= |s|
  {
    if s != [] { CutSize(s[1..], start, end); }
  }

  /** The state after a return to an index node: the entry idx and those behind it are done. */
  ghost predicate Returned(g: Geometry, t: Tree, d: nat, t0: Tree, pos: seq<nat>, cnt: seq<nat>, ms: seq<nat>,
                           idx: nat, count: nat, f: seq<Extent>, n: nat, start: nat, end: nat) {
    && Walking(g, t, d, t0, pos, cnt, ms, idx, f, n, start, end)
    && |pos| < d && Sub(t, pos).Node? && |Sub(t, pos).kids| <= count
    && (|Sub(t, pos).kids| == count ==> Finished(f, n, start))
  }

  /** Leaving a node that has been dealt with: remove its index if it is empty. */
  method Leave(ino: Inode, pos: seq<nat>, ghost cnt: seq<nat>, ghost ms: seq<nat>, ghost t0: Tree, ghost u: nat,
               ghost f: seq<Extent>, ghost n: nat, ghost start: nat, ghost end: nat)
    returns (ghost t0': Tree, ghost n': nat)
    requires Walking(ino.g, ino.root, ino.depth, t0, pos, cnt, ms, u, f, n, start, end)
    requires pos != [] && (u == 0 || Finished(f, n, start))
    modifies ino
    ensures ino.depth == old(ino.depth) && ino.pool == old(ino.pool) && ino.pendingIo == old(ino.pendingIo)
    ensures forall b :: ino.Held(b) == old(ino.Held(b))
    ensures Flat(ino.root) == old(Flat(ino.root))
    ensures forall p :: FreedData(ino.freed, p) == FreedData(old(ino.freed), p)
    ensures n' <= n
    ensures var l := |pos| - 1;
            Returned(ino.g, ino.root, ino.depth, t0', pos[..l], cnt[..l], ms[..l], pos[l], cnt[l], f, n', start, end)
    ensures Prune(ino.root, start, end) == old(Prune(ino.root, start, end))
  {
    ghost var t := ino.root;
    WalkFlat(t, pos, u, f, n, start, end);
    if Entries(Sub(ino.root, pos)) == 0 {
      n' := n;
      RmIdx(ino, pos, t0);
      PruneEmpty(t, t0, pos, start, end);
      GoUpRemoved(ino.g, t, ino.depth, t0, pos, cnt, ms, f, n, start, end, ino.root);
      t0' := if Sub(ino.root, pos[..|pos|-1]).kids == [] then t0 else ino.root;
      WalkFlat(ino.root, pos[..|pos|-1], pos[|pos|-1], f, n', start, end);
    } else {
      GoUp(ino.g, t, ino.depth, t0, pos, cnt, ms, u, f, n, start, end);
      t0', n' := t, |Before(t, pos)|;
    }
  }

  /** Cutting the leaf at the end of the path. */
  method VisitLeaf(ino: Inode, pos: seq<nat>, ghost cnt: seq<nat>, ghost ms: seq<nat>, ext: Option<nat>,
                   ghost f: seq<Extent>, ghost n: nat, start: nat, end: nat)
    returns (ghost t0': Tree)
    requires Reaches(ino.root, pos)
    requires Walking(ino.g, ino.root, ino.depth, ino.root, pos, cnt, ms, Entries(Sub(ino.root, pos)), f, n, start, end)
    requires |pos| == ino.depth && start <= end < MAX_BLOCKS
    requires ext.Some? ==> end < MAX_BLOCKS - 1 && ext.value < |Sub(ino.root, pos).exts|
    requires ext.Some? ==> forall j :: ext.value < j < |Sub(ino.root, pos).exts| ==>
               end < Sub(ino.root, pos).exts[j].block
    modifies ino
    ensures ino.depth == old(ino.depth) && ino.pool == old(ino.pool) && ino.pendingIo == old(ino.pendingIo)
    ensures forall b :: ino.Held(b) == old(ino.Held(b))
    ensures DataKept(old(ino.freed), old(Flat(ino.root)), ino.freed, Flat(ino.root))
    ensures Walking(ino.g, ino.root, ino.depth, t0', pos, cnt, ms, 0, f, old(|Before(ino.root, pos)|), start, end)
    ensures old(|Before(ino.root, pos)|) + old(|Sub(ino.root, pos).exts|) == n
    ensures Prune(ino.root, start, end) == old(Prune(ino.root, start, end))
  {
    ghost var t := ino.root;
    LeafSlice(t, pos, f, n, start, end);
    PruneLeaf(t, pos, start, end);
    RmLeaf(ino, pos, ext, start, end);
    LeafCut(ino.g, t, ino.depth, t, pos, cnt, ms, f, n, start, end, ino.root);
    t0' := if Sub(ino.root, pos).exts == [] then t else ino.root;
    LeafKept(t, ino.root, pos, old(ino.freed), ino.freed);
  }

  lemma LeafSlice(t: Tree, pos: seq<nat>, f: seq<Extent>, n: nat, start: nat, end: nat)
    requires Reaches(t, pos) && Sub(t, pos).Leaf? && Halves(t, pos, Entries(Sub(t, pos)), f, n, start, end)
    requires Sorted(f) && NoStraddle(f, end)
    ensures Sorted(Sub(t, pos).exts) && NoStraddle(Sub(t, pos).exts, end)
  {
    var exts, b := Sub(t, pos).exts, |Before(t, pos)|;
    PartEnds(Sub(t, pos));
    PrefixParts(Before(t, pos), exts, f, n);
    forall i | 0 <= i < |exts| ensures exts[i] == f[b + i] { assert f[b..n][i] == f[b + i]; }
  }

  lemma LeafKept(t: Tree, t': Tree, pos: seq<nat>, log: seq<Freed>, log': seq<Freed>)
    requires Reaches(t, pos) && Reaches(t', pos) && Sub(t, pos).Leaf? && Sub(t', pos).Leaf?
    requires Before(t, pos) == Before(t', pos) && After(t, pos) == After(t', pos)
    requires Balanced(log, Sub(t, pos).exts, log', Sub(t', pos).exts)
    ensures DataKept(log, Flat(t), log', Flat(t'))
  {
    SubFlat(t, pos);
    SubFlat(t', pos);
    forall p ensures FreedData(log', p) + Owns(Flat(t'), p) == FreedData(log, p) + Owns(Flat(t), p) {
      OwnsMiddle(Before(t, pos), Sub(t, pos).exts, After(t, pos), p);
      OwnsMiddle(Before(t, pos), Sub(t', pos).exts, After(t, pos), p);
    }
  }

  lemma TwoParts(f: seq<Extent>, n: nat)
    requires n <= |f|
    ensures f == f[..n] + f[n..]
  {
  }

  lemma DoneOutside(f: seq<Extent>, n: nat, start: nat, end: nat)
    requires n <= |f| && Finished(f, n, start)
    ensures Cut(f[..n], start, end) == f[..n]
  {
    forall i | 0 <= i < n ensures End(f[..n][i]) <= start { assert f[..n][i] == f[i]; }
    CutOutside(f[..n], start, end);
  }

  /** At the root with everything looked at, or known to be outside the range. */
  lemma WalkEnd(t: Tree, u: nat, f: seq<Extent>, n: nat, start: nat, end: nat)
    requires Halves(t, [], u, f, n, start, end) && (u == 0 || Finished(f, n, start))
    ensures Flat(t) == Cut(f, start, end)
  {
    WalkFlat(t, [], u, f, n, start, end);
    if u == 0 { PartEnds(t); } else { DoneOutside(f, n, start, end); }
    TwoParts(f, n);
    CutConcat(f[..n], f[n..], start, end);
    assert u == 0 ==> f[..n] == [];
  }

  /** Saved position in an index node: the entry last dealt with, and the entry count saved before. */
  datatype Back = Fresh | Saved(idx: nat, count: nat)

  ghost predicate LoopInv(ino: Inode, t0: Tree, pos: seq<nat>, cnt: seq<nat>, ms: seq<nat>, back: Back,
                          ext: Option<nat>, f: seq<Extent>, n: nat, start: nat, end: nat)
    reads ino
  {
    match back
    case Saved(idx, count) =>
      && Returned(ino.g, ino.root, ino.depth, t0, pos, cnt, ms, idx, count, f, n, start, end)
      && Low(f[..n], end) && ext == None
    case Fresh =>
      && t0 == ino.root && Reaches(ino.root, pos)
      && Walking(ino.g, ino.root, ino.depth, t0, pos, cnt, ms, Entries(Sub(ino.root, pos)), f, n, start, end)
      && (ext.None? ==> Low(f[..n], end))
      && (ext.Some? ==>
            && |pos| == ino.depth && end < MAX_BLOCKS - 1 && ext.value < |Sub(ino.root, pos).exts|
            && (forall j :: ext.value < j < |Sub(ino.root, pos).exts| ==> end < Sub(ino.root, pos).exts[j].block)
            && Low(Before(ino.root, pos), end))
  }

  /** The body of the loop at the leaf level. */
  method LeafRound(ino: Inode, pos: seq<nat>, cnt: seq<nat>, ghost ms: seq<nat>, ext: Option<nat>,
                   ghost f: seq<Extent>, ghost n: nat, start: nat, end: nat)
    returns (back: Back, ghost t0': Tree, ghost n': nat)
    requires LoopInv(ino, ino.root, pos, cnt, ms, Fresh, ext, f, n, start, end)
    requires |pos| == ino.depth && start <= end < MAX_BLOCKS
    modifies ino
    ensures ino.depth == old(ino.depth) && ino.pool == old(ino.pool) && ino.pendingIo == old(ino.pendingIo)
    ensures forall b :: ino.Held(b) == old(ino.Held(b))
    ensures DataKept(old(ino.freed), old(Flat(ino.root)), ino.freed, Flat(ino.root))
    ensures pos == [] ==>
              && Flat(ino.root) == Cut(f, start, end)
              && (Fits(ino.g, ino.root, ino.depth, true) || Entries(ino.root) == 0)
              && ino.root.Leaf?
    ensures pos != [] ==>
              && n' < n && back.Saved?
              && LoopInv(ino, t0', pos[..|pos|-1], cnt[..|pos|-1], ms[..|pos|-1], back, None, f, n', start, end)
    ensures Prune(ino.root, start, end) == old(Prune(ino.root, start, end))
  {
    ghost var t := ino.root;
    LeafLow(t, pos, ext, f, n, start, end);
    n' := |Before(t, pos)|;
    t0' := VisitLeaf(ino, pos, cnt, ms, ext, f, n, start, end);
    if pos == [] {
      WalkEnd(ino.root, 0, f, n', start, end);
      back := Fresh;
      return;
    }
    FitsSub(ino.g, t, ino.depth, true, pos);
    ghost var m := n';
    t0', n' := Leave(ino, pos, cnt, ms, t0', 0, f, m, start, end);
    LowPrefix(f, n', m, end);
    back := Saved(pos[|pos|-1], cnt[|pos|-1]);
  }

  lemma LeafLow(t: Tree, pos: seq<nat>, ext: Option<nat>, f: seq<Extent>, n: nat, start: nat, end: nat)
    requires Reaches(t, pos) && Sub(t, pos).Leaf? && Halves(t, pos, Entries(Sub(t, pos)), f, n, start, end)
    requires (ext.None? ==> Low(f[..n], end)) && (ext.Some? ==> Low(Before(t, pos), end))
    ensures |Before(t, pos)| <= n && Low(f[..|Before(t, pos)|], end)
  {
    PrefixParts(Before(t, pos), Part(Sub(t, pos), Entries(Sub(t, pos))), f, n);
    if ext.None? { LowPrefix(f, |Before(t, pos)|, n, end); }
  }

  lemma LowPrefix(f: seq<Extent>, n: nat, m: nat, end: nat)
    requires n <= m <= |f| && Low(f[..m], end)
    ensures Low(f[..n], end)
  {
    forall i | 0 <= i < n ensures f[..n][i].block <= end { assert f[..n][i] == f[..m][i]; }
  }

  /** The loop of ext4_ext_remove_space. A level is fresh when the walk enters it and
      has a saved position when the walk comes back to it. */
  method RemoveLoop(ino: Inode, pos0: seq<nat>, cnt0: seq<nat>, ghost ms0: seq<nat>, ext0: Option<nat>,
                    start: nat, end: nat, ghost f: seq<Extent>, ghost n0: nat)
    requires LoopInv(ino, ino.root, pos0, cnt0, ms0, Fresh, ext0, f, n0, start, end)
    requires start <= end < MAX_BLOCKS
    modifies ino
    ensures ino.depth == old(ino.depth) && ino.pool == old(ino.pool) && ino.pendingIo == old(ino.pendingIo)
    ensures forall b :: ino.Held(b) == old(ino.Held(b))
    ensures DataKept(old(ino.freed), old(Flat(ino.root)), ino.freed, Flat(ino.root))
    ensures Flat(ino.root) == Cut(f, start, end)
    ensures Fits(ino.g, ino.root, ino.depth, true) || Entries(ino.root) == 0
    ensures ino.root.Leaf? <==> ino.depth == 0
    ensures Prune(ino.root, start, end) == old(Prune(ino.root, start, end))
  {
    var pos: seq<nat>, cnt: seq<nat>, ext, back, done := pos0, cnt0, ext0, Fresh, false;
    ghost var t0: Tree, ms: seq<nat>, n: nat := ino.root, ms0, n0;
    while !done
      invariant ino.depth == old(ino.depth) && ino.pool == old(ino.pool) && ino.pendingIo == old(ino.pendingIo)
      invariant forall b :: ino.Held(b) == old(ino.Held(b))
      invariant DataKept(old(ino.freed), old(Flat(ino.root)), ino.freed, Flat(ino.root))
      invariant Prune(ino.root, start, end) == old(Prune(ino.root, start, end))
      invariant !done ==> LoopInv(ino, t0, pos, cnt, ms, back, ext, f, n, start, end)
      invariant done ==>
                  && Flat(ino.root) == Cut(f, start, end)
                  && (Fits(ino.g, ino.root, ino.depth, true) || Entries(ino.root) == 0)
                  && (ino.root.Leaf? <==> ino.depth == 0)
      decreases if done then 0 else n + 1, if back.Fresh? then 0 else 1, if back.Fresh? then ino.depth - |pos|
          else |pos| + 1
    {
      if |pos| == ino.depth {
        back, t0, n := LeafRound(ino, pos, cnt, ms, ext, f, n, start, end);
        ext := None;
      } else {
        var down;
        down, back, t0, n := IndexRound(ino, pos, cnt, ms, back, ext, f, n, start, end, t0);
        if down.Some? {
          pos, cnt, ms := pos + [down.value], cnt + [|Sub(ino.root, pos).kids|], ms + [n];
          continue;
        }
      }
      if pos == [] {
        done := true;
      } else {
        pos, cnt, ms := pos[..|pos|-1], cnt[..|pos|-1], ms[..|pos|-1];
      }
    }
  }

  /** The body of the loop at an index level: enter the next child to the left, or leave. */
  method IndexRound(ino: Inode, pos: seq<nat>, cnt: seq<nat>, ghost ms: seq<nat>, back: Back, ghost ext: Option<nat>,
                    ghost f: seq<Extent>, ghost n: nat, ghost start: nat, ghost end: nat, ghost t0: Tree)
    returns (down: Option<nat>, back': Back, ghost t0': Tree, ghost n': nat)
    requires LoopInv(ino, t0, pos, cnt, ms, back, ext, f, n, start, end) && |pos| < ino.depth
    modifies ino
    ensures ino.depth == old(ino.depth) && ino.pool == old(ino.pool) && ino.pendingIo == old(ino.pendingIo)
    ensures forall b :: ino.Held(b) == old(ino.Held(b))
    ensures Flat(ino.root) == old(Flat(ino.root))
    ensures forall p :: FreedData(ino.freed, p) == FreedData(old(ino.freed), p)
    ensures n' <= n
    ensures back.Fresh? ==> down.Some?
    ensures down.Some? ==>
              && back' == Fresh && n' == n && Reaches(ino.root, pos) && Sub(ino.root, pos).Node?
              && LoopInv(ino, t0', pos + [down.value], cnt + [|Sub(ino.root, pos).kids|], ms + [n], Fresh, None, f, n,
                         start, end)
    ensures down.None? && pos != [] ==>
              && back'.Saved?
              && LoopInv(ino, t0', pos[..|pos|-1], cnt[..|pos|-1], ms[..|pos|-1], back', None, f, n', start, end)
    ensures down.None? && pos == [] ==>
              && Flat(ino.root) == Cut(f, start, end)
              && (Fits(ino.g, ino.root, ino.depth, true) || Entries(ino.root) == 0)
              && ino.root.Node?
    ensures Prune(ino.root, start, end) == old(Prune(ino.root, start, end))
  {
    var kids := Sub(ino.root, pos).kids;
    var u, count := if back.Fresh? then |kids| else back.idx, if back.Fresh? then |kids| + 1 else back.count;
    n' := n;
    if back.Fresh? {
      FitsSub(ino.g, ino.root, ino.depth, true, pos);
    }
    // ext4_ext_more_to_rm
    if u > 0 && |kids| != count {
      GoDown(ino.g, ino.root, ino.depth, t0, pos, cnt, ms, u - 1, f, n, start, end);
      return Some(u - 1), Fresh, ino.root, n;
    }
    down, back' := None, Fresh;
    if pos == [] {
      t0' := t0;
      WalkEnd(ino.root, u, f, n, start, end);
    } else {
      t0', n' := Leave(ino, pos, cnt, ms, t0, u, f, n, start, end);
      LowPrefix(f, n', n, end);
      back' := Saved(pos[|pos|-1], cnt[|pos|-1]);
    }
  }

  // ------------------------------------------------------------ the start

  /** The counts with which a walk that begins inside the tree starts: one more than
      the entries, and at the root the block number left there by ext4_find_extent. */
  method StartCounts(t: Tree, pos: seq<nat>) returns (cnt: seq<nat>)
    requires Reaches(t, pos)
    ensures |cnt| == |pos|
    ensures forall j :: 0 < j < |pos| ==> Reaches(t, pos[..j]) && cnt[j] == Entries(Sub(t, pos[..j])) + 1
    ensures |pos| > 0 ==> t.Node? && pos[0] < |t.kids| && cnt[0] == t.kids[pos[0]].blk
  {
    cnt := [];
    if pos == [] {
      return;
    }
    var k := |pos| - 1;
    while k > 0
      invariant 0 <= k < |pos| && |cnt| == |pos| - 1 - k
      invariant forall j :: k < j < |pos| ==> Reaches(t, pos[..j]) && cnt[j - k - 1] == Entries(Sub(t, pos[..j])) + 1
    {
      PathPrefix(t, pos, k);
      cnt := [Entries(Sub(t, pos[..k])) + 1] + cnt;
      k := k - 1;
    }
    cnt := [t.kids[pos[0]].blk] + cnt;
  }

  /** Every tree block number exceeds the capacity of the root. */
  lemma RootCount(t: Tree, i: nat, cap: nat)
    requires t.Node? && i < |t.kids| <= cap && forall b: nat :: b <= cap ==> Uses(t, b) == 0
    ensures |t.kids| < t.kids[i].blk
  {
    UsesKidsAt(t.kids, i, t.kids[i].blk);
    assert Uses(t, t.kids[i].blk) >= UsesKid(t.kids[i], t.kids[i].blk) >= 1;
  }

  /** The state of a walk that begins at the leaf found for end. */
  lemma StartInside(g: Geometry, t: Tree, d: nat, path: Path, cnt: seq<nat>, ms: seq<nat>, f: seq<Extent>, n: nat,
                    start: nat, end: nat)
    requires WellFormed(g, t, d) && PathFor(t, path, end) && |path.pos| == d && path.ext.Some?
    requires f == Flat(t) && NoStraddle(f, end) && |cnt| == d && |ms| == d
    requires n == |Before(t, path.pos)| + |Sub(t, path.pos).exts| && forall j :: 0 <= j < d ==> ms[j] == n
    requires forall j :: 0 <= j < d ==> Reaches(t, path.pos[..j]) && Entries(Sub(t, path.pos[..j])) < cnt[j]
    ensures Walking(g, t, d, t, path.pos, cnt, ms, |Sub(t, path.pos).exts|, f, n, start, end)
    ensures Low(Before(t, path.pos), end)
  {
    LeafBracket(g, t, d, path, end);
    StartHalves(t, path.pos, f, n, start, end);
    ShapedWhole(g, t, d, path.pos);
    StartFrames(t, path.pos, cnt, ms, f, n, start, end);
  }

  lemma StartFrames(t: Tree, pos: seq<nat>, cnt: seq<nat>, ms: seq<nat>, f: seq<Extent>, n: nat, start: nat, end: nat)
    requires Reaches(t, pos) && |cnt| == |pos| && n <= |f|
    requires |ms| == |pos| && forall j :: 0 <= j < |pos| ==> ms[j] == n
    requires forall j :: 0 <= j < |pos| ==> Reaches(t, pos[..j]) && Entries(Sub(t, pos[..j])) < cnt[j]
    ensures FramesOk(t, pos, cnt, ms, f, n, start, end)
  {
    forall j | 0 <= j < |pos| ensures FrameOk(t, pos, j, cnt[j], n, f, n, start, end) {
      PathStep(t, pos, j);
    }
  }

  lemma ShapedWhole(g: Geometry, t: Tree, d: nat, pos: seq<nat>)
    requires Fits(g, t, d, true) && Reaches(t, pos) && |pos| == d && Sub(t, pos).Leaf?
    ensures Shaped(g, t, d, t, pos)
  {
    PutSame(t, pos);
  }

  lemma StartHalves(t: Tree, pos: seq<nat>, f: seq<Extent>, n: nat, start: nat, end: nat)
    requires Reaches(t, pos) && Sub(t, pos).Leaf? && Sub(t, pos).exts != [] && f == Flat(t) && Sorted(f)
    requires Before(t, pos) != [] ==> Sub(t, pos).exts[0].block <= end
    requires After(t, pos) != [] ==> end < After(t, pos)[0].block
    requires n == |Before(t, pos)| + |Sub(t, pos).exts|
    ensures Halves(t, pos, |Sub(t, pos).exts|, f, n, start, end) && Low(Before(t, pos), end)
  {
    SubFlat(t, pos);
    StartSeq(Before(t, pos), Sub(t, pos).exts, After(t, pos), f, start, end);
    PartEnds(Sub(t, pos));
  }

  lemma StartSeq(bf: seq<Extent>, exts: seq<Extent>, af: seq<Extent>, f: seq<Extent>, start: nat, end: nat)
    requires f == bf + exts + af && Sorted(f) && exts != []
    requires bf != [] ==> exts[0].block <= end
    requires af != [] ==> end < af[0].block
    ensures Cutting(bf + exts, [] + af, f, |bf| + |exts|, start, end) && Low(bf, end)
  {
    Suffix(bf + exts, af);
    assert Sorted(af) && Low(bf, end) by { StartOrder(bf, exts, af, end); }
    if af != [] { AllBeyond(af, end); }
    CutOutside(af, start, end);
    assert [] + af == af;
  }

  lemma StartOrder(bf: seq<Extent>, exts: seq<Extent>, af: seq<Extent>, end: nat)
    requires Sorted(bf + exts + af) && exts != [] && (bf != [] ==> exts[0].block <= end)
    ensures Sorted(af) && Low(bf, end)
  {
    SortedParts(bf + exts, af);
    SortedParts(bf, exts);
    forall i | 0 <= i < |bf| ensures bf[i].block <= end { assert End(bf[i]) <= exts[0].block; }
  }

  lemma Suffix(a: seq<Extent>, b: seq<Extent>)
    ensures (a + b)[..|a|] == a && (a + b)[|a|..] == b
  {
  }

  lemma AllBeyond(s: seq<Extent>, end: nat)
    requires Sorted(s) && s != [] && end < s[0].block
    ensures forall i :: 0 <= i < |s| ==> end < s[i].block
  {
    forall i | 0 <= i < |s| ensures end < s[i].block { assert i > 0 ==> End(s[0]) <= s[i].block; }
  }

  lemma StraddleFree(f: seq<Extent>, r: nat, end: nat)
    requires Sorted(f) && r < |f|
    requires forall j :: r < j < |f| ==> end < f[j].block
    requires f[r].block <= end ==> End(f[r]) <= end + 1
    requires end < f[r].block ==> r == 0
    ensures NoStraddle(f, end)
  {
    forall i | 0 <= i < |f| ensures f[i].block <= end ==> End(f[i]) <= end + 1 {
      if i < r { assert End(f[i]) <= f[r].block; }
    }
  }

  lemma CoverRank(f: seq<Extent>, k: nat, r: nat, b: nat)
    requires Sorted(f) && k < |f| && r < |f| && Covers(f[k], b)
    requires forall j :: r < j < |f| ==> b < f[j].block
    requires b < f[r].block ==> r == 0
    ensures r == k
  {
    assert ValidExtent(f[k]);
  }

  /** Find the extent for end; if it reaches beyond end, split it there and look again. */
  method PrepareEnd(ino: Inode, end: nat) returns (r: Status, path: Path)
    requires ino.Valid() && end < MAX_BLOCKS - 1
    modifies ino
    ensures ino.Valid() && ino.pendingIo == old(ino.pendingIo)
    ensures forall b :: ino.Held(b) == old(ino.Held(b))
    ensures forall p :: FreedData(ino.freed, p) == FreedData(old(ino.freed), p)
    ensures r != Ok ==>
              r == NoSpace && Flat(ino.root) == old(Flat(ino.root)) && |old(ino.pool)| < old(ino.depth) + 2 &&
                  ino.pool == []
    ensures SameMap(old(Flat(ino.root)), Flat(ino.root)) &&
              forall p :: Owns(Flat(ino.root), p) == old(Owns(Flat(ino.root), p))
    ensures r == Ok ==> PathFor(ino.root, path, end) && |path.pos| == ino.depth
    ensures r == Ok ==> NoStraddle(Flat(ino.root), end)
    ensures r == Ok ==> ino.freed == old(ino.freed)
    ensures NoStraddle(old(Flat(ino.root)), end) ==> r == Ok && ino.root == old(ino.root) && ino.pool == old(ino.pool)
  {
    FitsSearchable(ino.g, ino.root, ino.depth, true);
    path := FindExtent(ino.root, ino.depth, end);
    r := Ok;
    if path.ext.None? {
      EmptyLeaf(ino.g, ino.root, ino.depth, path.pos);
      return;
    }
    RankBracket(ino.g, ino.root, ino.depth, path, end);
    RankAt(ino.root, path);
    var ex := Sub(ino.root, path.pos).exts[path.ext.value];
    if ex.block <= end && end < End(ex) - 1 {
      r, path := SplitEnd(ino, path, end);
    } else {
      StraddleFree(Flat(ino.root), Rank(ino.root, path), end);
    }
  }

  /** Split the extent that crosses the end of the range and search again. */
  method SplitEnd(ino: Inode, path: Path, end: nat) returns (r: Status, path': Path)
    requires ino.Valid() && PathTo(ino.root, ino.depth, path, end + 1)
    requires Sub(ino.root, path.pos).exts[path.ext.value].block <= end
    modifies ino
    ensures ino.Valid() && ino.pendingIo == old(ino.pendingIo)
    ensures forall b :: ino.Held(b) == old(ino.Held(b))
    ensures forall p :: FreedData(ino.freed, p) == FreedData(old(ino.freed), p)
    ensures r != Ok ==>
              r == NoSpace && Flat(ino.root) == old(Flat(ino.root)) && |old(ino.pool)| < old(ino.depth) + 2 &&
                  ino.pool == []
    ensures SameMap(old(Flat(ino.root)), Flat(ino.root)) &&
              forall p :: Owns(Flat(ino.root), p) == old(Owns(Flat(ino.root), p))
    ensures r == Ok ==> PathFor(ino.root, path', end) && |path'.pos| == ino.depth && NoStraddle(Flat(ino.root), end)
    ensures r == Ok ==> ino.freed == old(ino.freed)
  {
    ghost var f, k := Flat(ino.root), Rank(ino.root, path);
    r := ForceSplitAt(ino, path, end + 1);
    path' := path;
    if r == Ok {
      FitsSearchable(ino.g, ino.root, ino.depth, true);
      path' := FindExtent(ino.root, ino.depth, end);
      AfterForce(ino.g, ino.root, ino.depth, path', f, k, end);
    }
  }

  lemma AfterForce(g: Geometry, t: Tree, d: nat, path: Path, f: seq<Extent>, k: nat, end: nat)
    requires WellFormed(g, t, d) && PathFor(t, path, end) && |path.pos| == d
    requires k < |f| && ValidExtent(f[k]) && f[k].block <= end && f[k].block < end + 1 < End(f[k])
    requires Flat(t) ==
               f[..k] + [HeadOf(f[k], end + 1, Unwritten(f[k])), TailOf(f[k], end + 1, Unwritten(f[k]))] + f[k+1..]
    ensures NoStraddle(Flat(t), end)
  {
    var f', h := Flat(t), HeadOf(f[k], end + 1, Unwritten(f[k]));
    assert f'[k] == h;
    assert path.ext.Some? by {
      if path.ext.None? { EmptyLeaf(g, t, d, path.pos); }
    }
    RankBracket(g, t, d, path, end);
    CoverRank(f', k, Rank(t, path), end);
    StraddleFree(f', k, end);
  }

  /** ext4_ext_remove_space for cluster ratio 1. Tree block numbers must exceed the root's
      capacity, because the count of the root level starts as a block number. In a file that maps
      no physical block twice, exactly the blocks of the range are freed, each once. */
  method RemoveSpace(ino: Inode, start: nat, end: nat) returns (r: Status, ghost mid: Tree)
    requires ino.Valid() && start <= end < MAX_BLOCKS
    requires forall b: nat :: b <= ino.g.rootIdx ==> ino.Held(b) == 0
    modifies ino
    ensures ino.Valid() && ino.pendingIo == old(ino.pendingIo)
    ensures r == Ok ==> forall b: nat ::
              At(Flat(ino.root), b) == if start <= b <= end then None else old(At(Flat(ino.root), b))
    ensures r != Ok ==>
              r == NoSpace && Flat(ino.root) == old(Flat(ino.root)) && |old(ino.pool)| < old(ino.depth) + 2 &&
                  ino.pool == []
    ensures DataKept(old(ino.freed), old(Flat(ino.root)), ino.freed, Flat(ino.root))
    ensures forall p: nat :: old(Owns(Flat(ino.root), p)) <= 1 ==>
              FreedData(ino.freed, p) == old(FreedData(ino.freed, p)) +
              if r == Ok && MappedIn(old(Flat(ino.root)), p, start, end) then 1 else 0
    ensures forall b :: ino.Held(b) == old(ino.Held(b))
    ensures SameMap(old(Flat(ino.root)), Flat(mid)) && (NoStraddle(old(Flat(ino.root)), end) ==> mid == old(ino.root))
    ensures r == Ok ==> forall b ::
              && Uses(mid, b) + Count(ino.pool, b) == old(Uses(ino.root, b) + Count(ino.pool, b))
              && FreedMeta(ino.freed, b) + Uses(Prune(mid, start, end), b) ==
                   old(FreedMeta(ino.freed, b)) + Uses(mid, b)
  {
    ghost var f, log := Flat(ino.root), ino.freed;
    r, mid := RemoveRange(ino, start, end);
    if r == Ok { AllFreedExactly(log, f, ino.freed, Flat(ino.root), start, end); }
  }

  lemma AllFreedExactly(log: seq<Freed>, f: seq<Extent>, log': seq<Freed>, f': seq<Extent>, start: nat, end: nat)
    requires Sorted(f) && Sorted(f') && DataKept(log, f, log', f')
    requires forall b: nat :: At(f', b) == if start <= b <= end then None else At(f, b)
    ensures forall p: nat :: Owns(f, p) <= 1 ==>
              FreedData(log', p) == FreedData(log, p) + if MappedIn(f, p, start, end) then 1 else 0
  {
    forall p: nat | Owns(f, p) <= 1
      ensures FreedData(log', p) == FreedData(log, p) + if MappedIn(f, p, start, end) then 1 else 0
    {
      FreedExactly(log, f, log', f', start, end, p);
    }
  }

  method RemoveRange(ino: Inode, start: nat, end: nat) returns (r: Status, ghost mid: Tree)
    requires ino.Valid() && start <= end < MAX_BLOCKS
    requires forall b: nat :: b <= ino.g.rootIdx ==> ino.Held(b) == 0
    modifies ino
    ensures ino.Valid() && ino.pendingIo == old(ino.pendingIo)
    ensures r == Ok ==> forall b: nat ::
              At(Flat(ino.root), b) == if start <= b <= end then None else old(At(Flat(ino.root), b))
    ensures r != Ok ==>
              r == NoSpace && Flat(ino.root) == old(Flat(ino.root)) && |old(ino.pool)| < old(ino.depth) + 2 &&
                  ino.pool == []
    ensures DataKept(old(ino.freed), old(Flat(ino.root)), ino.freed, Flat(ino.root))
    ensures forall b :: ino.Held(b) == old(ino.Held(b))
    ensures SameMap(old(Flat(ino.root)), Flat(mid)) && (NoStraddle(old(Flat(ino.root)), end) ==> mid == old(ino.root))
    ensures r == Ok ==> forall b ::
              && Uses(mid, b) + Count(ino.pool, b) == old(Uses(ino.root, b) + Count(ino.pool, b))
              && FreedMeta(ino.freed, b) + Uses(Prune(mid, start, end), b) ==
                   old(FreedMeta(ino.freed, b)) + Uses(mid, b)
  {
    ghost var f0, log0 := Flat(ino.root), ino.freed;
    var path: Option<Path> := None;
    r, mid := Ok, ino.root;
    if end < MAX_BLOCKS - 1 {
      var found;
      r, found := PrepareEnd(ino, end);
      mid := ino.root;
      forall b | r == Ok ensures Uses(mid, b) + Count(ino.pool, b) == old(Uses(ino.root, b) + Count(ino.pool, b)) {
        assert ino.Held(b) == old(ino.Held(b));
      }
      if r != Ok {
        return;
      }
      if found.ext.None? {
        EmptyLeaf(ino.g, ino.root, ino.depth, found.pos);
        EmptyMap(f0, Flat(ino.root));
        return;
      }
      path := Some(found);
    }
    ghost var f := Flat(ino.root);
    RemoveWalk(ino, path, start, end);
    RemovedMap(f0, f, Flat(ino.root), start, end);
  }

  lemma RemovedMap(f0: seq<Extent>, f: seq<Extent>, f1: seq<Extent>, start: nat, end: nat)
    requires SameMap(f0, f) && Sorted(f) && NoStraddle(f, end) && f1 == Cut(f, start, end)
    ensures forall b: nat :: At(f1, b) == if start <= b <= end then None else At(f0, b)
  {
    forall b: nat ensures At(f1, b) == if start <= b <= end then None else At(f0, b) {
      CutMap(f, start, end, b);
      assert At(f0, b) == At(f, b);
    }
  }

  /** The walk and the final reset of an emptied root. */
  method RemoveWalk(ino: Inode, path: Option<Path>, start: nat, end: nat)
    requires ino.Valid() && start <= end < MAX_BLOCKS
    requires forall b: nat :: b <= ino.g.rootIdx ==> ino.Held(b) == 0
    requires path.None? ==> end == MAX_BLOCKS - 1
    requires path.Some? ==>
               && end < MAX_BLOCKS - 1 && PathFor(ino.root, path.value, end) && |path.value.pos| == ino.depth
               && path.value.ext.Some? && NoStraddle(Flat(ino.root), end)
    modifies ino
    ensures ino.Valid() && ino.pendingIo == old(ino.pendingIo)
    ensures NoStraddle(old(Flat(ino.root)), end) && Flat(ino.root) == Cut(old(Flat(ino.root)), start, end)
    ensures DataKept(old(ino.freed), old(Flat(ino.root)), ino.freed, Flat(ino.root))
    ensures forall b :: ino.Held(b) == old(ino.Held(b))
    ensures ino.pool == old(ino.pool)
    ensures forall b :: FreedMeta(ino.freed, b) + Uses(Prune(old(ino.root), start, end), b) ==
                        old(FreedMeta(ino.freed, b)) + old(Uses(ino.root, b))
  {
    var pos, cnt, ext, ms, n := StartWalk(ino, path, start, end);
    ghost var f := Flat(ino.root);
    RemoveLoop(ino, pos, cnt, ms, ext, start, end, f, n);
    CutSorted(f, start, end);
    forall b ensures FreedMeta(ino.freed, b) + Uses(Prune(old(ino.root), start, end), b) ==
                     old(FreedMeta(ino.freed, b)) + old(Uses(ino.root, b))
    {
      assert ino.Held(b) == old(ino.Held(b));
      AllPruned(ino.g, ino.root, ino.depth, f, start, end, b);
    }
    ResetRoot(ino);
  }

  /** When the walk is over, nothing is left to prune. */
  lemma AllPruned(g: Geometry, t: Tree, d: nat, f: seq<Extent>, start: nat, end: nat, b: nat)
    requires Sorted(f) && Flat(t) == Cut(f, start, end) && (Fits(g, t, d, true) || Entries(t) == 0)
    ensures Uses(Prune(t, start, end), b) == Uses(t, b)
  {
    CutTwice(f, start, end);
    if Entries(t) > 0 { PruneDone(g, t, d, true, start, end, b); }
  }

  /** Where the walk starts: at the found path, or at the root. */
  method StartWalk(ino: Inode, path: Option<Path>, start: nat, end: nat)
    returns (pos: seq<nat>, cnt: seq<nat>, ext: Option<nat>, ghost ms: seq<nat>, ghost n: nat)
    requires ino.Valid() && start <= end < MAX_BLOCKS
    requires forall b: nat :: b <= ino.g.rootIdx ==> ino.Held(b) == 0
    requires path.None? ==> end == MAX_BLOCKS - 1
    requires path.Some? ==>
               && end < MAX_BLOCKS - 1 && PathFor(ino.root, path.value, end) && |path.value.pos| == ino.depth
               && path.value.ext.Some? && NoStraddle(Flat(ino.root), end)
    ensures LoopInv(ino, ino.root, pos, cnt, ms, Fresh, ext, Flat(ino.root), n, start, end)
    ensures NoStraddle(Flat(ino.root), end)
  {
    if path.None? {
      pos, cnt, ext, ms, n := [], [], None, [], |Flat(ino.root)|;
      StartOutside(ino.g, ino.root, ino.depth, start, end);
      return;
    }
    pos, ext := path.value.pos, path.value.ext;
    cnt := StartCounts(ino.root, pos);
    StartCountsOk(ino, pos, cnt);
    n := |Before(ino.root, pos)| + |Sub(ino.root, pos).exts|;
    ms := seq(ino.depth, _ => n);
    StartInside(ino.g, ino.root, ino.depth, path.value, cnt, ms, Flat(ino.root), n, start, end);
    StartTail(ino.g, ino.root, ino.depth, path.value, end);
  }

  lemma StartTail(g: Geometry, t: Tree, d: nat, path: Path, end: nat)
    requires WellFormed(g, t, d) && PathFor(t, path, end) && |path.pos| == d && path.ext.Some?
    ensures path.ext.value < |Sub(t, path.pos).exts|
    ensures forall j :: path.ext.value < j < |Sub(t, path.pos).exts| ==> end < Sub(t, path.pos).exts[j].block
  {
  }

  /** An emptied tree is reset to an empty root leaf. */
  method ResetRoot(ino: Inode)
    requires ValidGeometry(ino.g) && Sorted(Flat(ino.root))
    requires Fits(ino.g, ino.root, ino.depth, true) || Entries(ino.root) == 0
    modifies ino
    ensures ino.Valid() && Flat(ino.root) == old(Flat(ino.root))
    ensures ino.freed == old(ino.freed) && ino.pool == old(ino.pool) && ino.pendingIo == old(ino.pendingIo)
    ensures forall b :: Uses(ino.root, b) == old(Uses(ino.root, b)) && ino.Held(b) == old(ino.Held(b))
  {
    if Entries(ino.root) == 0 {
      EmptyRoot(ino.root);
      ino.root := Leaf([]);
      ino.depth := 0;
    }
  }

  lemma EmptyRoot(t: Tree)
    requires Entries(t) == 0
    ensures Flat(t) == [] && forall b :: Uses(t, b) == 0
  {
  }

  lemma EmptyMap(f0: seq<Extent>, f: seq<Extent>)
    requires SameMap(f0, f) && f == []
    ensures forall b: nat :: At(f0, b) == None
  {
    forall b: nat ensures At(f0, b) == None { assert At(f, b) == None; }
  }

  lemma StartCountsOk(ino: Inode, pos: seq<nat>, cnt: seq<nat>)
    requires ino.Valid() && Reaches(ino.root, pos) && |pos| == ino.depth && |cnt| == |pos|
    requires forall j :: 0 < j < |pos| ==> Reaches(ino.root, pos[..j]) && cnt[j] == Entries(Sub(ino.root, pos[..j])) + 1
    requires |pos| > 0 ==> ino.root.Node? && pos[0] < |ino.root.kids| && cnt[0] == ino.root.kids[pos[0]].blk
    requires forall b: nat :: b <= ino.g.rootIdx ==> ino.Held(b) == 0
    ensures forall j :: 0 <= j < |pos| ==> Reaches(ino.root, pos[..j]) && Entries(Sub(ino.root, pos[..j])) < cnt[j]
  {
    if |pos| > 0 {
      assert forall b: nat :: b <= ino.g.rootIdx ==> Uses(ino.root, b) == 0 by {
        forall b: nat | b <= ino.g.rootIdx ensures Uses(ino.root, b) == 0 { assert ino.Held(b) == 0; }
      }
      RootCount(ino.root, pos[0], ino.g.rootIdx);
      assert pos[..0] == [];
    }
  }

  /** The state of a walk that begins at the root, for a range up to the end of the file. */
  lemma StartOutside(g: Geometry, t: Tree, d: nat, start: nat, end: nat)
    requires WellFormed(g, t, d) && end == MAX_BLOCKS - 1
    ensures Walking(g, t, d, t, [], [], [], Entries(t), Flat(t), |Flat(t)|, start, end)
    ensures Low(Flat(t)[..|Flat(t)|], end)
  {
    var f := Flat(t);
    PartEnds(t);
    assert f[..|f|] == f && f[|f|..] == [];
    forall i | 0 <= i < |f| ensures f[i].block <= end && End(f[i]) <= end + 1 { assert ValidExtent(f[i]); }
  }

  // ------------------------------------------------------ what was freed

  /** A block that the log gained: one that a logical block of the range mapped to. */
  ghost predicate MappedIn(f: seq<Extent>, p: nat, start: nat, end: nat) {
    exists b: nat :: start <= b <= end && At(f, b).Some? && At(f, b).value.pblk == p
  }

  /** In a file that maps no physical block twice, cutting a range puts a physical block
      into the log exactly once if a logical block of the range mapped to it, and else not at all. */
  lemma FreedExactly(log: seq<Freed>, f: seq<Extent>, log': seq<Freed>, f': seq<Extent>, start: nat, end: nat, p: nat)
    requires Sorted(f) && Sorted(f') && DataKept(log, f, log', f')
    requires forall b: nat :: At(f', b) == if start <= b <= end then None else At(f, b)
    requires Owns(f, p) <= 1
    ensures FreedData(log', p) == FreedData(log, p) + if MappedIn(f, p, start, end) then 1 else 0
  {
    if Owns(f, p) == 0 {
      if MappedIn(f, p, start, end) {
        var b: nat :| start <= b <= end && At(f, b).Some? && At(f, b).value.pblk == p;
        MappedOwned(f, b);
      }
      if Owns(f', p) > 0 {
        var c := OwnedMapped(f', p);
        MappedOwned(f, c);
      }
    } else {
      var b := OwnedMapped(f, p);
      if Owns(f', p) > 0 {
        var c := OwnedMapped(f', p);
        if MappedIn(f, p, start, end) {
          var x: nat :| start <= x <= end && At(f, x).Some? && At(f, x).value.pblk == p;
          MappedTwice(f, x, c);
        }
      } else if !(start <= b <= end) {
        MappedOwned(f', b);
      }
    }
    if Owns(f', p) > 1 {
      var b, c := MappedPair(f', p);
      MappedTwice(f, b, c);
    }
  }

  lemma {:induction false} OwnedPair(s: seq<Extent>, p: nat) returns (i: nat, j: nat)
    requires Owns(s, p) > 1
    ensures i < j < |s| && InRun(s[i].pblk, Len(s[i]), p) == 1 && InRun(s[j].pblk, Len(s[j]), p) == 1
  {
    if InRun(s[0].pblk, Len(s[0]), p) == 1 {
      var k := OwnedAt(s[1..], p);
      i, j := 0, k + 1;
    } else {
      i, j := OwnedPair(s[1..], p);
      i, j := i + 1, j + 1;
    }
  }

  lemma MappedPair(s: seq<Extent>, p: nat) returns (b: nat, c: nat)
    requires Sorted(s) && Owns(s, p) > 1
    ensures b != c && At(s, b).Some? && At(s, c).Some? && At(s, b).value.pblk == p && At(s, c).value.pblk == p
  {
    var i, j := OwnedPair(s, p);
    b, c := s[i].block + (p - s[i].pblk), s[j].block + (p - s[j].pblk);
    AtHit(s, i, b);
    AtHit(s, j, c);
  }

  lemma {:induction false} OwnsAt(s: seq<Extent>, i: nat, p: nat)
    requires i < |s|
    ensures Owns(s, p) >= InRun(s[i].pblk, Len(s[i]), p)
  {
    if i > 0 { OwnsAt(s[1..], i - 1, p); }
  }

  lemma {:induction false} OwnsTwice(s: seq<Extent>, i: nat, j: nat, p: nat)
    requires i < j < |s|
    ensures Owns(s, p) >= InRun(s[i].pblk, Len(s[i]), p) + InRun(s[j].pblk, Len(s[j]), p)
  {
    if i > 0 { OwnsTwice(s[1..], i - 1, j - 1, p); } else { OwnsAt(s[1..], j - 1, p); }
  }

  lemma MappedOwned(s: seq<Extent>, b: nat)
    requires At(s, b).Some?
    ensures Owns(s, At(s, b).value.pblk) >= 1
  {
    var i := AtSome(s, b);
    OwnsAt(s, i, At(s, b).value.pblk);
  }

  lemma {:induction false} OwnedAt(s: seq<Extent>, p: nat) returns (i: nat)
    requires Owns(s, p) > 0
    ensures i < |s| && InRun(s[i].pblk, Len(s[i]), p) == 1
  {
    if InRun(s[0].pblk, Len(s[0]), p) == 1 {
      i := 0;
    } else {
      var k := OwnedAt(s[1..], p);
      i := k + 1;
    }
  }

  lemma OwnedMapped(s: seq<Extent>, p: nat) returns (b: nat)
    requires Sorted(s) && Owns(s, p) > 0
    ensures At(s, b).Some? && At(s, b).value.pblk == p
  {
    var i := OwnedAt(s, p);
    b := s[i].block + (p - s[i].pblk);
    AtHit(s, i, b);
  }

  lemma MappedTwice(s: seq<Extent>, b: nat, c: nat)
    requires b != c && At(s, b).Some? && At(s, c).Some? && At(s, b).value.pblk == At(s, c).value.pblk
    ensures Owns(s, At(s, b).value.pblk) >= 2
  {
    var p := At(s, b).value.pblk;
    var i := AtSome(s, b);
    var j := AtSome(s, c);
    if i < j { OwnsTwice(s, i, j, p); }
    if j < i { OwnsTwice(s, j, i, p); }
  }
}
