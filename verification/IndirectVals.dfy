/**
  What a file mapped by indirect blocks maps (ext4/indirect.c): the flat map, its blocks in
  file order, and how often a block occurs.
 */
module IndirectVals {
  import opened Arithmetic
  import opened Blocks
  import opened IndirectPath
  import opened IndirectTree

  /** The pointers of the inode, each with the right number of levels below it. */
  ghost predicate ValidData(data: seq<Slot>, ptrs: nat) {
    && |data| == 15 && NDIR_BLOCKS <= ptrs
    && forall i :: 0 <= i < 15 ==> Shape(data[i], Levels(i), ptrs)
  }

  /** The flat map: physical block of a logical block, 0 for a hole. */
  ghost function FileAt(data: seq<Slot>, ptrs: nat, b: nat): nat
    requires ValidData(data, ptrs)
  {
    if b < MaxBlocks(ptrs) then
      BlockPathBlock(b, ptrs);
      PathAt(data[BlockToPath(b, ptrs)[0]], BlockToPath(b, ptrs)[1..])
    else 0
  }

  lemma DirectShapes(data: seq<Slot>, ptrs: nat)
    requires ValidData(data, ptrs)
    ensures Shapes(data[..NDIR_BLOCKS], 0, ptrs)
  {
    forall i | 0 <= i < NDIR_BLOCKS
      ensures Shape(data[..NDIR_BLOCKS][i], 0, ptrs)
    {
      assert Shape(data[i], Levels(i), ptrs);
    }
  }

  // --------------------------------------------------- blocks in file order

  /** The block numbers below a slot in logical order, 0 for a hole. */
  ghost function Vals(s: Slot, d: nat, ptrs: nat): seq<nat>
    decreases s, 0
  {
    match s
    case Empty => Zeros(Pow(ptrs, d))
    case Block(nr) => [nr]
    case Ind(_, kids) => if d == 0 then [] else ValsOf(kids, d - 1, ptrs)
  }

  ghost function ValsOf(kids: seq<Slot>, d: nat, ptrs: nat): seq<nat>
    decreases kids, 1
  {
    if kids == [] then [] else Vals(kids[0], d, ptrs) + ValsOf(kids[1..], d, ptrs)
  }

  lemma {:induction false} ValsSize(s: Slot, d: nat, ptrs: nat)
    requires Shape(s, d, ptrs)
    ensures |Vals(s, d, ptrs)| == Pow(ptrs, d)
    decreases d, 0
  {
    if s.Ind? { ValsOfSize(s.kids, d - 1, ptrs); }
  }

  lemma {:induction false} ValsOfSize(kids: seq<Slot>, d: nat, ptrs: nat)
    requires Shapes(kids, d, ptrs)
    ensures |ValsOf(kids, d, ptrs)| == Pow(ptrs, d) * |kids|
    decreases d, 1, |kids|
  {
    if kids != [] {
      assert Shape(kids[0], d, ptrs);
      ValsSize(kids[0], d, ptrs);
      ValsOfSize(kids[1..], d, ptrs);
      var w, n := Pow(ptrs, d), |kids| - 1;
      assert w * (n + 1) == w + w * n;
    }
  }

  lemma {:induction false} ValsConcat(s: seq<Slot>, t: seq<Slot>, d: nat, ptrs: nat)
    ensures ValsOf(s + t, d, ptrs) == ValsOf(s, d, ptrs) + ValsOf(t, d, ptrs)
  {
    if s == [] {
      assert s + t == t;
    } else {
      assert (s + t)[0] == s[0] && (s + t)[1..] == s[1..] + t;
      ValsConcat(s[1..], t, d, ptrs);
    }
  }

  lemma ValsSnoc(s: seq<Slot>, x: Slot, d: nat, ptrs: nat)
    ensures ValsOf(s + [x], d, ptrs) == ValsOf(s, d, ptrs) + Vals(x, d, ptrs)
  {
    ValsConcat(s, [x], d, ptrs);
    assert [x][1..] == [];
  }

  /** Position i * w + v of an array of subtrees is position v of subtree i. */
  lemma {:induction false} ValsOfAt(kids: seq<Slot>, d: nat, ptrs: nat, i: nat, v: nat, n: nat)
    requires Shapes(kids, d, ptrs) && i < |kids| && v < Pow(ptrs, d) && n == i * Pow(ptrs, d) + v
    ensures n < |ValsOf(kids, d, ptrs)| && |Vals(kids[i], d, ptrs)| == Pow(ptrs, d)
    ensures ValsOf(kids, d, ptrs)[n] == Vals(kids[i], d, ptrs)[v]
    decreases i
  {
    var w := Pow(ptrs, d);
    assert Shape(kids[0], d, ptrs) && Shape(kids[i], d, ptrs);
    ValsSize(kids[0], d, ptrs);
    ValsSize(kids[i], d, ptrs);
    ValsOfSize(kids, d, ptrs);
    Multiples(i, |kids|, w);
    assert w * |kids| == |kids| * w;
    if i > 0 {
      assert i * w == (i - 1) * w + w;
      ValsOfAt(kids[1..], d, ptrs, i - 1, v, n - w);
    }
  }

  /** The value at the position of a path is the block the path leads to. */
  lemma {:induction false} ValsAt(s: Slot, d: nat, ptrs: nat, path: seq<nat>)
    requires Shape(s, d, ptrs) && |path| == d && AllBelow(path, ptrs)
    ensures |Vals(s, d, ptrs)| == Pow(ptrs, d) && Val(path, ptrs) < Pow(ptrs, d)
    ensures Vals(s, d, ptrs)[Val(path, ptrs)] == PathAt(s, path)
    decreases d
  {
    ValsSize(s, d, ptrs);
    ValBound(path, ptrs);
    if s.Ind? && d > 0 {
      var i, rest := path[0], path[1..];
      assert Shape(s.kids[i], d - 1, ptrs);
      ValsAt(s.kids[i], d - 1, ptrs, rest);
      FrontVal(i, rest, path, ptrs);
      ValsOfAt(s.kids, d - 1, ptrs, i, Val(rest, ptrs), Val(path, ptrs));
    }
  }

  lemma FrontVal(i: nat, rest: seq<nat>, path: seq<nat>, ptrs: nat)
    requires path != [] && path[0] == i && path[1..] == rest
    ensures Val(path, ptrs) == i * Pow(ptrs, |rest|) + Val(rest, ptrs)
  {
    assert path == [i] + rest;
    ValConcat([i], rest, ptrs);
    OneVal(i, ptrs);
  }

  lemma OneVal(i: nat, ptrs: nat)
    ensures Val([i], ptrs) == i
  {
    assert [i][..0] == [];
    assert Val([], ptrs) * ptrs == 0;
  }

  /** The whole file. */
  ghost function FileVals(data: seq<Slot>, ptrs: nat): seq<nat>
    requires |data| == 15
  {
    ValsOf(data[..NDIR_BLOCKS], 0, ptrs) + Vals(data[IND_BLOCK], 1, ptrs) + Vals(data[DIND_BLOCK], 2, ptrs) +
        Vals(data[TIND_BLOCK], 3, ptrs)
  }

  lemma FileValsSize(data: seq<Slot>, ptrs: nat)
    requires ValidData(data, ptrs)
    ensures |ValsOf(data[..NDIR_BLOCKS], 0, ptrs)| == NDIR_BLOCKS && |Vals(data[IND_BLOCK], 1, ptrs)| == ptrs
    ensures |Vals(data[DIND_BLOCK], 2, ptrs)| == ptrs * ptrs && |Vals(data[TIND_BLOCK], 3, ptrs)| == ptrs * ptrs * ptrs
    ensures |FileVals(data, ptrs)| == MaxBlocks(ptrs)
  {
    PowSmall(ptrs);
    DirectShapes(data, ptrs);
    ValsOfSize(data[..NDIR_BLOCKS], 0, ptrs);
    ValsSize(data[IND_BLOCK], 1, ptrs);
    ValsSize(data[DIND_BLOCK], 2, ptrs);
    ValsSize(data[TIND_BLOCK], 3, ptrs);
  }

  /** In file order the values are the flat map. */
  lemma FileValsAt(data: seq<Slot>, ptrs: nat, b: nat)
    requires ValidData(data, ptrs) && b < MaxBlocks(ptrs)
    ensures |FileVals(data, ptrs)| == MaxBlocks(ptrs) && FileVals(data, ptrs)[b] == FileAt(data, ptrs, b)
  {
    FileValsSize(data, ptrs);
    BlockPathBlock(b, ptrs);
    var path := BlockToPath(b, ptrs);
    ValsAt(data[path[0]], Levels(path[0]), ptrs, path[1..]);
    var v := Val(path[1..], ptrs);
    if path[0] < IND_BLOCK {
      DirectShapes(data, ptrs);
      assert path[1..] == [];
      PowSmall(ptrs);
      ValsOfAt(data[..NDIR_BLOCKS], 0, ptrs, b, 0, b);
      assert data[..NDIR_BLOCKS][b] == data[b];
    }
    PickPart(ValsOf(data[..NDIR_BLOCKS], 0, ptrs), Vals(data[IND_BLOCK], 1, ptrs), Vals(data[DIND_BLOCK], 2, ptrs),
             Vals(data[TIND_BLOCK], 3, ptrs), v, FileVals(data, ptrs));
  }

  lemma PickPart(a: seq<nat>, c: seq<nat>, d: seq<nat>, e: seq<nat>, v: nat, s: seq<nat>)
    requires s == a + c + d + e
    ensures v < |a| ==> s[v] == a[v]
    ensures v < |c| ==> s[|a| + v] == c[v]
    ensures v < |d| ==> s[|a| + |c| + v] == d[v]
    ensures v < |e| ==> s[|a| + |c| + |d| + v] == e[v]
  {
  }

  // ----------------------------------------------------------------- counting

  /** How many logical blocks in [lo, hi) are mapped to p. */
  ghost function Hits(data: seq<Slot>, ptrs: nat, lo: nat, hi: nat, p: nat): nat
    requires ValidData(data, ptrs)
    decreases hi
  {
    if hi <= lo then 0 else Hits(data, ptrs, lo, hi - 1, p) + if FileAt(data, ptrs, hi - 1) == p then 1 else 0
  }

  lemma {:induction false} OccursZeros(n: nat, p: nat)
    requires 0 < p
    ensures Count(Zeros(n), p) == 0
  {
    if n > 0 {
      OccursZeros(n - 1, p);
      CountConcat(Zeros(n - 1), [0], p);
    }
  }

  /** A data block occurs in a tree as often as among its values. */
  lemma {:induction false} DataOccurs(s: Slot, d: nat, ptrs: nat, p: nat)
    requires Shape(s, d, ptrs) && 0 < p
    ensures DataIn(s, p) == Count(Vals(s, d, ptrs), p)
    decreases d, 0
  {
    match s
    case Empty => OccursZeros(Pow(ptrs, d), p);
    case Block(nr) => assert [nr][..0] == [];
    case Ind(_, kids) => DataOfOccurs(kids, d - 1, ptrs, p);
  }

  lemma {:induction false} DataOfOccurs(kids: seq<Slot>, d: nat, ptrs: nat, p: nat)
    requires Shapes(kids, d, ptrs) && 0 < p
    ensures DataOf(kids, p) == Count(ValsOf(kids, d, ptrs), p)
    decreases d, 1, |kids|
  {
    if kids != [] {
      DataOccurs(kids[0], d, ptrs, p);
      DataOfOccurs(kids[1..], d, ptrs, p);
      CountConcat(Vals(kids[0], d, ptrs), ValsOf(kids[1..], d, ptrs), p);
    }
  }

  lemma FileOccurs(data: seq<Slot>, ptrs: nat, p: nat)
    requires ValidData(data, ptrs) && 0 < p
    ensures DataOf(data, p) == Count(FileVals(data, ptrs), p)
  {
    var a, c, d, e := data[..NDIR_BLOCKS], data[IND_BLOCK], data[DIND_BLOCK], data[TIND_BLOCK];
    DirectShapes(data, ptrs);
    DataOfOccurs(a, 0, ptrs, p);
    DataOccurs(c, 1, ptrs, p);
    DataOccurs(d, 2, ptrs, p);
    DataOccurs(e, 3, ptrs, p);
    assert data == a + [c] + [d] + [e];
    DataConcat(a + [c] + [d], [e], p);
    DataConcat(a + [c], [d], p);
    DataConcat(a, [c], p);
    CountOne(c, p);
    CountOne(d, p);
    CountOne(e, p);
    OccursParts(ValsOf(a, 0, ptrs), Vals(c, 1, ptrs), Vals(d, 2, ptrs), Vals(e, 3, ptrs), p);
  }

  lemma OccursParts(a: seq<nat>, c: seq<nat>, d: seq<nat>, e: seq<nat>, p: nat)
    ensures Count(a + c + d + e, p) == Count(a, p) + Count(c, p) + Count(d, p) + Count(e, p)
  {
    CountConcat(a + c + d, e, p);
    CountConcat(a + c, d, p);
    CountConcat(a, c, p);
  }

  lemma {:induction false} HitsOccurs(data: seq<Slot>, ptrs: nat, n: nat, p: nat)
    requires ValidData(data, ptrs) && n <= MaxBlocks(ptrs)
    ensures |FileVals(data, ptrs)| == MaxBlocks(ptrs) &&
              Hits(data, ptrs, 0, n, p) == Count(FileVals(data, ptrs)[..n], p)
  {
    FileValsSize(data, ptrs);
    if n > 0 {
      HitsOccurs(data, ptrs, n - 1, p);
      FileValsAt(data, ptrs, n - 1);
      var w := FileVals(data, ptrs);
      assert w[..n] == w[..n-1] + [w[n-1]];
      CountConcat(w[..n-1], [w[n-1]], p);
    }
  }

  /** The tree holds p as often as the file maps a block to it. */
  lemma DataHits(data: seq<Slot>, ptrs: nat, p: nat)
    requires ValidData(data, ptrs) && 0 < p
    ensures DataOf(data, p) == Hits(data, ptrs, 0, MaxBlocks(ptrs), p)
  {
    FileOccurs(data, ptrs, p);
    HitsOccurs(data, ptrs, MaxBlocks(ptrs), p);
    var w := FileVals(data, ptrs);
    assert w[..|w|] == w;
  }

  lemma {:induction false} HitsSplit(data: seq<Slot>, ptrs: nat, mid: nat, hi: nat, p: nat)
    requires ValidData(data, ptrs) && mid <= hi
    ensures Hits(data, ptrs, 0, hi, p) == Hits(data, ptrs, 0, mid, p) + Hits(data, ptrs, mid, hi, p)
    decreases hi
  {
    if mid < hi { HitsSplit(data, ptrs, mid, hi - 1, p); }
  }

  lemma {:induction false} HitsSame(data: seq<Slot>, data': seq<Slot>, ptrs: nat, lo: nat, hi: nat, p: nat)
    requires ValidData(data, ptrs) && ValidData(data', ptrs)
    requires forall b: nat :: lo <= b < hi ==> FileAt(data, ptrs, b) == FileAt(data', ptrs, b)
    ensures Hits(data, ptrs, lo, hi, p) == Hits(data', ptrs, lo, hi, p)
    decreases hi
  {
    if lo < hi { HitsSame(data, data', ptrs, lo, hi - 1, p); }
  }

  lemma {:induction false} HitsNone(data: seq<Slot>, ptrs: nat, lo: nat, hi: nat, p: nat)
    requires ValidData(data, ptrs) && 0 < p && forall b: nat :: lo <= b < hi ==> FileAt(data, ptrs, b) == 0
    ensures Hits(data, ptrs, lo, hi, p) == 0
    decreases hi
  {
    if lo < hi { HitsNone(data, ptrs, lo, hi - 1, p); }
  }

  /** When the map is cut at last, the tree loses p as often as a block from last on was mapped to it. */
  lemma CutHits(data: seq<Slot>, data': seq<Slot>, ptrs: nat, last: nat, p: nat)
    requires ValidData(data, ptrs) && ValidData(data', ptrs) && 0 < p
    requires forall b: nat :: FileAt(data', ptrs, b) == if b < last then FileAt(data, ptrs, b) else 0
    ensures DataOf(data, p) == DataOf(data', p) + Hits(data, ptrs, last, MaxBlocks(ptrs), p)
  {
    var n := MaxBlocks(ptrs);
    DataHits(data, ptrs, p);
    DataHits(data', ptrs, p);
    if last <= n {
      HitsSplit(data, ptrs, last, n, p);
      HitsSplit(data', ptrs, last, n, p);
      HitsSame(data, data', ptrs, 0, last, p);
      HitsNone(data', ptrs, last, n, p);
    } else {
      HitsSame(data, data', ptrs, 0, n, p);
    }
  }
}
