/**
  Lookup and allocation in a file mapped by indirect blocks (ext4/indirect.c):
  ext4_ind_map_blocks with ext4_blks_to_allocate, ext4_alloc_branch and
  ext4_splice_branch.
 */
module IndirectMap {
  import opened Blocks
  import opened IndirectPath
  import opened IndirectTree
  import opened IndirectVals
  import opened IndirectTruncate
  import opened IndirectFile

  // ------------------------------------------------------- paths and numbers

  /** The path with its last offset moved on by i. */
  function NextPath(path: seq<nat>, i: nat): seq<nat>
    requires path != []
  {
    path[..|path|-1] + [path[|path|-1] + i]
  }

  /** How many further blocks the array of the last pointer holds: the boundary of ext4_block_to_path. */
  function Boundary(path: seq<nat>, ptrs: nat): nat
    requires ValidPath(path, ptrs) && NDIR_BLOCKS <= ptrs
  {
    if |path| == 1 then NDIR_BLOCKS - 1 - path[0]
    else assert path[|path|-1] == path[1..][|path|-2]; ptrs - 1 - path[|path|-1]
  }

  lemma NextBlock(path: seq<nat>, i: nat, ptrs: nat)
    requires ValidPath(path, ptrs) && NDIR_BLOCKS <= ptrs && i <= Boundary(path, ptrs)
    ensures ValidPath(NextPath(path, i), ptrs) && PathToBlock(NextPath(path, i), ptrs) == PathToBlock(path, ptrs) + i
    ensures BlockToPath(PathToBlock(path, ptrs) + i, ptrs) == NextPath(path, i)
    ensures PathToBlock(path, ptrs) + i < MaxBlocks(ptrs)
  {
    var q := NextPath(path, i);
    if |path| == 1 {
      assert path[1..] == [] && q[1..] == [];
    } else {
      var s, x := path[1..|path|-1], path[|path|-1];
      assert path[1..] == s + [x] && q[1..] == s + [x + i];
      ValSnoc(s, x, ptrs);
      ValSnoc(s, x + i, ptrs);
      forall k | 0 <= k < |q[1..]| ensures q[1..][k] < ptrs { if k < |s| { assert path[1..][k] == s[k]; } }
    }
    PathBlockPath(q, ptrs);
  }

  /** b is the first block of an array of pointers: of i_block, or of an indirect block that points at data. */
  ghost predicate ArrayStart(b: nat, ptrs: nat)
    requires 0 < ptrs
  {
    b == 0 || (12 <= b && (b - 12) % ptrs == 0)
  }

  /** No array starts inside the run up to the boundary, and one starts behind it. */
  lemma BoundaryIff(path: seq<nat>, i: nat, ptrs: nat)
    requires ValidPath(path, ptrs) && NDIR_BLOCKS <= ptrs && 0 < i <= Boundary(path, ptrs) + 1
    ensures ArrayStart(PathToBlock(path, ptrs) + i, ptrs) <==> i == Boundary(path, ptrs) + 1
  {
    if |path| == 1 {
      assert path[1..] == [];
      assert (0 - 0) % ptrs == 0;
    } else {
      var s, x := path[1..|path|-1], path[|path|-1];
      assert path[1..] == s + [x] && x == path[1..][|path|-2];
      ValSnoc(s, x, ptrs);
      ArrayRow(path[0], Val(s, ptrs), x + i, ptrs);
    }
  }

  /** Row v below the pointer slot, at offset x: a whole number of rows behind block 12 exactly at its ends. */
  lemma ArrayRow(slot: nat, v: nat, x: nat, ptrs: nat)
    requires 12 <= slot <= 14 && 0 < x <= ptrs
    ensures ArrayStart(Base(slot, ptrs) + v * ptrs + x, ptrs) <==> x == ptrs
  {
    var k := v + (if slot == 12 then 0 else if slot == 13 then 1 else 1 + ptrs);
    assert Base(slot, ptrs) - 12 + v * ptrs == k * ptrs;
    if x == ptrs {
      DivParts(k + 1, 0, (k + 1) * ptrs, ptrs);
    } else {
      DivParts(k, x, k * ptrs + x, ptrs);
    }
  }

  /** q is path with its last offset moved on by less than n. */
  predicate InRunOf(path: seq<nat>, q: seq<nat>, n: nat) {
    var d := |path| - 1;
    |path| == |q| > 0 && q[..d] == path[..d] && path[d] <= q[d] < path[d] + n
  }

  /** Such paths are exactly those of the n blocks from the path's block on. */
  lemma RunPaths(path: seq<nat>, q: seq<nat>, n: nat, ptrs: nat)
    requires ValidPath(path, ptrs) && ValidPath(q, ptrs) && NDIR_BLOCKS <= ptrs && 0 < n <= Boundary(path, ptrs) + 1
    ensures InRunOf(path, q, n) <==> PathToBlock(path, ptrs) <= PathToBlock(q, ptrs) < PathToBlock(path, ptrs) + n
    ensures InRunOf(path, q, n) ==> PathToBlock(q, ptrs) == PathToBlock(path, ptrs) + (q[|q|-1] - path[|path|-1])
  {
    var b, c := PathToBlock(path, ptrs), PathToBlock(q, ptrs);
    if InRunOf(path, q, n) {
      var i := q[|q|-1] - path[|path|-1];
      assert q == q[..|q|-1] + [q[|q|-1]];
      NextBlock(path, i, ptrs);
    }
    if b <= c < b + n {
      NextBlock(path, c - b, ptrs);
      PathBlockPath(q, ptrs);
    }
  }

  // ----------------------------------------------------- paths through slots

  lemma {:induction false} PathAtGet(s: Slot, path: seq<nat>, q: seq<nat>)
    requires Reaches(s, path)
    ensures PathAt(s, path + q) == PathAt(Get(s, path), q)
    decreases |path|
  {
    if path == [] {
      assert path + q == q;
    } else {
      assert (path + q)[0] == path[0] && (path + q)[1..] == path[1..] + q;
      PathAtGet(s.kids[path[0]], path[1..], q);
    }
  }

  lemma {:induction false} PutPathAt(s: Slot, path: seq<nat>, x: Slot, q: seq<nat>)
    requires Reaches(s, path) && |path| <= |q|
    ensures PathAt(Put(s, path, x), q) == if q[..|path|] == path then PathAt(x, q[|path|..]) else PathAt(s, q)
    decreases |path|
  {
    if path == [] {
      assert q[..0] == path && q[0..] == q;
    } else {
      var k := Put(s.kids[path[0]], path[1..], x);
      assert q[..|path|] == [q[0]] + q[1..][..|path|-1] && path == [path[0]] + path[1..];
      assert q[|path|..] == q[1..][|path|-1..];
      if q[0] == path[0] {
        PutPathAt(s.kids[path[0]], path[1..], x, q[1..]);
      }
    }
  }

  // ------------------------------------------------------------------- holes

  /** The count that the loop over the levels below a hole computes. */
  function Horner(rest: seq<nat>, p: nat): nat
    requires AllBelow(rest, p)
  {
    if rest == [] then 0 else Horner(rest[..|rest|-1], p) * p + (p - rest[|rest|-1] - 1)
  }

  lemma {:induction false} HornerVal(rest: seq<nat>, p: nat)
    requires AllBelow(rest, p)
    ensures Horner(rest, p) + Val(rest, p) + 1 == Pow(p, |rest|)
  {
    if rest != [] {
      var t := rest[..|rest|-1];
      HornerVal(t, p);
      var h, v := Horner(t, p), Val(t, p);
      assert (h + v + 1) * p == h * p + v * p + p;
    }
  }

  /** The path of a block that lies below the pointer at level l of the path. */
  lemma BelowLevel(path: seq<nat>, l: nat, i: nat, ptrs: nat) returns (rest: seq<nat>)
    requires ValidPath(path, ptrs) && l < |path| && 0 < ptrs
    requires AllBelow(path[1..][l..], ptrs) && i <= Horner(path[1..][l..], ptrs)
    ensures var q := [path[0]] + (path[1..][..l] + rest);
            ValidPath(q, ptrs) && q[1..] == path[1..][..l] + rest && PathToBlock(q, ptrs) == PathToBlock(path, ptrs) + i
  {
    var a, t := path[1..][..l], path[1..][l..];
    HornerVal(t, ptrs);
    rest := Digits(Val(t, ptrs) + i, |t|, ptrs);
    DigitsVal(Val(t, ptrs) + i, |t|, ptrs);
    assert path[1..] == a + t;
    assert Val(path[1..], ptrs) + i == Val(a + rest, ptrs) by {
      ValConcat(a, t, ptrs);
      ValConcat(a, rest, ptrs);
    }
    assert ([path[0]] + (a + rest))[1..] == a + rest;
  }

  /** The blocks from the path on that lie below the empty pointer at level l are not mapped. */
  lemma HoleBlocks(data: seq<Slot>, ptrs: nat, path: seq<nat>, l: nat, i: nat, b: nat)
    requires ValidData(data, ptrs) && ValidPath(path, ptrs) && l < |path| && b == PathToBlock(path, ptrs) + i
    requires Reaches(data[path[0]], path[1..][..l]) && Get(data[path[0]], path[1..][..l]).Empty?
    requires AllBelow(path[1..][l..], ptrs) && i <= Horner(path[1..][l..], ptrs)
    ensures b < MaxBlocks(ptrs) && FileAt(data, ptrs, b) == 0
  {
    var rest := BelowLevel(path, l, i, ptrs);
    PathBlockPath([path[0]] + (path[1..][..l] + rest), ptrs);
    PathAtGet(data[path[0]], path[1..][..l], rest);
  }

  // ------------------------------------------------------- the last array

  /** The number a pointer holds, 0 for none. */
  function Number(s: Slot): nat {
    if s.Empty? then 0 else s.nr
  }

  /** The array with the last pointer of the path: the direct pointers or an indirect block. */
  function LastArray(data: seq<Slot>, path: seq<nat>): seq<Slot>
    requires |data| == 15 && path != [] && path[0] < 15 && Reaches(data[path[0]], path[1..])
  {
    if |path| == 1 then data[..NDIR_BLOCKS]
    else LastParent(data[path[0]], path[1..]); Get(data[path[0]], path[1..][..|path|-2]).kids
  }

  lemma LastParent(s: Slot, cut: seq<nat>)
    requires cut != [] && Reaches(s, cut)
    ensures var a, i := cut[..|cut|-1], cut[|cut|-1];
            Reaches(s, a) && Get(s, a).Ind? && i < |Get(s, a).kids| && Get(s, cut) == Get(s, a).kids[i]
  {
    assert cut[..|cut|] == cut;
    Above(s, cut, |cut|);
  }

  /** The array serves exactly the blocks up to the boundary. */
  lemma ArrayBlocks(data: seq<Slot>, ptrs: nat, path: seq<nat>, i: nat, b: nat)
    requires ValidData(data, ptrs) && ValidPath(path, ptrs) && Reaches(data[path[0]], path[1..]) &&
               i <= Boundary(path, ptrs)
    requires b == PathToBlock(path, ptrs) + i
    ensures path[|path|-1] + Boundary(path, ptrs) < |LastArray(data, path)|
    ensures var x := LastArray(data, path)[path[|path|-1] + i];
            (x.Empty? || (x.Block? && 0 < x.nr)) && FileAt(data, ptrs, b) == Number(x)
  {
    NextBlock(path, i, ptrs);
    ArraySlot(data, ptrs, path, i);
  }

  lemma ArraySlot(data: seq<Slot>, ptrs: nat, path: seq<nat>, i: nat)
    requires ValidData(data, ptrs) && ValidPath(path, ptrs) && Reaches(data[path[0]], path[1..]) &&
               i <= Boundary(path, ptrs)
    requires ValidPath(NextPath(path, i), ptrs)
    ensures path[|path|-1] + Boundary(path, ptrs) < |LastArray(data, path)|
    ensures var x, q := LastArray(data, path)[path[|path|-1] + i], NextPath(path, i);
            (x.Empty? || (x.Block? && 0 < x.nr)) && PathAt(data[q[0]], q[1..]) == Number(x)
  {
    var q := NextPath(path, i);
    if |path| == 1 {
      assert Shape(data[path[0] + i], 0, ptrs) && q[1..] == [];
    } else {
      SlotInBlock(data[path[0]], path[1..], Levels(path[0]), ptrs, path[|path|-1] + i);
      assert q[1..] == path[1..][..|path|-2] + [path[|path|-1] + i];
    }
  }

  /** Slot j of the indirect block that holds the last pointer of the path. */
  lemma SlotInBlock(s: Slot, cut: seq<nat>, d: nat, ptrs: nat, j: nat)
    requires Shape(s, d, ptrs) && |cut| == d > 0 && Reaches(s, cut) && j < ptrs
    ensures var a := cut[..d-1];
            && Reaches(s, a) && Get(s, a).Ind? && |Get(s, a).kids| == ptrs
            && var x := Get(s, a).kids[j]; (x.Empty? || (x.Block? && 0 < x.nr)) && PathAt(s, a + [j]) == Number(x)
  {
    var a := cut[..d-1];
    LastParent(s, cut);
    GetShape(s, d, ptrs, a);
    assert Shape(Get(s, a).kids[j], 0, ptrs);
    PathAtGet(s, a, [j]);
    assert [j][1..] == [];
  }

  /** The loop of ext4_ind_map_blocks that extends a found block to a run. */
  method CountRun(a: seq<Slot>, at: nat, len: nat, boundary: nat) returns (count: nat)
    requires at + boundary < |a| && 0 < len
    ensures 0 < count <= len && count <= boundary + 1
    ensures forall j :: at <= j < at + count ==> Number(a[j]) == Number(a[at]) + (j - at)
    ensures count < len && count <= boundary ==> Number(a[at + count]) != Number(a[at]) + count
  {
    count := 1;
    while count < len && count <= boundary && Number(a[at + count]) == Number(a[at]) + count
      invariant 0 < count <= len && count <= boundary + 1
      invariant forall j :: at <= j < at + count ==> Number(a[j]) == Number(a[at]) + (j - at)
    {
      count := count + 1;
    }
  }

  /** ext4_blks_to_allocate when no indirect block is missing: how many pointers in a row are zero. */
  method CountZeroes(a: seq<Slot>, at: nat, len: nat, boundary: nat) returns (count: nat)
    requires at + boundary < |a| && 0 < len && a[at].Empty?
    requires forall i :: 0 <= i < |a| ==> a[i].Empty? || 0 < a[i].nr
    ensures 0 < count <= len && count <= boundary + 1
    ensures forall i :: at <= i < at + count ==> a[i].Empty?
    ensures count < len && count <= boundary ==> !a[at + count].Empty?
  {
    count := 1;
    while count < len && count <= boundary && Number(a[at + count]) == 0
      invariant 0 < count <= len && count <= boundary + 1
      invariant forall i :: at <= i < at + count ==> a[i].Empty?
    {
      count := count + 1;
    }
  }

  /** The hole below level l, counted level by level. */
  method CountHole(path: seq<nat>, l: nat, ptrs: nat) returns (count: nat)
    requires ValidPath(path, ptrs) && l < |path|
    ensures AllBelow(path[1..][l..], ptrs) && count == Horner(path[1..][l..], ptrs) + 1
  {
    ghost var rest := path[1..][l..];
    count := 0;
    var i := l + 1;
    assert rest[..0] == [];
    while i < |path|
      invariant l < i <= |path| && AllBelow(rest, ptrs) && AllBelow(rest[..i - l - 1], ptrs)
      invariant count == Horner(rest[..i - l - 1], ptrs)
    {
      assert path[i] == rest[i - l - 1];
      assert rest[..i - l][..i - l - 1] == rest[..i - l - 1];
      count := count * ptrs + (ptrs - path[i] - 1);
      i := i + 1;
    }
    assert rest[..|rest|] == rest;
    count := count + 1;
  }

  // -------------------------------------------------------------- new blocks

  /** kids with n data blocks from first on at position at. */
  function RunKids(kids: seq<Slot>, at: nat, first: nat, n: nat): (r: seq<Slot>)
    requires at + n <= |kids|
    ensures |r| == |kids|
    ensures forall i :: 0 <= i < |kids| ==> r[i] == if at <= i < at + n then Block(first + (i - at)) else kids[i]
  {
    if n == 0 then kids else RunKids(kids, at, first, n - 1)[at + n - 1 := Block(first + n - 1)]
  }

  method WriteRun(kids: seq<Slot>, at: nat, first: nat, n: nat) returns (r: seq<Slot>)
    requires at + n <= |kids|
    ensures r == RunKids(kids, at, first, n)
  {
    r := kids;
    var j := 0;
    while j < n
      invariant 0 <= j <= n && r == RunKids(kids, at, first, j)
    {
      r := r[at + j := Block(first + j)];
      j := j + 1;
    }
  }

  /** The chain that ext4_alloc_branch sets up below a missing pointer. */
  function NewBranch(cut: seq<nat>, metas: seq<nat>, first: nat, n: nat, ptrs: nat): Slot
    requires cut != [] && |metas| == |cut| && AllBelow(cut, ptrs) && cut[|cut|-1] + n <= ptrs
  {
    if |cut| == 1 then Ind(metas[0], RunKids(Empties(ptrs), cut[0], first, n))
    else Ind(metas[0], Empties(ptrs)[cut[0] := NewBranch(cut[1..], metas[1..], first, n, ptrs)])
  }

  lemma {:induction false} NewBranchAt(cut: seq<nat>, metas: seq<nat>, first: nat, n: nat, ptrs: nat, q: seq<nat>)
    requires cut != [] && |metas| == |cut| && AllBelow(cut, ptrs) && cut[|cut|-1] + n <= ptrs && |q| == |cut| &&
               AllBelow(q, ptrs)
    ensures PathAt(NewBranch(cut, metas, first, n, ptrs), q) == if InRunOf(cut, q, n) then first +
              (q[|q|-1] - cut[|cut|-1]) else 0
    decreases |cut|
  {
    if |cut| == 1 {
      assert q[1..] == [] && q[..0] == cut[..0];
    } else {
      var t := NewBranch(cut[1..], metas[1..], first, n, ptrs);
      NewBranchAt(cut[1..], metas[1..], first, n, ptrs, q[1..]);
      InRunTail(cut, q, n);
    }
  }

  lemma InRunTail(cut: seq<nat>, q: seq<nat>, n: nat)
    requires |cut| == |q| > 1
    ensures InRunOf(cut, q, n) <==> cut[0] == q[0] && InRunOf(cut[1..], q[1..], n)
  {
    var d := |cut| - 1;
    assert q[..d] == [q[0]] + q[1..d] && cut[..d] == [cut[0]] + cut[1..d];
    assert q[1..][..d-1] == q[1..d] && cut[1..][..d-1] == cut[1..d];
    if InRunOf(cut, q, n) {
      assert q[..d][0] == cut[..d][0];
      assert q[1..d] == q[..d][1..] && cut[1..d] == cut[..d][1..];
    }
  }

  lemma {:induction false} NewBranchShape(cut: seq<nat>, metas: seq<nat>, first: nat, n: nat, ptrs: nat)
    requires cut != [] && |metas| == |cut| && AllBelow(cut, ptrs) && cut[|cut|-1] + n <= ptrs
    requires 0 < first && forall i :: 0 <= i < |metas| ==> 0 < metas[i]
    ensures Shape(NewBranch(cut, metas, first, n, ptrs), |cut|, ptrs)
    decreases |cut|
  {
    if |cut| > 1 { NewBranchShape(cut[1..], metas[1..], first, n, ptrs); }
  }

  /** Allocated blocks occur where they were put and nowhere else. */
  lemma {:induction false} RunCount(kids: seq<Slot>, at: nat, first: nat, n: nat, p: nat)
    requires at + n <= |kids| && forall i :: at <= i < at + n ==> kids[i].Empty?
    ensures DataOf(RunKids(kids, at, first, n), p) == DataOf(kids, p) + if first <= p < first + n then 1 else 0
    ensures MetaOf(RunKids(kids, at, first, n), p) == MetaOf(kids, p)
  {
    if n > 0 {
      RunCount(kids, at, first, n - 1, p);
      SetCount(RunKids(kids, at, first, n - 1), at + n - 1, Block(first + n - 1), p);
    }
  }

  lemma SetCount(kids: seq<Slot>, i: nat, x: Slot, p: nat)
    requires i < |kids|
    ensures DataOf(kids[i := x], p) + DataIn(kids[i], p) == DataOf(kids, p) + DataIn(x, p)
    ensures MetaOf(kids[i := x], p) + MetaIn(kids[i], p) == MetaOf(kids, p) + MetaIn(x, p)
  {
    assert kids == kids[..i] + [kids[i]] + kids[i+1..] && kids[i := x] == kids[..i] + [x] + kids[i+1..];
    CountMiddle(kids[..i], kids[i], kids[i+1..], p);
    CountMiddle(kids[..i], x, kids[i+1..], p);
  }

  lemma {:induction false} NewBranchCount(cut: seq<nat>, metas: seq<nat>, first: nat, n: nat, ptrs: nat, p: nat)
    requires cut != [] && |metas| == |cut| && AllBelow(cut, ptrs) && cut[|cut|-1] + n <= ptrs
    ensures DataIn(NewBranch(cut, metas, first, n, ptrs), p) == if first <= p < first + n then 1 else 0
    ensures MetaIn(NewBranch(cut, metas, first, n, ptrs), p) == Count(metas, p)
    decreases |cut|
  {
    CountEmpty(Empties(ptrs), p);
    if |cut| == 1 {
      RunCount(Empties(ptrs), cut[0], first, n, p);
      assert metas[1..] == [];
    } else {
      NewBranchCount(cut[1..], metas[1..], first, n, ptrs, p);
      SetCount(Empties(ptrs), cut[0], NewBranch(cut[1..], metas[1..], first, n, ptrs), p);
    }
  }

  // ------------------------------------------------------------------- splice

  /** The file after n blocks from first on were added at the path, whose pointer at level l was zero. */
  ghost predicate Spliced(data: seq<Slot>, ptrs: nat, path: seq<nat>, first: nat, n: nat, data': seq<Slot>)
    requires ValidData(data, ptrs) && ValidPath(path, ptrs)
  {
    && ValidData(data', ptrs)
    && forall b: nat :: FileAt(data', ptrs, b) ==
         if PathToBlock(path, ptrs) <= b < PathToBlock(path, ptrs) + n then first + (b - PathToBlock(path, ptrs))
             else FileAt(data, ptrs, b)
  }

  /** It is enough to look at the paths. */
  lemma SplicedByPath(data: seq<Slot>, ptrs: nat, path: seq<nat>, first: nat, n: nat, data': seq<Slot>)
    requires ValidData(data, ptrs) && ValidData(data', ptrs) && ValidPath(path, ptrs) &&
               0 < n <= Boundary(path, ptrs) + 1
    requires forall q :: ValidPath(q, ptrs) ==>
               PathAt(data'[q[0]], q[1..]) == if InRunOf(path, q, n) then first + (q[|q|-1] - path[|path|-1])
                   else PathAt(data[q[0]], q[1..])
    ensures Spliced(data, ptrs, path, first, n, data')
  {
    NextBlock(path, n - 1, ptrs);
    forall b: nat
      ensures FileAt(data', ptrs, b) ==
              if PathToBlock(path, ptrs) <= b < PathToBlock(path, ptrs) + n then first +
                  (b - PathToBlock(path, ptrs)) else FileAt(data, ptrs, b)
    {
      if b < MaxBlocks(ptrs) {
        BlockPathBlock(b, ptrs);
        RunPaths(path, BlockToPath(b, ptrs), n, ptrs);
      }
    }
  }

  /** A run of direct pointers. */
  lemma SpliceDirect(data: seq<Slot>, ptrs: nat, path: seq<nat>, first: nat, n: nat)
    requires ValidData(data, ptrs) && ValidPath(path, ptrs) && |path| == 1 && 0 < n <= Boundary(path, ptrs) + 1 &&
               0 < first
    ensures Spliced(data, ptrs, path, first, n, RunKids(data, path[0], first, n))
  {
    var data' := RunKids(data, path[0], first, n);
    assert ValidData(data', ptrs);
    forall q | ValidPath(q, ptrs)
      ensures PathAt(data'[q[0]], q[1..]) == if InRunOf(path, q, n) then first + (q[|q|-1] - path[|path|-1])
                else PathAt(data[q[0]], q[1..])
    {
      if |q| == 1 { assert q[..0] == path[..0] && q[1..] == []; }
    }
    SplicedByPath(data, ptrs, path, first, n, data');
  }

  /** A new slot x below the zero pointer at level l of the path, or a run in its last array. */
  lemma SpliceTree(data: seq<Slot>, ptrs: nat, path: seq<nat>, l: nat, x: Slot, first: nat, n: nat)
    requires ValidData(data, ptrs) && ValidPath(path, ptrs) && |path| > 1 && 0 < n <= Boundary(path, ptrs) + 1
    requires l < |path| && Reaches(data[path[0]], path[1..][..l]) && Shape(x, Levels(path[0]) - l, ptrs)
    requires forall q :: |q| == |path| - 1 - l && AllBelow(q, ptrs) ==>
               PathAt(x, q) == if SplitRun(path[1..], l, q, n) then first + (q[|q|-1] - path[|path|-1])
                   else PathAt(Get(data[path[0]], path[1..][..l]), q)
    requires l < |path| - 1
    ensures Spliced(data, ptrs, path, first, n, data[path[0] := Put(data[path[0]], path[1..][..l], x)])
  {
    var s, cut := data[path[0]], path[1..];
    var s' := Put(s, cut[..l], x);
    var data' := data[path[0] := s'];
    PutShape(s, Levels(path[0]), ptrs, cut[..l], x);
    assert ValidData(data', ptrs);
    forall q | ValidPath(q, ptrs)
      ensures PathAt(data'[q[0]], q[1..]) == if InRunOf(path, q, n) then first + (q[|q|-1] - path[|path|-1])
                else PathAt(data[q[0]], q[1..])
    {
      if |q| == |path| { InRunTail(path, q, n); }
      if q[0] == path[0] { SpliceAt(s, cut, l, x, first, n, ptrs, path, q); }
    }
    SplicedByPath(data, ptrs, path, first, n, data');
  }

  /** q continues cut[..l] to a path of the run. */
  predicate SplitRun(cut: seq<nat>, l: nat, q: seq<nat>, n: nat)
    requires l <= |cut|
  {
    |q| == |cut| - l && InRunOf(cut[l..], q, n)
  }

  lemma SpliceAt(s: Slot, cut: seq<nat>, l: nat, x: Slot, first: nat, n: nat, ptrs: nat, path: seq<nat>, q: seq<nat>)
    requires path != [] && cut == path[1..] && l < |cut| && Reaches(s, cut[..l])
    requires ValidPath(q, ptrs) && |q| == |path| && q[0] == path[0]
    requires forall r :: |r| == |cut| - l && AllBelow(r, ptrs) ==>
               PathAt(x, r) == if SplitRun(cut, l, r, n) then first + (r[|r|-1] - path[|path|-1])
                   else PathAt(Get(s, cut[..l]), r)
    ensures PathAt(Put(s, cut[..l], x), q[1..]) == if InRunOf(path, q, n) then first + (q[|q|-1] - path[|path|-1])
              else PathAt(s, q[1..])
  {
    var q' := q[1..];
    var r := q'[l..];
    assert |r| == |cut| - l && AllBelow(r, ptrs) && r[|r|-1] == q[|q|-1];
    PutPathAt(s, cut[..l], x, q');
    RunSplit(path, cut, l, q, n);
    if q'[..l] == cut[..l] {
      PathAtParts(s, cut[..l], q', r);
    }
  }

  lemma PathAtParts(s: Slot, a: seq<nat>, q: seq<nat>, r: seq<nat>)
    requires Reaches(s, a) && |a| <= |q| && q[..|a|] == a && r == q[|a|..]
    ensures PathAt(s, q) == PathAt(Get(s, a), r)
  {
    assert q == a + r;
    PathAtGet(s, a, r);
  }

  lemma RunSplit(path: seq<nat>, cut: seq<nat>, l: nat, q: seq<nat>, n: nat)
    requires path != [] && cut == path[1..] && l < |cut| && |q| == |path| && q[0] == path[0]
    ensures InRunOf(path, q, n) <==> q[1..][..l] == cut[..l] && SplitRun(cut, l, q[1..][l..], n)
  {
    InRunTail(path, q, n);
    TailRun(cut, q[1..], l, n);
  }

  lemma {:induction false} TailRun(cut: seq<nat>, q: seq<nat>, l: nat, n: nat)
    requires l < |cut| == |q|
    ensures InRunOf(cut, q, n) <==> q[..l] == cut[..l] && InRunOf(cut[l..], q[l..], n)
    decreases l
  {
    if l == 0 {
      assert cut[0..] == cut && q[0..] == q;
    } else {
      InRunTail(cut, q, n);
      TailRun(cut[1..], q[1..], l - 1, n);
      assert q[..l] == [q[0]] + q[1..][..l-1] && cut[..l] == [cut[0]] + cut[1..][..l-1];
      assert q[1..][l-1..] == q[l..] && cut[1..][l-1..] == cut[l..];
      if q[..l] == cut[..l] { assert q[..l][0] == cut[..l][0] && q[..l][1..] == cut[..l][1..]; }
    }
  }

  lemma {:induction false} PutShape(s: Slot, d: nat, ptrs: nat, path: seq<nat>, x: Slot)
    requires Shape(s, d, ptrs) && Reaches(s, path) && |path| <= d && Shape(x, d - |path|, ptrs)
    ensures Shape(Put(s, path, x), d, ptrs)
    decreases |path|
  {
    if path != [] { PutShape(s.kids[path[0]], d - 1, ptrs, path[1..], x); }
  }

  /** The branch that was missing from level l on. */
  lemma SpliceBranch(data: seq<Slot>, ptrs: nat, path: seq<nat>, l: nat, metas: seq<nat>, first: nat, n: nat)
    requires ValidData(data, ptrs) && ValidPath(path, ptrs) && 0 < n <= Boundary(path, ptrs) + 1 && 0 < first
    requires l + 1 < |path| && Reaches(data[path[0]], path[1..][..l]) && Get(data[path[0]], path[1..][..l]).Empty?
    requires |metas| == |path| - 1 - l && forall i :: 0 <= i < |metas| ==> 0 < metas[i]
    ensures var rest := path[1..][l..];
            && rest != [] && AllBelow(rest, ptrs) && rest[|rest|-1] + n <= ptrs
            && Spliced(data, ptrs, path, first, n,
                       data[path[0] := Put(data[path[0]], path[1..][..l], NewBranch(rest, metas, first, n, ptrs))])
  {
    var rest := path[1..][l..];
    assert rest[|rest|-1] == path[|path|-1];
    var x := NewBranch(rest, metas, first, n, ptrs);
    NewBranchShape(rest, metas, first, n, ptrs);
    forall q | |q| == |path| - 1 - l && AllBelow(q, ptrs)
      ensures PathAt(x, q) == if SplitRun(path[1..], l, q, n) then first + (q[|q|-1] - path[|path|-1])
                else PathAt(Get(data[path[0]], path[1..][..l]), q)
    {
      NewBranchAt(rest, metas, first, n, ptrs, q);
    }
    SpliceTree(data, ptrs, path, l, x, first, n);
  }

  /** A run of pointers in an indirect block. */
  lemma SpliceRun(data: seq<Slot>, ptrs: nat, path: seq<nat>, first: nat, n: nat)
    requires ValidData(data, ptrs) && ValidPath(path, ptrs) && |path| > 1 && 0 < n <= Boundary(path, ptrs) + 1 &&
               0 < first
    requires Reaches(data[path[0]], path[1..])
    ensures var cut := path[1..];
            var a, i := cut[..|cut|-1], cut[|cut|-1];
            && Reaches(data[path[0]], a) && Get(data[path[0]], a).Ind? && i + n <= |Get(data[path[0]], a).kids|
            && var node := Get(data[path[0]], a);
               Spliced(data, ptrs, path, first, n,
                       data[path[0] := Put(data[path[0]], a, Ind(node.nr, RunKids(node.kids, i, first, n)))])
  {
    var s, cut := data[path[0]], path[1..];
    var l := |cut| - 1;
    var a, i := cut[..l], cut[l];
    LastParent(s, cut);
    GetShape(s, Levels(path[0]), ptrs, a);
    var node := Get(s, a);
    var x := Ind(node.nr, RunKids(node.kids, i, first, n));
    forall q | |q| == |path| - 1 - l && AllBelow(q, ptrs)
      ensures PathAt(x, q) == if SplitRun(cut, l, q, n) then first + (q[|q|-1] - path[|path|-1]) else PathAt(node, q)
    {
      assert q[1..] == [] && cut[l..] == [i] && q[..0] == [i][..0];
    }
    SpliceTree(data, ptrs, path, l, x, first, n);
  }

  // --------------------------------------------------------------- allocation

  /** Every block handed out is in the tree or has been given back. */
  ghost predicate Accounted(d0: seq<Slot>, f0: seq<Freed>, t0: seq<Freed>, d1: seq<Slot>, f1: seq<Freed>,
                            t1: seq<Freed>) {
    && (forall p: nat :: DataOf(d1, p) + FreedData(f1, p) + FreedData(t0, p) ==
            DataOf(d0, p) + FreedData(f0, p) + FreedData(t1, p))
    && (forall p: nat :: MetaOf(d1, p) + FreedMeta(f1, p) + FreedMeta(t0, p) ==
            MetaOf(d0, p) + FreedMeta(f0, p) + FreedMeta(t1, p))
  }

  /** taken' is taken with the given indirect blocks and data run. */
  ghost predicate Took(taken: seq<Freed>, metas: seq<nat>, first: nat, n: nat, taken': seq<Freed>) {
    && (forall p: nat :: FreedData(taken', p) == FreedData(taken, p) + if first <= p < first + n then 1 else 0)
    && (forall p: nat :: FreedMeta(taken', p) == FreedMeta(taken, p) + Count(metas, p))
  }

  /** The allocation loop of ext4_alloc_branch: need indirect blocks, then up to want data blocks in
      a row. The allocator may fail at any point or give fewer data blocks; on failure all goes back. */
  method AllocBranch(f: IndFile, need: nat, want: nat)
    returns (ok: bool, metas: seq<nat>, first: nat, n: nat, ghost asked: nat)
    requires 0 < want
    modifies f`freed, f`taken
    ensures ok ==> |metas| == need && (forall i :: 0 <= i < need ==> 0 < metas[i]) && 0 < first && 0 < n <= want
    ensures ok ==> f.freed == old(f.freed) && Took(old(f.taken), metas, first, n, f.taken)
    ensures !ok ==> Accounted(f.data, old(f.freed), old(f.taken), f.data, f.freed, f.taken)
    ensures asked == want
  {
    asked := want;
    metas, first, n := [], 0, 0;
    while |metas| < need
      invariant |metas| <= need && (forall i :: 0 <= i < |metas| ==> 0 < metas[i])
      invariant f.freed == old(f.freed) && Took(old(f.taken), metas, 0, 0, f.taken)
    {
      ok := *;
      if !ok {
        GiveBack(f, metas);
        return;
      }
      var nr: nat :| 0 < nr;
      TookOne(old(f.taken), metas, f.taken, nr);
      f.taken := [Meta(nr)] + f.taken;
      metas := metas + [nr];
    }
    ok := *;
    if !ok {
      GiveBack(f, metas);
      return;
    }
    first :| 0 < first;
    n :| 0 < n <= want;
    TookRun(old(f.taken), metas, f.taken, first, n);
    f.taken := [Data(first, n)] + f.taken;
  }

  /** The cleanup of ext4_alloc_branch. */
  method GiveBack(f: IndFile, metas: seq<nat>)
    modifies f`freed
    ensures forall p: nat :: FreedData(f.freed, p) == FreedData(old(f.freed), p)
    ensures forall p: nat :: FreedMeta(f.freed, p) == FreedMeta(old(f.freed), p) + Count(metas, p)
  {
    var i := |metas|;
    assert metas[|metas|..] == [];
    while i > 0
      invariant 0 <= i <= |metas|
      invariant forall p: nat :: FreedData(f.freed, p) == FreedData(old(f.freed), p)
      invariant forall p: nat :: FreedMeta(f.freed, p) == FreedMeta(old(f.freed), p) + Count(metas[i..], p)
    {
      i := i - 1;
      assert metas[i..][0] == metas[i] && metas[i..][1..] == metas[i+1..];
      forall p: nat { FreedCons(Meta(metas[i]), f.freed, p); }
      f.freed := [Meta(metas[i])] + f.freed;
    }
    assert metas[0..] == metas;
  }

  lemma TookOne(taken: seq<Freed>, metas: seq<nat>, taken': seq<Freed>, nr: nat)
    requires Took(taken, metas, 0, 0, taken')
    ensures Took(taken, metas + [nr], 0, 0, [Meta(nr)] + taken')
  {
    forall p: nat
      ensures FreedData([Meta(nr)] + taken', p) == FreedData(taken, p)
      ensures FreedMeta([Meta(nr)] + taken', p) == FreedMeta(taken, p) + Count(metas + [nr], p)
    {
      FreedCons(Meta(nr), taken', p);
      CountConcat(metas, [nr], p);
      assert [nr][1..] == [];
    }
  }

  lemma TookRun(taken: seq<Freed>, metas: seq<nat>, taken': seq<Freed>, first: nat, n: nat)
    requires Took(taken, metas, 0, 0, taken')
    ensures Took(taken, metas, first, n, [Data(first, n)] + taken')
  {
    forall p: nat
      ensures FreedData([Data(first, n)] + taken', p) == FreedData(taken, p) + if first <= p < first + n then 1 else 0
      ensures FreedMeta([Data(first, n)] + taken', p) == FreedMeta(taken, p) + Count(metas, p)
    {
      FreedCons(Data(first, n), taken', p);
    }
  }

  lemma AccountedSlot(data: seq<Slot>, f: seq<Freed>, t0: seq<Freed>, t1: seq<Freed>, i: nat, a: seq<nat>, x: Slot,
                      metas: seq<nat>, first: nat, n: nat)
    requires i < |data| && Reaches(data[i], a) && Took(t0, metas, first, n, t1)
    requires forall p: nat :: DataIn(x, p) == DataIn(Get(data[i], a), p) + if first <= p < first + n then 1 else 0
    requires forall p: nat :: MetaIn(x, p) == MetaIn(Get(data[i], a), p) + Count(metas, p)
    ensures Accounted(data, f, t0, data[i := Put(data[i], a, x)], f, t1)
  {
    var y := Put(data[i], a, x);
    forall p: nat
      ensures DataOf(data[i := y], p) + FreedData(f, p) + FreedData(t0, p) ==
                DataOf(data, p) + FreedData(f, p) + FreedData(t1, p)
      ensures MetaOf(data[i := y], p) + FreedMeta(f, p) + FreedMeta(t0, p) ==
                MetaOf(data, p) + FreedMeta(f, p) + FreedMeta(t1, p)
    {
      SetCount(data, i, y, p);
      PutCount(data[i], a, x, p);
      assert DataIn(x, p) == DataIn(Get(data[i], a), p) + if first <= p < first + n then 1 else 0;
    }
  }

  lemma AccountedDirect(data: seq<Slot>, f: seq<Freed>, t0: seq<Freed>, t1: seq<Freed>, at: nat, first: nat, n: nat)
    requires at + n <= |data| && (forall i :: at <= i < at + n ==> data[i].Empty?) && Took(t0, [], first, n, t1)
    ensures Accounted(data, f, t0, RunKids(data, at, first, n), f, t1)
  {
    forall p: nat { RunCount(data, at, first, n, p); }
  }

  /** The outcome of a mapping request. */
  datatype Mapped = OutOfRange | Found(first: nat, count: nat) | Hole(count: nat) | New(first: nat,
      count: nat) | NoSpace

  ghost predicate Unmapped(data: seq<Slot>, ptrs: nat, lo: nat, n: nat)
    requires ValidData(data, ptrs)
  {
    forall b: nat :: lo <= b < lo + n ==> FileAt(data, ptrs, b) == 0
  }

  /** Put the new blocks in place: ext4_splice_branch. */
  method Splice(f: IndFile, path: seq<nat>, l: nat, metas: seq<nat>, first: nat, n: nat, ghost taken: seq<Freed>)
    requires f.Valid() && ValidPath(path, f.ptrs) && l < |path| && Reaches(f.data[path[0]], path[1..][..l])
    requires Get(f.data[path[0]], path[1..][..l]).Empty? && |metas| == |path| - 1 - l &&
               (forall i :: 0 <= i < |metas| ==> 0 < metas[i])
    requires 0 < first && 0 < n <= Boundary(path, f.ptrs) + 1 && Took(taken, metas, first, n, f.taken)
    requires l == |path| - 1 ==>
               && Reaches(f.data[path[0]], path[1..])
               && forall i :: path[|path|-1] <= i < path[|path|-1] + n && i < |LastArray(f.data, path)| ==>
                    LastArray(f.data, path)[i].Empty?
    modifies f`data
    ensures Spliced(old(f.data), f.ptrs, path, first, n, f.data)
    ensures Accounted(old(f.data), f.freed, taken, f.data, f.freed, f.taken)
  {
    var s, cut := f.data[path[0]], path[1..];
    if l < |cut| {
      SpliceBranch(f.data, f.ptrs, path, l, metas, first, n);
      var x := NewBranch(cut[l..], metas, first, n, f.ptrs);
      forall p: nat { NewBranchCount(cut[l..], metas, first, n, f.ptrs, p); }
      AccountedSlot(f.data, f.freed, taken, f.taken, path[0], cut[..l], x, metas, first, n);
      f.data := f.data[path[0] := Put(s, cut[..l], x)];
    } else if |path| == 1 {
      SpliceDirect(f.data, f.ptrs, path, first, n);
      assert forall i :: path[0] <= i < path[0] + n ==> f.data[i] == LastArray(f.data, path)[i];
      AccountedDirect(f.data, f.freed, taken, f.taken, path[0], first, n);
      var d := WriteRun(f.data, path[0], first, n);
      f.data := d;
    } else {
      var a, i := cut[..|cut|-1], cut[|cut|-1];
      SpliceRun(f.data, f.ptrs, path, first, n);
      var node := Get(s, a);
      var kids := WriteRun(node.kids, i, first, n);
      assert LastArray(f.data, path) == node.kids;
      forall p: nat { RunCount(node.kids, i, first, n, p); }
      AccountedSlot(f.data, f.freed, taken, f.taken, path[0], a, Ind(node.nr, kids), metas, first, n);
      f.data := f.data[path[0] := Put(s, a, Ind(node.nr, kids))];
    }
  }

  /** The allocating part of ext4_ind_map_blocks: the pointer at level l of the path is zero. */
  method CreateBlocks(f: IndFile, path: seq<nat>, l: nat, len: nat) returns (r: Mapped, ghost asked: nat)
    requires f.Valid() && ValidPath(path, f.ptrs) && l < |path| && Reaches(f.data[path[0]], path[1..][..l])
    requires Get(f.data[path[0]], path[1..][..l]).Empty? && 0 < len
    modifies f
    ensures f.Valid() && (r.New? || r == NoSpace)
    ensures r.New? ==>
              && 0 < r.first && 0 < r.count <= asked && Spliced(old(f.data), f.ptrs, path, r.first, r.count, f.data)
    ensures WantsAll(old(f.data), f.ptrs, PathToBlock(path, f.ptrs), len, asked)
    ensures r == NoSpace ==> f.data == old(f.data)
    ensures Accounted(old(f.data), old(f.freed), old(f.taken), f.data, f.freed, f.taken)
  {
    var need := |path| - 1 - l;
    var want := BlksToAllocate(f, path, l, len);
    ghost var taken := f.taken;
    var ok, metas, first, n;
    ok, metas, first, n, asked := AllocBranch(f, need, want);
    if !ok {
      r := NoSpace;
      return;
    }
    Splice(f, path, l, metas, first, n, taken);
    r := New(first, n);
  }

  /** ext4_blks_to_allocate, for the data blocks. */
  method BlksToAllocate(f: IndFile, path: seq<nat>, l: nat, len: nat) returns (want: nat)
    requires f.Valid() && ValidPath(path, f.ptrs) && l < |path| && Reaches(f.data[path[0]], path[1..][..l])
    requires Get(f.data[path[0]], path[1..][..l]).Empty? && 0 < len
    ensures WantsAll(f.data, f.ptrs, PathToBlock(path, f.ptrs), len, want) && want <= Boundary(path, f.ptrs) + 1
    ensures l == |path| - 1 ==>
              && Reaches(f.data[path[0]], path[1..]) && path[|path|-1] + want <= |LastArray(f.data, path)|
              && forall i :: path[|path|-1] <= i < path[|path|-1] + want ==> LastArray(f.data, path)[i].Empty?
  {
    var need, boundary := |path| - 1 - l, Boundary(path, f.ptrs);
    if need > 0 {
      want := if len < boundary + 1 then len else boundary + 1;
    } else {
      assert path[1..][..l] == path[1..];
      ArrayShape(f.data, f.ptrs, path);
      want := CountZeroes(LastArray(f.data, path), path[|path|-1], len, boundary);
    }
    WasHole(f.data, f.ptrs, path, l, want);
    InOneArray(path, want, f.ptrs);
    if want < len && want <= boundary { ArrayBlocks(f.data, f.ptrs, path, want, PathToBlock(path, f.ptrs) + want); }
  }

  lemma ArrayShape(data: seq<Slot>, ptrs: nat, path: seq<nat>)
    requires ValidData(data, ptrs) && ValidPath(path, ptrs) && Reaches(data[path[0]], path[1..])
    ensures path[|path|-1] + Boundary(path, ptrs) < |LastArray(data, path)|
    ensures forall i :: 0 <= i < |LastArray(data, path)| ==>
              LastArray(data, path)[i].Empty? || 0 < LastArray(data, path)[i].nr
    ensures LastArray(data, path)[path[|path|-1]] == Get(data[path[0]], path[1..])
  {
    var a := LastArray(data, path);
    if |path| == 1 {
      forall i | 0 <= i < |a| ensures a[i].Empty? || 0 < a[i].nr { assert Shape(data[i], Levels(i), ptrs); }
    } else {
      LastParent(data[path[0]], path[1..]);
      GetShape(data[path[0]], Levels(path[0]), ptrs, path[1..][..|path|-2]);
      forall i | 0 <= i < |a| ensures a[i].Empty? || 0 < a[i].nr { assert Shape(a[i], 0, ptrs); }
      assert path[|path|-1] == path[1..][|path|-2];
    }
  }

  /** The blocks that a request may allocate were not mapped. */
  lemma WasHole(data: seq<Slot>, ptrs: nat, path: seq<nat>, l: nat, want: nat)
    requires ValidData(data, ptrs) && ValidPath(path, ptrs) && l < |path| && Reaches(data[path[0]], path[1..][..l])
    requires Get(data[path[0]], path[1..][..l]).Empty? && want <= Boundary(path, ptrs) + 1
    requires l == |path| - 1 ==>
               && Reaches(data[path[0]], path[1..])
               && path[|path|-1] + Boundary(path, ptrs) < |LastArray(data, path)|
               && forall i :: path[|path|-1] <= i < path[|path|-1] + want ==> LastArray(data, path)[i].Empty?
    ensures Unmapped(data, ptrs, PathToBlock(path, ptrs), want)
  {
    var b0 := PathToBlock(path, ptrs);
    forall b: nat | b0 <= b < b0 + want
      ensures FileAt(data, ptrs, b) == 0
    {
      WasHoleAt(data, ptrs, path, l, want, b - b0, b);
    }
  }

  lemma WasHoleAt(data: seq<Slot>, ptrs: nat, path: seq<nat>, l: nat, want: nat, i: nat, b: nat)
    requires ValidData(data, ptrs) && ValidPath(path, ptrs) && l < |path| && Reaches(data[path[0]], path[1..][..l])
    requires Get(data[path[0]], path[1..][..l]).Empty? && i < want <= Boundary(path, ptrs) + 1 &&
               b == PathToBlock(path, ptrs) + i
    requires l == |path| - 1 ==>
               && Reaches(data[path[0]], path[1..])
               && path[|path|-1] + Boundary(path, ptrs) < |LastArray(data, path)|
               && forall i :: path[|path|-1] <= i < path[|path|-1] + want ==> LastArray(data, path)[i].Empty?
    ensures FileAt(data, ptrs, b) == 0
  {
    if l == |path| - 1 {
      ArrayBlocks(data, ptrs, path, i, b);
    } else {
      LastOfRest(path, l);
      HoleBlocks(data, ptrs, path, l, i, b);
    }
  }

  lemma LastOfRest(path: seq<nat>, l: nat)
    requires l < |path| - 1
    ensures path[1..][l..] != [] && path[1..][l..][|path[1..][l..]|-1] == path[|path|-1]
  {
  }

  /** The n blocks from b on lie in one array of pointers. */
  ghost predicate OneArray(b: nat, n: nat, ptrs: nat)
    requires 0 < ptrs
  {
    forall c: nat :: b < c < b + n ==> !ArrayStart(c, ptrs)
  }

  lemma InOneArray(path: seq<nat>, n: nat, ptrs: nat)
    requires ValidPath(path, ptrs) && NDIR_BLOCKS <= ptrs && 0 < n <= Boundary(path, ptrs) + 1
    ensures OneArray(PathToBlock(path, ptrs), n, ptrs)
    ensures ArrayStart(PathToBlock(path, ptrs) + n, ptrs) <==> n == Boundary(path, ptrs) + 1
  {
    var b := PathToBlock(path, ptrs);
    forall c: nat | b < c < b + n ensures !ArrayStart(c, ptrs) { BoundaryIff(path, c - b, ptrs); }
    BoundaryIff(path, n, ptrs);
  }

  /** A found run ends with the request, with its array, or before a block that does not continue it. */
  ghost predicate EndsThere(data: seq<Slot>, ptrs: nat, lblk: nat, len: nat, r: Mapped)
    requires ValidData(data, ptrs) && r.Found?
  {
    && OneArray(lblk, r.count, ptrs)
    && (r.count == len || ArrayStart(lblk + r.count, ptrs)
        || FileAt(data, ptrs, lblk + r.count) != r.first + r.count)
  }

  /** The allocator is asked for the whole hole: up to the request, the end of the array, or a mapped block. */
  ghost predicate WantsAll(data: seq<Slot>, ptrs: nat, lblk: nat, len: nat, want: nat)
    requires ValidData(data, ptrs)
  {
    && 0 < want <= len && OneArray(lblk, want, ptrs) && Unmapped(data, ptrs, lblk, want)
    && (want == len || ArrayStart(lblk + want, ptrs) || FileAt(data, ptrs, lblk + want) != 0)
  }

  /** The pointer at level l of the path is the zero pointer that a lookup meets. */
  ghost predicate MissingAt(data: seq<Slot>, ptrs: nat, path: seq<nat>, l: nat)
    requires ValidData(data, ptrs) && ValidPath(path, ptrs)
  {
    l < |path| && Reaches(data[path[0]], path[1..][..l]) && Get(data[path[0]], path[1..][..l]).Empty?
  }

  /** A hole ends with the request or with the last block below the missing pointer. */
  ghost predicate HoleEnds(data: seq<Slot>, ptrs: nat, path: seq<nat>, len: nat, count: nat)
    requires ValidData(data, ptrs) && ValidPath(path, ptrs)
  {
    count == len ||
        exists l: nat :: MissingAt(data, ptrs, path, l) &&
            Val(path[1..][l..], ptrs) + count == Pow(ptrs, |path| - 1 - l)
  }

  /** ext4_ind_map_blocks; asked is the number of data blocks it requests of the allocator. */
  method MapBlocks(f: IndFile, lblk: nat, len: nat, create: bool) returns (r: Mapped, ghost asked: nat)
    requires f.Valid() && 0 < len
    modifies f
    ensures f.Valid()
    ensures r == OutOfRange <==> MaxBlocks(f.ptrs) <= lblk
    ensures r.Found? ==> 0 < r.first && 0 < r.count <= len && forall b: nat :: lblk <= b < lblk + r.count ==>
              FileAt(f.data, f.ptrs, b) == r.first + (b - lblk)
    ensures r.Found? ==>
              lblk < MaxBlocks(f.ptrs) && ValidPath(BlockToPath(lblk, f.ptrs), f.ptrs) &&
                  EndsThere(f.data, f.ptrs, lblk, len, r)
    ensures r.Hole? ==> !create && 0 < r.count <= len && Unmapped(f.data, f.ptrs, lblk, r.count)
    ensures r.Hole? ==>
              lblk < MaxBlocks(f.ptrs) && ValidPath(BlockToPath(lblk, f.ptrs), f.ptrs) &&
                  HoleEnds(f.data, f.ptrs, BlockToPath(lblk, f.ptrs), len, r.count)
    ensures r.New? ==>
              && create && 0 < r.first && 0 < r.count <= asked
              && (forall b: nat :: FileAt(f.data, f.ptrs, b) ==
                    if lblk <= b < lblk + r.count then r.first + (b - lblk) else old(FileAt(f.data, f.ptrs, b)))
    ensures r.New? || r == NoSpace ==> WantsAll(old(f.data), f.ptrs, lblk, len, asked)
    ensures r == NoSpace ==> create && old(FileAt(f.data, f.ptrs, lblk)) == 0
    ensures !r.New? ==> f.data == old(f.data)
    ensures Accounted(old(f.data), old(f.freed), old(f.taken), f.data, f.freed, f.taken)
  {
    BlockPathBlock(lblk, f.ptrs);
    var path := BlockToPath(lblk, f.ptrs);
    asked := 0;
    if path == [] {
      r := OutOfRange;
      return;
    }
    var hole := GetBranch(f.data[path[0]], path[1..], |path|, Levels(path[0]), f.ptrs);
    if hole.None? {
      assert path[1..][..|path|-1] == path[1..];
      r := FoundBlocks(f, path, len);
    } else if !create {
      r := HoleFound(f, path, hole.value, len);
    } else {
      HoleAtStart(f.data, f.ptrs, path, hole.value);
      r, asked := CreateBlocks(f, path, hole.value, len);
    }
  }

  /** The simplest case: the block is mapped. */
  method FoundBlocks(f: IndFile, path: seq<nat>, len: nat) returns (r: Mapped)
    requires f.Valid() && ValidPath(path, f.ptrs) && Reaches(f.data[path[0]], path[1..]) &&
               !Get(f.data[path[0]], path[1..]).Empty? && 0 < len
    ensures r.Found? && 0 < r.first && 0 < r.count <= len
    ensures var b0 := PathToBlock(path, f.ptrs); forall b: nat :: b0 <= b < b0 + r.count ==>
              FileAt(f.data, f.ptrs, b) == r.first + (b - b0)
    ensures EndsThere(f.data, f.ptrs, PathToBlock(path, f.ptrs), len, r)
  {
    ArrayShape(f.data, f.ptrs, path);
    var a, at := LastArray(f.data, path), path[|path|-1];
    var count := CountRun(a, at, len, Boundary(path, f.ptrs));
    FoundRun(f.data, f.ptrs, path, count);
    InOneArray(path, count, f.ptrs);
    if count <= Boundary(path, f.ptrs) { ArrayBlocks(f.data, f.ptrs, path, count, PathToBlock(path, f.ptrs) + count); }
    return Found(Number(a[at]), count);
  }

  /** A plain lookup that meets the zero pointer at level l. */
  method HoleFound(f: IndFile, path: seq<nat>, l: nat, len: nat) returns (r: Mapped)
    requires f.Valid() && ValidPath(path, f.ptrs) && l < |path| && Reaches(f.data[path[0]], path[1..][..l])
    requires Get(f.data[path[0]], path[1..][..l]).Empty? && 0 < len
    ensures r.Hole? && 0 < r.count <= len && Unmapped(f.data, f.ptrs, PathToBlock(path, f.ptrs), r.count)
    ensures HoleEnds(f.data, f.ptrs, path, len, r.count)
  {
    var count := CountHole(path, l, f.ptrs);
    HornerVal(path[1..][l..], f.ptrs);
    assert MissingAt(f.data, f.ptrs, path, l);
    if len < count {
      count := len;
    }
    ghost var b0 := PathToBlock(path, f.ptrs);
    forall b: nat | b0 <= b < b0 + count ensures FileAt(f.data, f.ptrs, b) == 0 {
      HoleBlocks(f.data, f.ptrs, path, l, b - b0, b);
    }
    return Hole(count);
  }

  lemma HoleAtStart(data: seq<Slot>, ptrs: nat, path: seq<nat>, l: nat)
    requires ValidData(data, ptrs) && ValidPath(path, ptrs) && l < |path|
    requires Reaches(data[path[0]], path[1..][..l]) && Get(data[path[0]], path[1..][..l]).Empty?
    ensures FileAt(data, ptrs, PathToBlock(path, ptrs)) == 0
  {
    assert AllBelow(path[1..][l..], ptrs);
    HoleBlocks(data, ptrs, path, l, 0, PathToBlock(path, ptrs));
  }

  lemma FoundRun(data: seq<Slot>, ptrs: nat, path: seq<nat>, count: nat)
    requires ValidData(data, ptrs) && ValidPath(path, ptrs) && Reaches(data[path[0]], path[1..]) &&
               count <= Boundary(path, ptrs) + 1
    requires var a, at := LastArray(data, path), path[|path|-1];
             at + Boundary(path, ptrs) < |a| && forall j :: at <= j < at + count ==>
                 Number(a[j]) == Number(a[at]) + (j - at)
    ensures var a, at, b0 := LastArray(data, path), path[|path|-1], PathToBlock(path, ptrs);
            forall b: nat :: b0 <= b < b0 + count ==> FileAt(data, ptrs, b) == Number(a[at]) + (b - b0)
  {
    var b0 := PathToBlock(path, ptrs);
    forall b: nat | b0 <= b < b0 + count ensures FileAt(data, ptrs, b) ==
        Number(LastArray(data, path)[path[|path|-1]]) + (b - b0) {
      ArrayBlocks(data, ptrs, path, b - b0, b);
    }
  }
}
