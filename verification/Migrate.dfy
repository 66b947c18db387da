/**
  Migration of a file from indirect blocks to extents (ext4/migrate.c): the walk over the
  pointer blocks collects runs and inserts them into the extent tree of a temporary inode.
 */
module Migrate {
  import opened Blocks
  import opened Wrappers
  import opened Extents
  import opened ExtentTree
  import opened ExtentSearch
  import opened ExtentPlace
  import opened ExtentInsert
  import P = IndirectPath
  import I = IndirectTree
  import opened IndirectVals
  import opened MigrateRuns

  // ------------------------------------------------------------- run lemmas

  lemma EncodedSnoc(s: seq<Run>, r: Run, b: nat)
    ensures At(Encoded(s + [r]), b) == if At(Encoded(s), b).Some? then At(Encoded(s), b)
              else if Covers(Encode(r), b) then Some(CellOf(Encode(r), b)) else None
  {
    assert (s + [r])[..|s|] == s;
    assert Encoded(s + [r]) == Encoded(s) + [Encode(r)];
    AtConcat(Encoded(s), [Encode(r)], b);
    AtOne(Encode(r), b);
  }

  /** The pending run's extent overlaps nothing in the tree. */
  lemma PendingApart(s: seq<Run>, r: Run, f: seq<Extent>)
    requires Maximal(s + [r]) && Sorted(f) && SameMap(f, Encoded(s)) && 0 < Len(Encode(r))
    ensures Apart(f, Encode(r))
    ensures forall b: nat :: Covers(Encode(r), b) ==> At(Encoded(s), b) == None
  {
    var e := Encode(r);
    EncodeCovers(r);
    forall b: nat | Covers(e, b) ensures At(Encoded(s), b) == None {
      var u := s + [r];
      assert u[|s|] == r;
      forall i | 0 <= i < |s| ensures !Inside(s[i], b) { assert u[i] == s[i]; }
      EncodedNone(s, b);
    }
    forall i | 0 <= i < |f| ensures End(f[i]) <= e.block || End(e) <= f[i].block {
      assert ValidExtent(f[i]);
      var b := if f[i].block < e.block then e.block else f[i].block;
      if Covers(f[i], b) && Covers(e, b) { AtHit(f, i, b); }
    }
  }

  /** The mapped blocks of w, which starts at block n, have 32-bit numbers. */
  ghost predicate Below(n: nat, w: seq<nat>) {
    forall i :: 0 <= i < |w| && w[i] != 0 ==> n + i < MAX_BLOCKS
  }

  lemma BelowParts(n: nat, a: seq<nat>, c: seq<nat>, n': nat)
    requires Below(n, a + c) && n' == n + |a|
    ensures Below(n, a) && Below(n', c)
  {
    var w := a + c;
    forall i | 0 <= i < |a| && a[i] != 0 ensures n + i < MAX_BLOCKS { assert w[i] == a[i]; }
    forall i | 0 <= i < |c| && c[i] != 0 ensures n' + i < MAX_BLOCKS { assert w[|a| + i] == c[i]; }
  }

  // --------------------------------------------------------------- migration

  class Migrator {
    /** lb: the pending range, empty when firstPblock is 0, and the next block of the file */
    var firstBlock: nat
    var lastBlock: nat
    var currBlock: nat
    var firstPblock: nat
    var lastPblock: nat
    /** the temporary inode */
    const tmp: Inode
    /** runs inserted so far, and the blocks of the file seen so far */
    ghost var runs: seq<Run>
    ghost var vals: seq<nat>
    /** the pool and the depth of the temporary inode before any insertion */
    ghost const pool0: nat
    ghost const depth0: nat

    constructor (tmpInode: Inode)
      requires tmpInode.Valid() && Flat(tmpInode.root) == []
      ensures Open() && tmp == tmpInode && vals == [] && pool0 == |tmpInode.pool| && depth0 == tmpInode.depth
    {
      firstBlock, lastBlock, currBlock, firstPblock, lastPblock := 0, 0, 0, 0, 0;
      tmp, runs, vals := tmpInode, [], [];
      pool0, depth0 := |tmpInode.pool|, tmpInode.depth;
    }

    ghost function Pending(): Run
      reads this
    {
      Run(firstBlock, if firstBlock <= lastBlock then lastBlock - firstBlock + 1 else 0, firstPblock)
    }

    /** The runs, with the pending one, are the maximal runs of the blocks seen, and the tree of the
        temporary inode maps what the extents made of the finished ones map. */
    ghost predicate Valid()
      reads this, tmp
    {
      && tmp.Valid() && |vals| == currBlock
      && (firstPblock != 0 ==>
          firstBlock <= lastBlock < currBlock && lastBlock < MAX_BLOCKS &&
              lastPblock == firstPblock + (lastBlock - firstBlock))
      && RunsOf(vals) == (if firstPblock == 0 then runs else runs + [Pending()])
      && SameMap(Flat(tmp.root), Encoded(runs))
      && Spent(pool0, depth0, |runs|, |tmp.pool|, tmp.depth) && !Wraps(runs)
    }

    /** Only the last call of FinishRange leaves no range pending. */
    ghost predicate Open()
      reads this, tmp
    {
      Valid() && (firstPblock == 0 ==> runs == [])
    }

    /** Why an insertion failed when the runs of done were to be inserted: the length of one of them has no low
        bits, or the pool is empty, and was no larger than what that many insertions may take. */
    ghost predicate Excused(r: Status, done: seq<Run>)
      reads this, tmp
    {
      && r != NotZeroed && (r == Corrupted ==> Wraps(done))
      && (r == NoSpace ==> tmp.pool == [] && Spent(pool0, depth0, |done|, |tmp.pool|, tmp.depth))
    }

    lemma ExcusedMore(r: Status, done: seq<Run>, more: seq<Run>)
      requires Excused(r, done) && done <= more
      ensures Excused(r, more)
    {
      if r == Corrupted {
        var i :| 0 <= i < |done| && done[i].len % 0x10000 == 0;
        assert more[i] == done[i];
      }
      if r == NoSpace { SpentMore(pool0, depth0, |done|, |more|, |tmp.pool|, tmp.depth); }
    }

    /** finish_range */
    method FinishRange() returns (r: Status)
      requires Valid()
      modifies this, tmp
      ensures currBlock == old(currBlock) && vals == old(vals) && firstPblock == 0 && runs == RunsOf(vals)
      ensures r == Ok ==> Valid()
      ensures Excused(r, RunsOf(vals))
    {
      r := Ok;
      if firstPblock != 0 {
        ghost var p, d := |tmp.pool|, tmp.depth;
        WrapsSnoc(runs, Pending());
        r := InsertPending();
        SpentStep(pool0, depth0, |runs|, p, d, |tmp.pool|, tmp.depth);
        runs, firstPblock := RunsOf(vals), 0;
      }
    }

    method InsertPending() returns (r: Status)
      requires Valid() && firstPblock != 0
      modifies tmp
      ensures r == Ok ==> tmp.Valid() && SameMap(Flat(tmp.root), Encoded(RunsOf(vals)))
      ensures r != NotZeroed && (r == Corrupted <==> Pending().len % 0x10000 == 0)
      ensures tmp.depth <= old(tmp.depth) + 1 && |tmp.pool| <= |old(tmp.pool)| <= |tmp.pool| + old(tmp.depth) + 2
      ensures r == NoSpace ==> tmp.pool == []
    {
      ghost var run, f := Pending(), Flat(tmp.root);
      var newext := Extent(firstBlock, (lastBlock - firstBlock + 1) % 0x10000, firstPblock);
      assert newext == Encode(run);
      FitsSearchable(tmp.g, tmp.root, tmp.depth, true);
      PendingFits(runs, run, f, vals);
      var path := FindExtent(tmp.root, tmp.depth, firstBlock);
      var canExtend: bool := *;
      r := tmp.InsertExtent(path, newext, false, canExtend);
      if r == Ok { Inserted(runs, run, f, Flat(tmp.root)); }
    }

    /** update_extent_range */
    method UpdateExtentRange(pblock: nat) returns (r: Status)
      requires Open() && 0 < pblock && currBlock < MAX_BLOCKS
      modifies this, tmp
      ensures r == Ok ==> Open() && vals == old(vals) + [pblock]
      ensures Excused(r, Complete(old(vals) + [pblock]))
    {
      if firstPblock != 0 && lastPblock + 1 == pblock && lastBlock + 1 == currBlock {
        Grow(pblock);
        return Ok;
      }
      RunStarts(runs, firstPblock != 0, Pending(), vals, pblock);
      r := FinishRange();
      Start(pblock);
    }

    /** A new range, whatever the outcome of finishing the last one. */
    method Start(pblock: nat)
      requires runs == RunsOf(vals) && RunsOf(vals + [pblock]) == RunsOf(vals) + [Run(|vals|, 1, pblock)]
      requires 0 < pblock && currBlock < MAX_BLOCKS
      modifies this
      ensures vals == old(vals) + [pblock]
      ensures old(Valid()) ==> Open()
    {
      firstPblock, lastPblock := pblock, pblock;
      firstBlock, lastBlock := currBlock, currBlock;
      currBlock := currBlock + 1;
      vals := vals + [pblock];
    }

    /** The next block continues the pending range. */
    method Grow(pblock: nat)
      requires Open() && currBlock < MAX_BLOCKS
      requires firstPblock != 0 && lastPblock + 1 == pblock && lastBlock + 1 == currBlock
      modifies this
      ensures Open() && vals == old(vals) + [pblock]
    {
      RunGrows(runs, Pending(), vals, pblock);
      lastPblock, lastBlock, currBlock := pblock, currBlock, currBlock + 1;
      vals := vals + [pblock];
    }

    /** A hole: only the file block number moves on. */
    method Skip(n: nat)
      requires Open()
      modifies this
      ensures Open() && vals == old(vals) + Zeros(n)
    {
      RunsSkip(vals, Zeros(n));
      currBlock := currBlock + n;
      vals := vals + Zeros(n);
    }

    /** One entry of a pointer array with d levels below it. */
    method UpdateSlot(s: I.Slot, d: nat, ptrs: nat) returns (r: Status)
      requires Open() && I.Shape(s, d, ptrs) && Below(currBlock, Vals(s, d, ptrs))
      modifies this, tmp
      ensures r == Ok ==> Open() && vals == old(vals) + Vals(s, d, ptrs)
      ensures Excused(r, Complete(old(vals) + Vals(s, d, ptrs)))
      decreases d, 0
    {
      if s.Empty? {
        Skip(P.Pow(ptrs, d));
        r := Ok;
      } else if d == 0 {
        assert Vals(s, d, ptrs)[0] == s.nr;
        r := UpdateExtentRange(s.nr);
      } else {
        r := UpdateArray(s.kids, d - 1, ptrs);
      }
    }

    /** The loops of update_ind_extent_range, update_dind_extent_range and update_tind_extent_range, and of
        ext4_ext_migrate over the direct pointers. */
    method UpdateArray(kids: seq<I.Slot>, d: nat, ptrs: nat) returns (r: Status)
      requires Open() && I.Shapes(kids, d, ptrs) && Below(currBlock, ValsOf(kids, d, ptrs))
      modifies this, tmp
      ensures r == Ok ==> Open() && vals == old(vals) + ValsOf(kids, d, ptrs)
      ensures Excused(r, Complete(old(vals) + ValsOf(kids, d, ptrs)))
      decreases d, 1
    {
      r := Ok;
      ghost var v := vals;
      var i := 0;
      while i < |kids|
        invariant 0 <= i <= |kids| && r == Ok && Open() && vals == v + ValsOf(kids[..i], d, ptrs)
      {
        ghost var a, x, c := ValsOf(kids[..i], d, ptrs), Vals(kids[i], d, ptrs), ValsOf(kids[i+1..], d, ptrs);
        ValsAround(kids, i, d, ptrs);
        BelowMiddle(|v|, a, x, c, currBlock);
        assert I.Shape(kids[i], d, ptrs);
        r := UpdateSlot(kids[i], d, ptrs);
        Reassociated(v, a, x, c);
        if r != Ok {
          CompleteMore(v + a + x, v + ValsOf(kids, d, ptrs));
          ExcusedMore(r, Complete(v + a + x), Complete(v + ValsOf(kids, d, ptrs)));
          return;
        }
        i := i + 1;
      }
      assert kids[..i] == kids;
    }

    /** ext4_ext_migrate up to the last finish_range: the map of the temporary inode is that of the file
        exactly when the file has no stretch of more than 0x8000 contiguous blocks. */
    method Migrate(data: seq<I.Slot>, ptrs: nat) returns (r: Status)
      requires Open() && vals == [] && ValidData(data, ptrs)
      requires forall b: nat :: FileAt(data, ptrs, b) != 0 ==> b < MAX_BLOCKS
      modifies this, tmp
      ensures r != NotZeroed && (r == Ok ==> tmp.Valid() && !Wraps(RunsOf(FileVals(data, ptrs))))
      ensures r == Ok ==> (Migrated(Flat(tmp.root), data, ptrs) <==> NoLongRun(FileVals(data, ptrs)))
      ensures r == Corrupted ==> Wraps(RunsOf(FileVals(data, ptrs))) && !NoLongRun(FileVals(data, ptrs))
      ensures r == NoSpace ==>
                tmp.pool == [] && Spent(pool0, depth0, |RunsOf(FileVals(data, ptrs))|, |tmp.pool|, tmp.depth)
    {
      ghost var w := FileVals(data, ptrs);
      FileBelow(data, ptrs);
      r := UpdateFile(data, ptrs);
      if r == Ok {
        RunsSkip(vals, w[|vals|..]);
        assert vals + w[|vals|..] == w;
        r := FinishRange();
        if r == Ok { FinalMap(vals, Flat(tmp.root), data, ptrs); }
      } else {
        ExcusedMore(r, Complete(w), RunsOf(w));
      }
      WrapsLong(w);
    }

    method UpdateFile(data: seq<I.Slot>, ptrs: nat) returns (r: Status)
      requires Open() && vals == [] && ValidData(data, ptrs) && Below(0, FileVals(data, ptrs))
      modifies this, tmp
      ensures r == Ok ==> Open() && OnlyHole(vals, FileVals(data, ptrs))
      ensures Excused(r, Complete(FileVals(data, ptrs)))
    {
      ghost var w := FileVals(data, ptrs);
      ghost var a, c, e :=
          ValsOf(data[..P.NDIR_BLOCKS], 0, ptrs), Vals(data[P.IND_BLOCK], 1, ptrs), Vals(data[P.DIND_BLOCK], 2, ptrs);
      ghost var h := Vals(data[P.TIND_BLOCK], 3, ptrs);
      DirectShapes(data, ptrs);
      FileParts(a, c, e, h);
      r := UpdateArray(data[..P.NDIR_BLOCKS], 0, ptrs);
      ghost var seen := a;
      if r == Ok {
        r := UpdateSlot(data[P.IND_BLOCK], 1, ptrs);
        seen := a + c;
      }
      if r == Ok {
        r := UpdateSlot(data[P.DIND_BLOCK], 2, ptrs);
        seen := a + c + e;
      }
      if r == Ok && !data[P.TIND_BLOCK].Empty? {
        r := UpdateSlot(data[P.TIND_BLOCK], 3, ptrs);
        seen := a + c + e + h;
      }
      CompleteMore(seen, w);
      ExcusedMore(r, Complete(seen), Complete(w));
    }
  }

  /** The tree maps each block of the file, as written, to where the file has it. */
  ghost predicate Migrated(f: seq<Extent>, data: seq<I.Slot>, ptrs: nat)
    requires ValidData(data, ptrs)
  {
    forall b: nat :: At(f, b) == var p := FileAt(data, ptrs, b); if p == 0 then None else Some(Cell(p, false))
  }

  /** w goes on after vals with nothing but holes. */
  ghost predicate OnlyHole(vals: seq<nat>, w: seq<nat>) {
    vals <= w && forall b :: |vals| <= b < |w| ==> w[b] == 0
  }

  lemma ValsAround(kids: seq<I.Slot>, i: nat, d: nat, ptrs: nat)
    requires i < |kids|
    ensures ValsOf(kids, d, ptrs) == ValsOf(kids[..i], d, ptrs) + Vals(kids[i], d, ptrs) + ValsOf(kids[i+1..], d, ptrs)
    ensures ValsOf(kids[..i+1], d, ptrs) == ValsOf(kids[..i], d, ptrs) + Vals(kids[i], d, ptrs)
  {
    assert kids == kids[..i] + [kids[i]] + kids[i+1..] && kids[..i+1] == kids[..i] + [kids[i]];
    ValsSnoc(kids[..i], kids[i], d, ptrs);
    ValsConcat(kids[..i] + [kids[i]], kids[i+1..], d, ptrs);
  }

  lemma BelowMiddle(n: nat, a: seq<nat>, x: seq<nat>, c: seq<nat>, n': nat)
    requires Below(n, a + x + c) && n' == n + |a|
    ensures Below(n', x)
  {
    BelowParts(n, a + x, c, n + |a + x|);
    BelowParts(n, a, x, n');
  }

  lemma FileParts(a: seq<nat>, c: seq<nat>, e: seq<nat>, h: seq<nat>)
    requires Below(0, a + c + e + h)
    ensures Below(0, a) && Below(|a|, c) && Below(|a + c|, e) && Below(|a + c + e|, h)
    ensures [] + a == a && a <= a + c + e + h && a + c <= a + c + e + h
  {
    BelowParts(0, a + c + e, h, |a + c + e|);
    BelowParts(0, a + c, e, |a + c|);
    BelowParts(0, a, c, |a|);
  }

  lemma Reassociated(v: seq<nat>, a: seq<nat>, x: seq<nat>, c: seq<nat>)
    ensures (v + a) + x == v + (a + x) && v + (a + x + c) == (v + a + x) + c
  {
  }

  lemma FileBelow(data: seq<I.Slot>, ptrs: nat)
    requires ValidData(data, ptrs) && forall b: nat :: FileAt(data, ptrs, b) != 0 ==> b < MAX_BLOCKS
    ensures Below(0, FileVals(data, ptrs))
  {
    FileValsSize(data, ptrs);
    forall i | 0 <= i < |FileVals(data, ptrs)| && FileVals(data, ptrs)[i] != 0 ensures 0 + i < MAX_BLOCKS {
      FileValsAt(data, ptrs, i);
    }
  }

  lemma FinalMap(vals: seq<nat>, f: seq<Extent>, data: seq<I.Slot>, ptrs: nat)
    requires ValidData(data, ptrs) && OnlyHole(vals, FileVals(data, ptrs)) && SameMap(f, Encoded(RunsOf(vals)))
    ensures Migrated(f, data, ptrs) <==> NoLongRun(FileVals(data, ptrs))
  {
    var w := FileVals(data, ptrs);
    RunsSkip(vals, w[|vals|..]);
    assert vals + w[|vals|..] == w;
    RunsOfFacts(w);
    EncodedMapIff(RunsOf(w), w);
    FileValsSize(data, ptrs);
    forall b: nat
      ensures Wanted(w, b) == var p := FileAt(data, ptrs, b); if p == 0 then None else Some(Cell(p, false))
      ensures At(f, b) == At(Encoded(RunsOf(w)), b)
    {
      if b < P.MaxBlocks(ptrs) { FileValsAt(data, ptrs, b); }
    }
  }

  /** The next block continues the last run. */
  lemma RunGrows(s: seq<Run>, r: Run, vals: seq<nat>, p: nat)
    requires RunsOf(vals) == s + [r] && Touch(r, Run(|vals|, 1, p)) && 0 < p
    ensures RunsOf(vals + [p]) == s + [Run(r.block, r.len + 1, r.pblk)]
  {
    RunsSnoc(vals, p);
    NextGrows(RunsOf(vals), s, r, |vals|, p);
  }

  lemma NextGrows(u: seq<Run>, s: seq<Run>, r: Run, n: nat, p: nat)
    requires u == s + [r] && Touch(r, Run(n, 1, p)) && 0 < p
    ensures NextRuns(u, n, p) == s + [Run(r.block, r.len + 1, r.pblk)]
  {
    assert u[|u|-1] == r && u[..|u|-1] == s;
  }

  /** The next block starts a run, and the last one is complete. */
  lemma RunStarts(s: seq<Run>, pending: bool, r: Run, vals: seq<nat>, p: nat)
    requires RunsOf(vals) == (if pending then s + [r] else s) &&
               (if pending then !Touch(r, Run(|vals|, 1, p)) else s == []) && 0 < p
    ensures RunsOf(vals + [p]) == RunsOf(vals) + [Run(|vals|, 1, p)] && Complete(vals + [p]) == RunsOf(vals)
  {
    RunsSnoc(vals, p);
    NextStarts(RunsOf(vals), |vals|, p);
  }

  lemma NextStarts(u: seq<Run>, n: nat, p: nat)
    requires 0 < p && (u != [] ==> !Touch(u[|u|-1], Run(n, 1, p)))
    ensures NextRuns(u, n, p) == u + [Run(n, 1, p)] && (u + [Run(n, 1, p)])[..|u|] == u
  {
  }

  lemma Inserted(s: seq<Run>, r: Run, f: seq<Extent>, f': seq<Extent>)
    requires Maximal(s + [r]) && SameMap(f, Encoded(s)) && MapsPlus(f, Encode(r), f')
    requires forall b: nat :: Covers(Encode(r), b) ==> At(Encoded(s), b) == None
    ensures SameMap(f', Encoded(s + [r]))
  {
    forall b: nat ensures At(f', b) == At(Encoded(s + [r]), b) {
      EncodedSnoc(s, r, b);
      assert At(f, b) == At(Encoded(s), b);
    }
  }

  /** What insertion needs of the pending extent. */
  lemma PendingFits(s: seq<Run>, r: Run, f: seq<Extent>, vals: seq<nat>)
    requires RunsOf(vals) == s + [r] && Stop(r) <= MAX_BLOCKS && Sorted(f) && SameMap(f, Encoded(s))
    ensures Maximal(s + [r])
    ensures Len(Encode(r)) > 0 ==> ValidExtent(Encode(r)) && Apart(f, Encode(r))
    ensures forall b: nat :: Covers(Encode(r), b) ==> At(Encoded(s), b) == None
  {
    RunsOfFacts(vals);
    EncodeCovers(r);
    var u := s + [r];
    assert u[|s|] == r;
    if Len(Encode(r)) > 0 { PendingApart(s, r, f); }
  }
}
