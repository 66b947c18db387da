/**
  A file that migration corrupts (ext4/migrate.c): 65792 contiguous blocks become an extent
  of 256 blocks, and no error is reported.
 */
module MigrateWitness {
  import opened Blocks
  import opened Extents
  import opened ExtentTree
  import opened ExtentInsert
  import opened MigrateRuns
  import opened Migrate
  import P = IndirectPath
  import I = IndirectTree
  import opened IndirectVals

  /** n block numbers from nr on. */
  function Up(nr: nat, n: nat): (r: seq<nat>)
    ensures |r| == n && forall i :: 0 <= i < n ==> r[i] == nr + i
  {
    if n == 0 then [] else Up(nr, n - 1) + [nr + n - 1]
  }

  lemma UpConcat(nr: nat, a: nat, mid: nat, b: nat)
    requires mid == nr + a
    ensures Up(nr, a) + Up(mid, b) == Up(nr, a + b)
  {
  }

  /** How many indirect blocks a full tree with d levels has. */
  function Metas(d: nat, ptrs: nat): nat {
    if d == 0 then 0 else 1 + ptrs * Metas(d - 1, ptrs)
  }

  /** A full tree with d levels: data blocks from nr on, indirect blocks from m on. */
  function Full(nr: nat, m: nat, d: nat, ptrs: nat): I.Slot
    decreases d, 0, 0
  {
    if d == 0 then I.Block(nr) else I.Ind(m, FullKids(nr, m + 1, d - 1, ptrs, ptrs))
  }

  function FullKids(nr: nat, m: nat, d: nat, ptrs: nat, n: nat): (r: seq<I.Slot>)
    ensures |r| == n
    decreases d, 1, n
  {
    if n == 0 then [] else FullKids(nr, m, d, ptrs, n - 1) + [FullKid(nr, m, d, ptrs, n - 1)]
  }

  function FullKid(nr: nat, m: nat, d: nat, ptrs: nat, k: nat): I.Slot
    decreases d, 1, 0
  {
    Full(nr + k * P.Pow(ptrs, d), m + k * Metas(d, ptrs), d, ptrs)
  }

  lemma {:induction false} FullShape(nr: nat, m: nat, d: nat, ptrs: nat)
    requires 0 < nr && 0 < m
    ensures I.Shape(Full(nr, m, d, ptrs), d, ptrs) && Vals(Full(nr, m, d, ptrs), d, ptrs) == Up(nr, P.Pow(ptrs, d))
    decreases d, 0
  {
    if d == 0 {
      assert Up(nr, 1) == Up(nr, 0) + [nr];
    } else {
      FullKidsShape(nr, m + 1, d - 1, ptrs, ptrs);
      assert P.Pow(ptrs, d) == P.Pow(ptrs, d - 1) * ptrs;
      assert ptrs * P.Pow(ptrs, d - 1) == P.Pow(ptrs, d - 1) * ptrs;
    }
  }

  lemma {:induction false} FullKidsShape(nr: nat, m: nat, d: nat, ptrs: nat, n: nat)
    requires 0 < nr && 0 < m
    ensures I.Shapes(FullKids(nr, m, d, ptrs, n), d, ptrs)
    ensures ValsOf(FullKids(nr, m, d, ptrs, n), d, ptrs) == Up(nr, n * P.Pow(ptrs, d))
    decreases d, 1, n
  {
    var w := P.Pow(ptrs, d);
    if n == 0 {
      assert n * w == 0;
    } else {
      var a, x, at := FullKids(nr, m, d, ptrs, n - 1), FullKid(nr, m, d, ptrs, n - 1), (n - 1) * w;
      FullKidsShape(nr, m, d, ptrs, n - 1);
      FullShape(nr + at, m + (n - 1) * Metas(d, ptrs), d, ptrs);
      KidsSnoc(a, x, d, ptrs, nr, at, w);
      assert n * w == at + w;
    }
  }

  lemma KidsSnoc(a: seq<I.Slot>, x: I.Slot, d: nat, ptrs: nat, nr: nat, at: nat, w: nat)
    requires I.Shapes(a, d, ptrs) && ValsOf(a, d, ptrs) == Up(nr, at)
    requires I.Shape(x, d, ptrs) && Vals(x, d, ptrs) == Up(nr + at, w)
    ensures I.Shapes(a + [x], d, ptrs) && ValsOf(a + [x], d, ptrs) == Up(nr, at + w)
  {
    ValsSnoc(a, x, d, ptrs);
    UpConcat(nr, at, nr + at, w);
  }

  /** Every indirect block has a number of its own. */
  lemma {:induction false} FullMetas(nr: nat, m: nat, d: nat, ptrs: nat, p: nat)
    ensures I.MetaIn(Full(nr, m, d, ptrs), p) == InRun(m, Metas(d, ptrs), p)
    decreases d, 0
  {
    if d > 0 { FullKidsMetas(nr, m + 1, d - 1, ptrs, ptrs, p); }
  }

  lemma {:induction false} FullKidsMetas(nr: nat, m: nat, d: nat, ptrs: nat, n: nat, p: nat)
    ensures I.MetaOf(FullKids(nr, m, d, ptrs, n), p) == InRun(m, n * Metas(d, ptrs), p)
    decreases d, 1, n
  {
    var k := Metas(d, ptrs);
    if n == 0 {
      assert n * k == 0;
    } else {
      var x := FullKid(nr, m, d, ptrs, n - 1);
      FullKidsMetas(nr, m, d, ptrs, n - 1, p);
      FullMetas(nr + (n - 1) * P.Pow(ptrs, d), m + (n - 1) * k, d, ptrs, p);
      I.MetaConcat(FullKids(nr, m, d, ptrs, n - 1), [x], p);
      I.CountOne(x, p);
      assert n * k == (n - 1) * k + k;
    }
  }

  /** No direct blocks, then a full indirect block and a full double indirect block, all data contiguous; the
      indirect blocks have the numbers from m on. */
  function LongFile(nr: nat, m: nat, ptrs: nat): (r: seq<I.Slot>)
    ensures |r| == 15 && r[P.IND_BLOCK] == Full(nr, m, 1, ptrs) && r[P.DIND_BLOCK] == Full(nr + ptrs, m + 1, 2, ptrs) &&
              r[P.TIND_BLOCK] == I.Empty
    ensures r[..P.NDIR_BLOCKS] == I.Empties(P.NDIR_BLOCKS)
  {
    I.Empties(P.NDIR_BLOCKS) + [Full(nr, m, 1, ptrs), Full(nr + ptrs, m + 1, 2, ptrs), I.Empty]
  }

  lemma {:induction false} HoleVals(n: nat, ptrs: nat)
    ensures |ValsOf(I.Empties(n), 0, ptrs)| == n && forall i :: 0 <= i < n ==> ValsOf(I.Empties(n), 0, ptrs)[i] == 0
  {
    if n > 0 {
      HoleVals(n - 1, ptrs);
      ValsSnoc(I.Empties(n - 1), I.Empty, 0, ptrs);
      assert |Vals(I.Empty, 0, ptrs)| == 1;
    }
  }

  lemma LongFileValid(nr: nat, m: nat, ptrs: nat)
    requires 0 < nr && 0 < m && P.NDIR_BLOCKS <= ptrs
    ensures ValidData(LongFile(nr, m, ptrs), ptrs)
  {
    var x, y := Full(nr, m, 1, ptrs), Full(nr + ptrs, m + 1, 2, ptrs);
    assert I.Shape(x, 1, ptrs) by { FullShape(nr, m, 1, ptrs); }
    assert I.Shape(y, 2, ptrs) by { FullShape(nr + ptrs, m + 1, 2, ptrs); }
    PartsValid(LongFile(nr, m, ptrs), x, y, ptrs);
  }

  lemma PartsValid(data: seq<I.Slot>, x: I.Slot, y: I.Slot, ptrs: nat)
    requires |data| == 15 && P.NDIR_BLOCKS <= ptrs && data[..P.NDIR_BLOCKS] == I.Empties(P.NDIR_BLOCKS)
    requires data[P.IND_BLOCK] == x && data[P.DIND_BLOCK] == y && data[P.TIND_BLOCK] == I.Empty
    requires I.Shape(x, 1, ptrs) && I.Shape(y, 2, ptrs)
    ensures ValidData(data, ptrs)
  {
    forall i | 0 <= i < 15 ensures I.Shape(data[i], P.Levels(i), ptrs) {
      if i < P.NDIR_BLOCKS { assert data[i] == data[..P.NDIR_BLOCKS][i] == I.Empty; }
    }
  }

  /** Twelve holes, contiguous blocks, and holes again. */
  lemma LongFileVals(nr: nat, m: nat, ptrs: nat, n: nat) returns (holes: seq<nat>, rest: seq<nat>)
    requires 0 < nr && 0 < m && n == ptrs + ptrs * ptrs
    ensures FileVals(LongFile(nr, m, ptrs), ptrs) == holes + Up(nr, n) + rest
    ensures |holes| == P.NDIR_BLOCKS && (forall i :: 0 <= i < |holes| ==> holes[i] == 0) &&
              forall i :: 0 <= i < |rest| ==> rest[i] == 0
  {
    P.PowSmall(ptrs);
    FullShape(nr, m, 1, ptrs);
    FullShape(nr + ptrs, m + 1, 2, ptrs);
    HoleVals(P.NDIR_BLOCKS, ptrs);
    assert Vals(Full(nr, m, 1, ptrs), 1, ptrs) == Up(nr, ptrs);
    assert Vals(Full(nr + ptrs, m + 1, 2, ptrs), 2, ptrs) == Up(nr + ptrs, ptrs * ptrs);
    UpConcat(nr, ptrs, nr + ptrs, ptrs * ptrs);
    holes, rest := ValsOf(I.Empties(P.NDIR_BLOCKS), 0, ptrs), Vals(I.Empty, 3, ptrs);
    Regroup(holes, Up(nr, ptrs), Up(nr + ptrs, ptrs * ptrs), rest);
  }

  lemma Regroup(a: seq<nat>, c: seq<nat>, d: seq<nat>, e: seq<nat>)
    ensures a + c + d + e == a + (c + d) + e
  {
  }

  lemma {:induction false} UpRuns(holes: seq<nat>, nr: nat, n: nat)
    requires 0 < n && 0 < nr && RunsOf(holes) == []
    ensures RunsOf(holes + Up(nr, n)) == [Run(|holes|, n, nr)]
    decreases n
  {
    assert holes + Up(nr, n) == (holes + Up(nr, n - 1)) + [nr + n - 1];
    RunsSnoc(holes + Up(nr, n - 1), nr + n - 1);
    if n == 1 {
      assert holes + Up(nr, 0) == holes;
    } else {
      UpRuns(holes, nr, n - 1);
    }
  }

  /** The file is one run. */
  lemma LongFileRuns(nr: nat, m: nat, ptrs: nat, n: nat)
    requires 0 < nr && 0 < m && 0 < n && n == ptrs + ptrs * ptrs
    ensures RunsOf(FileVals(LongFile(nr, m, ptrs), ptrs)) == [Run(P.NDIR_BLOCKS, n, nr)]
  {
    var holes, rest := LongFileVals(nr, m, ptrs, n);
    RunsSkip([], holes);
    assert [] + holes == holes;
    UpRuns(holes, nr, n);
    RunsSkip(holes + Up(nr, n), rest);
  }

  lemma TooLong(nr: nat, m: nat, ptrs: nat, n: nat)
    requires 0 < nr && 0 < m && n == ptrs + ptrs * ptrs && n > INIT_MAX_LEN
    ensures !NoLongRun(FileVals(LongFile(nr, m, ptrs), ptrs))
  {
    var w := FileVals(LongFile(nr, m, ptrs), ptrs);
    LongFileRuns(nr, m, ptrs, n);
    RunsOfFacts(w);
    FitsIff(RunsOf(w), w);
    assert RunsOf(w)[0].len == n;
  }

  // ---------------------------------------------------------- block numbers

  lemma {:induction false} UpCount(nr: nat, n: nat, p: nat)
    ensures Count(Up(nr, n), p) == InRun(nr, n, p)
  {
    if n > 0 {
      UpCount(nr, n - 1, p);
      CountConcat(Up(nr, n - 1), [nr + n - 1], p);
    }
  }

  lemma {:induction false} HolesCount(s: seq<nat>, p: nat)
    requires 0 < p && forall i :: 0 <= i < |s| ==> s[i] == 0
    ensures Count(s, p) == 0
  {
    if s != [] { HolesCount(s[1..], p); }
  }

  /** The data blocks are the run, each once. */
  lemma LongFileData(nr: nat, m: nat, ptrs: nat, n: nat, p: nat)
    requires 0 < nr && 0 < m && 0 < p && P.NDIR_BLOCKS <= ptrs && n == ptrs + ptrs * ptrs
    ensures I.DataOf(LongFile(nr, m, ptrs), p) == InRun(nr, n, p)
  {
    LongFileValid(nr, m, ptrs);
    FileOccurs(LongFile(nr, m, ptrs), ptrs, p);
    var holes, rest := LongFileVals(nr, m, ptrs, n);
    CountConcat(holes + Up(nr, n), rest, p);
    CountConcat(holes, Up(nr, n), p);
    HolesCount(holes, p);
    HolesCount(rest, p);
    UpCount(nr, n, p);
  }

  /** The indirect blocks are the run from m on, each once. */
  lemma LongFileMetas(nr: nat, m: nat, ptrs: nat, p: nat)
    ensures I.MetaOf(LongFile(nr, m, ptrs), p) == InRun(m, 2 + ptrs, p)
  {
    var x, y := Full(nr, m, 1, ptrs), Full(nr + ptrs, m + 1, 2, ptrs);
    TwoTrees(LongFile(nr, m, ptrs), x, y, p);
    TreesMetas(nr, m, 1, 2, ptrs, p, x, y);
  }

  lemma TreesMetas(nr: nat, m: nat, d: nat, e: nat, ptrs: nat, p: nat, x: I.Slot, y: I.Slot)
    requires d == 1 && e == 2 && x == Full(nr, m, d, ptrs) && y == Full(nr + ptrs, m + 1, e, ptrs)
    ensures I.MetaIn(x, p) + I.MetaIn(y, p) == InRun(m, 2 + ptrs, p)
  {
    assert I.MetaIn(x, p) == InRun(m, Metas(d, ptrs), p) by { FullMetas(nr, m, d, ptrs, p); }
    assert I.MetaIn(y, p) == InRun(m + 1, Metas(e, ptrs), p) by { FullMetas(nr + ptrs, m + 1, e, ptrs, p); }
    MetasSmall(ptrs);
  }

  lemma TwoTrees(data: seq<I.Slot>, x: I.Slot, y: I.Slot, p: nat)
    requires data == I.Empties(P.NDIR_BLOCKS) + [x, y, I.Empty]
    ensures I.MetaOf(data, p) == I.MetaIn(x, p) + I.MetaIn(y, p)
  {
    var e := I.Empties(P.NDIR_BLOCKS);
    assert data == e + [x] + ([y] + [I.Empty]);
    I.CountMiddle(e, x, [y] + [I.Empty], p);
    I.MetaConcat([y], [I.Empty], p);
    I.CountEmpty(e, p);
    I.CountOne(y, p);
    I.CountOne(I.Empty, p);
  }

  lemma MetasSmall(ptrs: nat)
    ensures Metas(1, ptrs) == 1 && Metas(2, ptrs) == 1 + ptrs
  {
    assert Metas(0, ptrs) == 0 && ptrs * 0 == 0;
    assert Metas(1, ptrs) == 1 + ptrs * Metas(0, ptrs);
    assert Metas(2, ptrs) == 1 + ptrs * Metas(1, ptrs);
  }

  /** A file on a disk: data blocks from nr on, indirect blocks behind them, every number used once. */
  ghost predicate Laid(data: seq<I.Slot>, nr: nat, n: nat, metas: nat) {
    && (forall p: nat :: 0 < p ==> I.DataOf(data, p) == InRun(nr, n, p))
    && (forall p: nat :: I.MetaOf(data, p) == InRun(nr + n, metas, p))
  }

  method BuildFile(nr: nat, ptrs: nat, n: nat) returns (data: seq<I.Slot>)
    requires 0 < nr && P.NDIR_BLOCKS <= ptrs && n == ptrs + ptrs * ptrs && n > INIT_MAX_LEN
    ensures ValidData(data, ptrs) && Laid(data, nr, n, 2 + ptrs)
    ensures RunsOf(FileVals(data, ptrs)) == [Run(P.NDIR_BLOCKS, n, nr)] && !NoLongRun(FileVals(data, ptrs))
  {
    var m := nr + n;
    LongFileValid(nr, m, ptrs);
    LongFileRuns(nr, m, ptrs, n);
    TooLong(nr, m, ptrs, n);
    data := LongFile(nr, m, ptrs);
    forall p: nat | 0 < p ensures I.DataOf(data, p) == InRun(nr, n, p) { LongFileData(nr, m, ptrs, n, p); }
    forall p: nat ensures I.MetaOf(data, p) == InRun(m, 2 + ptrs, p) { LongFileMetas(nr, m, ptrs, p); }
  }

  lemma BlocksFit(data: seq<I.Slot>, ptrs: nat)
    requires ValidData(data, ptrs) && P.MaxBlocks(ptrs) <= MAX_BLOCKS
    ensures forall b: nat :: FileAt(data, ptrs, b) != 0 ==> b < MAX_BLOCKS
  {
  }

  lemma OneRun(s: seq<Run>, r: Run)
    requires s == [r] && r.len % 0x10000 != 0
    ensures !Wraps(s) && |s| == 1
  {
  }

  /** Migration into an inode with space enough for one insertion. */
  method MigrateOne(data: seq<I.Slot>, ptrs: nat, pool: seq<nat>, ghost run: Run)
    returns (r: Status, ghost f: seq<Extent>)
    requires ValidData(data, ptrs) && P.MaxBlocks(ptrs) <= MAX_BLOCKS && |pool| == 3
    requires RunsOf(FileVals(data, ptrs)) == [run] && run.len % 0x10000 != 0 && !NoLongRun(FileVals(data, ptrs))
    ensures r == Ok && !Migrated(f, data, ptrs)
  {
    OneRun(RunsOf(FileVals(data, ptrs)), run);
    BlocksFit(data, ptrs);
    var tmp := new Inode(Geometry(4, 4, 84, 84), pool);
    var m := new Migrator(tmp);
    r := m.Migrate(data, ptrs);
    assert Toll(0, 1) == 2;
    f := Flat(tmp.root);
  }

  /** With blocks of 1024 bytes an indirect block has 256 pointers. Migration of such a file, which is one run of
      65792 blocks followed by its 258 indirect blocks, succeeds with free blocks behind those, and the extent tree
      does not map what the file maps. */
  method LosesBlocks(nr: nat, ptrs: nat) returns (r: Status, data: seq<I.Slot>, pool: seq<nat>, ghost f: seq<Extent>)
    requires 0 < nr && ptrs == 256
    ensures ValidData(data, ptrs) && RunsOf(FileVals(data, ptrs)) == [Run(P.NDIR_BLOCKS, 65792, nr)]
    ensures Laid(data, nr, 65792, 258) && pool == Up(nr + 65792 + 258, 3)
    ensures r == Ok && !Migrated(f, data, ptrs)
  {
    data := BuildFile(nr, ptrs, 65792);
    pool := Up(nr + 65792 + 258, 3);
    r, f := MigrateOne(data, ptrs, pool, Run(P.NDIR_BLOCKS, 65792, nr));
  }
}
