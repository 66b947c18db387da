/**
  Unwritten extents become written ones (ext4/extents.c): ext4_split_extent and
  ext4_ext_convert_to_initialized.
 */
module ExtentConvert {
  import opened Wrappers
  import opened Blocks
  import opened Extents
  import opened ExtentTree
  import opened ExtentSearch
  import opened ExtentNeighbours
  import opened ExtentMerge
  import opened ExtentInsert
  import opened ExtentModify
  import opened ExtentRemoveSpace
  import opened ExtentShift
  import opened ExtentSwap

  /** The blocks of [lo, hi) get state u and keep their physical blocks; nothing else changes. */
  ghost predicate Restated(f: seq<Extent>, f': seq<Extent>, lo: nat, hi: nat, u: bool) {
    Remarked(f, f', lo, lo, hi, u, u)
  }

  // ------------------------------------------------------- ext4_split_extent

  /** Marking both parts of an extent as it is marked changes no block. */
  lemma SplitKeeps(f: seq<Extent>, k: nat, mid: nat, f': seq<Extent>)
    requires Sorted(f) && k < |f| && Remarked(f, f', f[k].block, mid, End(f[k]), Unwritten(f[k]), Unwritten(f[k]))
    ensures SameBlocks(f, f')
  {
    forall b: nat ensures At(f, b) == At(f', b) {
      if Covers(f[k], b) { AtHit(f, k, b); }
    }
  }

  lemma SplitRestates(f: seq<Extent>, f1: seq<Extent>, k: nat, lblk: nat, f2: seq<Extent>, u: bool)
    requires Sorted(f1) && k < |f1| && f1[k].block <= lblk < End(f1[k]) && SameBlocks(f, f1)
    requires Remarked(f1, f2, f1[k].block, lblk, End(f1[k]), Unwritten(f1[k]), u)
    ensures Restated(f, f2, lblk, End(f1[k]), u)
  {
    forall b: nat
      ensures lblk <= b < End(f1[k]) ==> At(f, b).Some? && At(f2, b) == Some(Cell(At(f, b).value.pblk, u))
      ensures !(lblk <= b < End(f1[k])) ==> At(f2, b) == At(f, b)
    {
      assert At(f, b) == At(f1, b);
      if Covers(f1[k], b) { AtHit(f1, k, b); }
    }
    forall p ensures Owns(f2, p) == Owns(f, p) { assert Owns(f1, p) == Owns(f, p); }
  }

  /** The same for a whole extent, of which f1 may have cut something off behind. */
  lemma WholeRestates(f: seq<Extent>, f1: seq<Extent>, lo: nat, mid: nat, hi: nat, f2: seq<Extent>, u: bool)
    requires SameBlocks(f, f1) && Remarked(f1, f2, lo, mid, hi, u, u)
    ensures Restated(f, f2, lo, hi, u)
  {
    forall b: nat
      ensures lo <= b < hi ==> At(f, b).Some? && At(f2, b) == Some(Cell(At(f, b).value.pblk, u))
      ensures !(lo <= b < hi) ==> At(f2, b) == At(f, b)
    {
      assert At(f, b) == At(f1, b);
    }
    forall p ensures Owns(f2, p) == Owns(f, p) { assert Owns(f1, p) == Owns(f, p); }
  }

  lemma RestatedOn(f: seq<Extent>, f1: seq<Extent>, f2: seq<Extent>, lo: nat, hi: nat, u: bool)
    requires Restated(f, f1, lo, hi, u) && SameBlocks(f1, f2)
    ensures Restated(f, f2, lo, hi, u)
  {
    forall b: nat ensures At(f2, b) == At(f1, b) { }
    forall p ensures Owns(f2, p) == Owns(f, p) { assert Owns(f1, p) == Owns(f, p); }
  }

  /** Where zeroing took the place of a cut: nowhere, behind the wanted blocks, or before them. */
  datatype Fell = Nowhere | Behind | InFront

  /** What is zeroed instead of the cut behind the blocks up to hi, and before the blocks from lblk on. */
  function ZeroBehind(x: Extent, hi: nat, valid: bool): Extent
    requires ValidExtent(x) && x.block < hi < End(x)
  {
    ZeroPart(x, hi, if valid then HeadData else NoData)
  }

  function ZeroInFront(x: Extent, lblk: nat, hi: nat, valid: bool): Extent
    requires ValidExtent(x) && Unwritten(x) && x.block < lblk < hi <= End(x)
  {
    ZeroPart(Make(x.block, hi - x.block, x.pblk, true), lblk, if valid then TailData else NoData)
  }

  /** The first half of ext4_split_extent: cut behind the wanted blocks and search again. */
  method CutBehind(ino: Inode, path: Path, lblk: nat, len: nat, mayZero: bool, valid: bool, io: bool, canExtend: bool)
    returns (r: Status, path': Path, zeros: seq<Extent>)
    requires ino.Valid() && PathTo(ino.root, ino.depth, path, lblk) && 0 < len
    requires var x := Sub(ino.root, path.pos).exts[path.ext.value]; lblk + len <= End(x) && (mayZero ==> Unwritten(x))
    modifies ino
    ensures ino.Valid()
    ensures forall b :: ino.Held(b) == old(ino.Held(b))
    ensures forall p :: FreedData(ino.freed, p) == old(FreedData(ino.freed, p))
    ensures ino.depth <= old(ino.depth) + 1 && |ino.pool| <= |old(ino.pool)| <= |ino.pool| + old(ino.depth) + 2
    ensures r == NoSpace || zeros != [] ==> |old(ino.pool)| < old(ino.depth) + 2 && ino.pool == []
    ensures zeros == [] ==> SameBlocks(old(Flat(ino.root)), Flat(ino.root)) && (r == Ok || (r == NoSpace && !mayZero))
    ensures r == Ok ==> PathTo(ino.root, ino.depth, path', lblk)
    ensures zeros == [] && r == Ok ==>
              var x, y :=
                  old(Sub(ino.root, path.pos).exts[path.ext.value]), Sub(ino.root, path'.pos).exts[path'.ext.value];
              Unwritten(y) == Unwritten(x) && y.block == x.block && y.pblk == x.pblk && End(y) == lblk + len
    ensures zeros != [] ==>
              var x := old(Sub(ino.root, path.pos).exts[path.ext.value]);
              && mayZero && ValidExtent(x) && lblk + len < End(x) && zeros == [ZeroBehind(x, lblk + len, valid)]
              && (if io
                  then
                    && r == Ok && Restated(old(Flat(ino.root)), Flat(ino.root), x.block, End(x), false)
                    && !Unwritten(Sub(ino.root, path'.pos).exts[path'.ext.value])
                  else r == NotZeroed && Flat(ino.root) == old(Flat(ino.root)))
  {
    path' := path;
    ghost var k;
    r, zeros, k := CutOff(ino, path, lblk, len, mayZero, valid, io, canExtend);
    if r == Ok {
      path' := FindCovering(ino, lblk, k);
    }
  }

  /** The cut behind the wanted blocks of x: k is the rank of the extent that then covers lblk. */
  ghost predicate CutDone(r: Status, zeros: seq<Extent>, x: Extent, lblk: nat, hi: nat, mayZero: bool, valid: bool,
                          io: bool, f: seq<Extent>, f': seq<Extent>, k: nat) {
    && (r == Ok ==> k < |f'| && Covers(f'[k], lblk))
    && if zeros == []
         then && SameBlocks(f, f') && (r == Ok || (r == NoSpace && !mayZero))
              && (r == Ok ==>
                  Unwritten(f'[k]) == Unwritten(x) && f'[k].block == x.block && f'[k].pblk == x.pblk &&
                      End(f'[k]) == hi)
         else && mayZero && ValidExtent(x) && x.block < hi < End(x) && zeros == [ZeroBehind(x, hi, valid)]
              && (if io
                  then r == Ok && Restated(f, f', x.block, End(x), false) && !Unwritten(f'[k])
                  else r == NotZeroed && f' == f)
  }

  /** The cut itself. */
  method CutOff(ino: Inode, path: Path, lblk: nat, len: nat, mayZero: bool, valid: bool, io: bool, canExtend: bool)
    returns (r: Status, zeros: seq<Extent>, ghost k: nat)
    requires ino.Valid() && PathTo(ino.root, ino.depth, path, lblk) && 0 < len
    requires var x := Sub(ino.root, path.pos).exts[path.ext.value]; lblk + len <= End(x) && (mayZero ==> Unwritten(x))
    modifies ino
    ensures ino.Valid()
    ensures forall b :: ino.Held(b) == old(ino.Held(b))
    ensures forall p :: FreedData(ino.freed, p) == old(FreedData(ino.freed, p))
    ensures ino.depth <= old(ino.depth) + 1 && |ino.pool| <= |old(ino.pool)| <= |ino.pool| + old(ino.depth) + 2
    ensures r == NoSpace || zeros != [] ==> |old(ino.pool)| < old(ino.depth) + 2 && ino.pool == []
    ensures CutDone(r, zeros, old(Sub(ino.root, path.pos).exts[path.ext.value]), lblk, lblk + len, mayZero, valid, io,
                    old(Flat(ino.root)), Flat(ino.root), k)
  {
    var x, hi := Sub(ino.root, path.pos).exts[path.ext.value], lblk + len;
    RankAt(ino.root, path);
    assert ValidExtent(x);
    ghost var f := Flat(ino.root);
    k := Rank(ino.root, path);
    r, zeros := Ok, [];
    if hi < End(x) {
      r, zeros :=
          SplitExtentAt(ino, path, hi, Unwritten(x), Unwritten(x), mayZero, if valid then HeadData else NoData, io,
                        true, canExtend);
    }
    if r == Ok {
      if zeros == [] {
        CutKept(f, k, lblk, len, hi, Flat(ino.root));
      } else {
        WholeRestates(f, f, x.block, hi, End(x), Flat(ino.root), false);
        k := AtSome(Flat(ino.root), lblk);
        AtHit(Flat(ino.root), k, lblk);
      }
    }
  }

  lemma CutKept(f: seq<Extent>, k: nat, lblk: nat, len: nat, hi: nat, f': seq<Extent>)
    requires Sorted(f) && Sorted(f') && k < |f| && Covers(f[k], lblk) && 0 < len && hi == lblk + len <= End(f[k])
    requires hi == End(f[k]) ==> f' == f
    requires hi < End(f[k]) ==>
               && ValidExtent(f[k])
               && f' == f[..k] + [HeadOf(f[k], hi, Unwritten(f[k])), TailOf(f[k], hi, Unwritten(f[k]))] + f[k+1..]
               && Remarked(f, f', f[k].block, hi, End(f[k]), Unwritten(f[k]), Unwritten(f[k]))
    ensures SameBlocks(f, f') && k < |f'| && Covers(f'[k], lblk) && Unwritten(f'[k]) == Unwritten(f[k])
    ensures End(f'[k]) == hi && f'[k].block == f[k].block && f'[k].pblk == f[k].pblk
  {
    if hi < End(f[k]) { SplitKeeps(f, k, hi, f'); }
    CutFinds(f, k, lblk, len, f');
  }

  /** The search for a block that extent k covers finds extent k. */
  method FindCovering(ino: Inode, b: nat, ghost k: nat) returns (path: Path)
    requires ino.Valid() && k < |Flat(ino.root)| && Covers(Flat(ino.root)[k], b)
    ensures PathTo(ino.root, ino.depth, path, b) && Rank(ino.root, path) == k
    ensures Sub(ino.root, path.pos).exts[path.ext.value] == Flat(ino.root)[k]
  {
    path := FindAt(ino, b);
    FindsSome(ino.g, ino.root, ino.depth, path, b);
    CoverRank(Flat(ino.root), k, Rank(ino.root, path), b);
  }

  /** Behind the cut, the extent that covers lblk ends at lblk + len. */
  lemma CutFinds(f: seq<Extent>, k: nat, lblk: nat, len: nat, f': seq<Extent>)
    requires Sorted(f) && Sorted(f') && k < |f| && Covers(f[k], lblk) && 0 < len && lblk + len <= End(f[k])
    requires lblk + len == End(f[k]) ==> f' == f
    requires lblk + len < End(f[k]) ==>
               && ValidExtent(f[k])
               && f' == f[..k] +
                    [HeadOf(f[k], lblk + len, Unwritten(f[k])), TailOf(f[k], lblk + len, Unwritten(f[k]))] + f[k+1..]
    ensures k < |f'| && Covers(f'[k], lblk) && Unwritten(f'[k]) == Unwritten(f[k]) && End(f'[k]) == lblk + len
    ensures f'[k].block == f[k].block && f'[k].pblk == f[k].pblk
  {
    if lblk + len < End(f[k]) {
      assert f'[k] == HeadOf(f[k], lblk + len, Unwritten(f[k]));
    }
  }

  /** What ext4_split_extent does to the blocks, up to hi, from lblk on, of the extent x of f. */
  ghost predicate SplitOutcome(r: Status, fell: Fell, zeros: seq<Extent>, x: Extent, lblk: nat, hi: nat, u: bool,
                               mayZero: bool, valid: bool, io1: bool, io2: bool, f: seq<Extent>, f': seq<Extent>)
    requires ValidExtent(x) && x.block <= lblk < hi <= End(x) && (mayZero ==> Unwritten(x))
  {
    match fell
    case Nowhere =>
      && zeros == []
      && if r == Ok then Restated(f, f', lblk, hi, u && Unwritten(x)) else r == NoSpace && !mayZero && SameBlocks(f, f')
    case Behind =>
      && mayZero && hi < End(x) && zeros == [ZeroBehind(x, hi, valid)]
      && if io1 then (r == Ok || r == NoSpace) && Restated(f, f', x.block, End(x), false)
           else r == NotZeroed && SameBlocks(f, f')
    case InFront =>
      && mayZero && x.block < lblk && zeros == [ZeroInFront(x, lblk, hi, valid)]
      && if io2 then r == Ok && Restated(f, f', x.block, hi, false) else r == NotZeroed && SameBlocks(f, f')
  }

  /** ext4_split_extent: the blocks of [lblk, lblk + len) get state u if they were unwritten. mayZero, u and valid stand
      for the flags EXT4_EXT_MAY_ZEROOUT, EXT4_EXT_MARK_UNWRIT2 and EXT4_EXT_DATA_VALID2, io1 and io2 for the success
      of zeroing. */
  method SplitExtent(ino: Inode, path: Path, lblk: nat, len: nat, u: bool, mayZero: bool, valid: bool, io1: bool,
                     io2: bool, preIo: bool, canExtend: bool)
    returns (r: Status, got: nat, zeros: seq<Extent>, ghost fell: Fell)
    requires ino.Valid() && PathTo(ino.root, ino.depth, path, lblk) && 0 < len
    requires var x := Sub(ino.root, path.pos).exts[path.ext.value];
             ValidExtent(x) && lblk + len <= End(x) && (mayZero ==> Unwritten(x))
    modifies ino
    ensures ino.Valid() && got == len
    ensures SplitOutcome(r, fell, zeros, old(Sub(ino.root, path.pos).exts[path.ext.value]), lblk, lblk + len, u,
                         mayZero, valid, io1, io2, old(Flat(ino.root)), Flat(ino.root))
    ensures r == NoSpace || zeros != [] ==> |old(ino.pool)| < 2 * old(ino.depth) + 5 && ino.pool == []
    ensures forall b :: ino.Held(b) == old(ino.Held(b))
    ensures forall p :: FreedData(ino.freed, p) == old(FreedData(ino.freed, p))
  {
    var x := Sub(ino.root, path.pos).exts[path.ext.value];
    got := if lblk + len < End(x) then len else End(x) - lblk;
    ghost var f := Flat(ino.root);
    var path';
    r, path', zeros := CutBehind(ino, path, lblk, len, mayZero, valid, io1, canExtend);
    fell := if zeros == [] then Nowhere else Behind;
    if r == Ok {
      var more;
      r, more, fell :=
          CutFront(ino, path', lblk, u, mayZero, valid, io2, preIo, canExtend, x, lblk + len, io1, zeros, f);
      zeros := zeros + more;
    }
  }

  /** What the first cut leaves: y is the extent that covers lblk, and ends with the wanted blocks, or is written. */
  ghost predicate CutLeaves(x: Extent, y: Extent, lblk: nat, hi: nat, u: bool, mayZero: bool, valid: bool, io1: bool,
                            io2: bool, zeros: seq<Extent>, f: seq<Extent>, f1: seq<Extent>) {
    && ValidExtent(x) && x.block <= lblk < hi <= End(x) && (mayZero ==> Unwritten(x))
    && if zeros == []
         then && SameBlocks(f, f1)
              && Unwritten(y) == Unwritten(x) && y.block == x.block && y.pblk == x.pblk && End(y) == hi
         else !Unwritten(y) && SplitOutcome(Ok, Behind, zeros, x, lblk, hi, u, mayZero, valid, io1, io2, f, f1)
  }

  /** The second half of ext4_split_extent: cut in front of the wanted blocks, and mark them. */
  method CutFront(ino: Inode, path: Path, lblk: nat, u: bool, mayZero: bool, valid: bool, io2: bool, preIo: bool,
                  canExtend: bool, ghost x: Extent, ghost hi: nat, ghost io1: bool, ghost zeros: seq<Extent>,
                  ghost f: seq<Extent>)
    returns (r: Status, more: seq<Extent>, ghost fell: Fell)
    requires ino.Valid() && PathTo(ino.root, ino.depth, path, lblk)
    requires CutLeaves(x, Sub(ino.root, path.pos).exts[path.ext.value], lblk, hi, u, mayZero, valid, io1, io2, zeros, f,
                       Flat(ino.root))
    modifies ino
    ensures ino.Valid() && (fell == Behind <==> zeros != []) && |ino.pool| <= |old(ino.pool)|
    ensures SplitOutcome(r, fell, zeros + more, x, lblk, hi, u, mayZero, valid, io1, io2, f, Flat(ino.root))
    ensures r == NoSpace || more != [] ==> |old(ino.pool)| < old(ino.depth) + 2 && ino.pool == []
    ensures forall b :: ino.Held(b) == old(ino.Held(b))
    ensures forall p :: FreedData(ino.freed, p) == old(FreedData(ino.freed, p))
  {
    var y := Sub(ino.root, path.pos).exts[path.ext.value];
    RankAt(ino.root, path);
    assert ValidExtent(y);
    ghost var f1, k := Flat(ino.root), Rank(ino.root, path);
    r, more := SplitExtentAt(ino, path, lblk, Unwritten(y), Unwritten(y) && u, Unwritten(y) && mayZero,
                             if valid then TailData else NoData, io2, preIo, canExtend);
    fell := if more != [] then InFront else if zeros == [] then Nowhere else Behind;
    SecondCut(r, fell, zeros + more, more, x, y, lblk, hi, u, mayZero, valid, io1, io2, f, f1, k, Flat(ino.root));
  }

  /** What the second cut adds: y is the extent that covers lblk after the first. */
  lemma SecondCut(r: Status, fell: Fell, zeros: seq<Extent>, more: seq<Extent>, x: Extent, y: Extent, lblk: nat,
                  hi: nat, u: bool, mayZero: bool, valid: bool, io1: bool, io2: bool, f: seq<Extent>, f1: seq<Extent>,
                  k: nat, f2: seq<Extent>)
    requires ValidExtent(x) && x.block <= lblk < hi <= End(x) && (mayZero ==> Unwritten(x))
    requires Sorted(f1) && k < |f1| && f1[k] == y && Covers(y, lblk) && ValidExtent(y)
    requires fell == if more != [] then InFront else if zeros == [] then Nowhere else Behind
    requires fell == Behind ==>
               more == [] && SplitOutcome(Ok, fell, zeros, x, lblk, hi, u, mayZero, valid, io1, io2, f, f1)
    requires fell == Behind ==> !Unwritten(y)
    requires fell != Behind ==>
               && SameBlocks(f, f1) && zeros == more
               && Unwritten(y) == Unwritten(x) && y.block == x.block && y.pblk == x.pblk && End(y) == hi
    requires more == [] ==> r == Ok || (r == NoSpace && !(Unwritten(y) && mayZero))
    requires more != [] ==>
               && Unwritten(y) && mayZero && y.block < lblk &&
                    more == [ZeroPart(y, lblk, if valid then TailData else NoData)]
               && r == if io2 then Ok else NotZeroed
    requires r != Ok ==> f2 == f1
    requires r == Ok ==>
               Remarked(f1, f2, y.block, lblk, End(y), Unwritten(y) && more == [], Unwritten(y) && u && more == [])
    ensures SplitOutcome(r, fell, zeros, x, lblk, hi, u, mayZero, valid, io1, io2, f, f2)
  {
    match fell
    case Nowhere =>
      if r == Ok { SplitRestates(f, f1, k, lblk, f2, u && Unwritten(x)); }
    case Behind =>
      if r == Ok { SplitKeeps(f1, k, lblk, f2); }
      RestatedOn(f, f1, f2, x.block, End(x), false);
    case InFront =>
      assert y == Make(x.block, hi - x.block, x.pblk, true);
      if r == Ok { WholeRestates(f, f1, y.block, lblk, End(y), f2, false); }
  }

  /** Every block that turned from unwritten to written is one of the blocks up to hi, from lblk on, or was zeroed at
      its place. */
  ghost predicate NothingStale(f: seq<Extent>, f': seq<Extent>, lblk: nat, hi: nat, zeros: seq<Extent>) {
    forall b: nat :: TurnedWritten(f, f', b) && !(lblk <= b < hi) ==>
        At(zeros, b) == Some(Cell(At(f, b).value.pblk, false))
  }

  ghost predicate TurnedWritten(f: seq<Extent>, f': seq<Extent>, b: nat) {
    At(f, b).Some? && At(f, b).value.unwritten && At(f', b).Some? && !At(f', b).value.unwritten
  }

  /** A split never exposes what a block held before, except when the caller writes the wanted blocks itself, there is
      no space for the cut behind them, and the extent starts before them. */
  lemma StaleIff(r: Status, fell: Fell, zeros: seq<Extent>, f: seq<Extent>, k: nat, lblk: nat, hi: nat, u: bool,
                 mayZero: bool, valid: bool, io1: bool, io2: bool, f': seq<Extent>)
    requires Sorted(f) && k < |f| && ValidExtent(f[k]) && f[k].block <= lblk < hi <= End(f[k]) &&
               (mayZero ==> Unwritten(f[k]))
    requires SplitOutcome(r, fell, zeros, f[k], lblk, hi, u, mayZero, valid, io1, io2, f, f')
    ensures NothingStale(f, f', lblk, hi, zeros) <==> !(valid && fell == Behind && io1 && f[k].block < lblk)
  {
    var x := f[k];
    forall b: nat | TurnedWritten(f, f', b) && !(lblk <= b < hi)
      ensures Covers(x, b) && zeros != [] && At(f, b) == Some(CellOf(x, b))
    {
      assert At(f', b) != At(f, b);
      AtHit(f, k, b);
    }
    if zeros != [] { AtTail(zeros[0]); }
    if valid && fell == Behind && io1 && x.block < lblk {
      AtHit(f, k, x.block);
      assert TurnedWritten(f, f', x.block);
    }
  }

  // --------------------------------------------------- transfer to a neighbour

  /** The blocks turn written when an unwritten extent gives blocks to its written left
      neighbour, and the attempt is made at all. */
  ghost predicate TriesLeft(exts: seq<Extent>, p: nat, lblk: nat, len: nat)
    requires p < |exts|
  {
    lblk == exts[p].block && len < Len(exts[p]) && p > 0
  }

  ghost predicate GivesLeft(exts: seq<Extent>, p: nat, lblk: nat, len: nat)
    requires p < |exts|
  {
    && TriesLeft(exts, p, lblk, len)
    && var a, x := exts[p-1], exts[p];
       !Unwritten(a) && End(a) == x.block && a.pblk + Len(a) == x.pblk && Len(a) + len < INIT_MAX_LEN
  }

  /** The same for the right neighbour. */
  ghost predicate GivesRight(exts: seq<Extent>, p: nat, lblk: nat, len: nat)
    requires p < |exts|
  {
    && !TriesLeft(exts, p, lblk, len)
    && lblk + len == End(exts[p]) && len < Len(exts[p]) && p + 1 < |exts|
    && var x, c := exts[p], exts[p+1];
       !Unwritten(c) && lblk + len == c.block && x.pblk + Len(x) == c.pblk && Len(c) + len < INIT_MAX_LEN
  }

  /** Two touching extents with the border between them moved from hi to lo or from lo to hi. */
  ghost predicate BorderMoved(a: Extent, c: Extent, a': Extent, c': Extent, lo: nat, hi: nat) {
    && ValidExtent(a) && ValidExtent(c) && ValidExtent(a') && ValidExtent(c') && lo < hi
    && End(a) == c.block && a.pblk + Len(a) == c.pblk
    && a'.block == a.block && a'.pblk == a.pblk && End(a') == c'.block && a'.pblk + Len(a') == c'.pblk &&
         End(c') == End(c)
    && Unwritten(a) == Unwritten(a') && Unwritten(c) == Unwritten(c') && Unwritten(a) != Unwritten(c)
    && (if Unwritten(c) then End(a) == lo && End(a') == hi else End(a) == hi && End(a') == lo)
  }

  lemma BorderAt(a: Extent, c: Extent, a': Extent, c': Extent, lo: nat, hi: nat, b: nat)
    requires BorderMoved(a, c, a', c', lo, hi)
    ensures a.block <= lo && hi <= End(c)
    ensures At([a, c], b) ==
              if a.block <= b < End(c)
              then Some(Cell(a.pblk + (b - a.block), if b < End(a) then Unwritten(a) else Unwritten(c))) else None
    ensures At([a', c'], b) ==
              if a.block <= b < End(c)
              then Some(Cell(a.pblk + (b - a.block), if b < End(a') then Unwritten(a) else Unwritten(c))) else None
  {
    assert [a, c] == [a] + [c] && [a', c'] == [a'] + [c'];
    AtConcat([a], [c], b);
    AtConcat([a'], [c'], b);
    AtOne(a, b); AtOne(c, b); AtOne(a', b); AtOne(c', b);
  }

  lemma BorderSorted(a: Extent, c: Extent, a': Extent, c': Extent, lo: nat, hi: nat)
    requires BorderMoved(a, c, a', c', lo, hi)
    ensures Sorted([a', c'])
  {
  }

  lemma PairMoved(pre: seq<Extent>, a: Extent, c: Extent, a': Extent, c': Extent, post: seq<Extent>, lo: nat, hi: nat)
    requires Sorted(pre + [a, c] + post) && BorderMoved(a, c, a', c', lo, hi)
    ensures Sorted(pre + [a', c'] + post) && Restated(pre + [a, c] + post, pre + [a', c'] + post, lo, hi, false)
  {
    BorderSorted(a, c, a', c', lo, hi);
    SortedMiddle(pre, [a, c], [a', c'], post);
    forall b: nat
      ensures lo <= b < hi ==>
                && At(pre + [a, c] + post, b).Some?
                && At(pre + [a', c'] + post, b) == Some(Cell(At(pre + [a, c] + post, b).value.pblk, false))
      ensures !(lo <= b < hi) ==> At(pre + [a', c'] + post, b) == At(pre + [a, c] + post, b)
    {
      BorderAt(a, c, a', c', lo, hi, b);
      AtConcat3(pre, [a, c], post, b);
      AtConcat3(pre, [a', c'], post, b);
      if a.block <= b < End(c) { OnlyMiddle(pre, a, c, post, b); }
    }
    forall p ensures Owns(pre + [a', c'] + post, p) == Owns(pre + [a, c] + post, p) {
      PairOwns(pre, a, c, post, p);
      PairOwns(pre, a', c', post, p);
    }
  }

  lemma OnlyMiddle(pre: seq<Extent>, a: Extent, c: Extent, post: seq<Extent>, b: nat)
    requires Sorted(pre + [a, c] + post) && a.block <= b < End(c)
    ensures At(pre, b) == None
  {
    SortedParts(pre + [a, c], post);
    SortedParts(pre, [a, c]);
    forall i | 0 <= i < |pre| ensures !Covers(pre[i], b) { assert End(pre[i]) <= [a, c][0].block; }
    AtNone(pre, b);
  }

  lemma PairOwns(pre: seq<Extent>, a: Extent, c: Extent, post: seq<Extent>, p: nat)
    ensures Owns(pre + [a, c] + post, p) ==
              Owns(pre, p) + InRun(a.pblk, Len(a), p) + InRun(c.pblk, Len(c), p) + Owns(post, p)
  {
    OwnsConcat(pre + [a, c], post, p);
    OwnsConcat(pre, [a, c], p);
    assert [a, c] == [a] + [c];
    OwnsConcat([a], [c], p);
    OwnsOne(a, p);
    OwnsOne(c, p);
  }

  /** Rewrite entries i and i + 1 of the leaf at pos. */
  method MoveBorder(ino: Inode, pos: seq<nat>, i: nat, a: Extent, c: Extent, ghost lo: nat, ghost hi: nat)
    requires ino.Valid() && Reaches(ino.root, pos) && |pos| == ino.depth && Sub(ino.root, pos).Leaf? &&
               i + 1 < |Sub(ino.root, pos).exts|
    requires BorderMoved(Sub(ino.root, pos).exts[i], Sub(ino.root, pos).exts[i+1], a, c, lo, hi)
    modifies ino`root
    ensures ino.Valid() && Restated(old(Flat(ino.root)), Flat(ino.root), lo, hi, false)
    ensures |Flat(ino.root)| == |old(Flat(ino.root))|
    ensures forall b :: ino.Held(b) == old(ino.Held(b))
  {
    var exts := Sub(ino.root, pos).exts;
    ghost var t := ino.root;
    var leaf := Leaf(exts[i := a][i+1 := c]);
    LeafEdit(ino.g, t, ino.depth, pos, leaf);
    FitsSub(ino.g, t, ino.depth, true, pos);
    PutFits(ino.g, t, ino.depth, true, pos, leaf);
    LeafPairMoved(t, pos, i, exts, a, c, lo, hi);
    assert |Flat(t)| == |Before(t, pos)| + |exts| + |After(t, pos)| by { SubFlat(t, pos); }
    ino.root := Put(ino.root, pos, leaf);
  }

  lemma LeafPairMoved(t: Tree, pos: seq<nat>, i: nat, exts: seq<Extent>, a: Extent, c: Extent, lo: nat, hi: nat)
    requires Reaches(t, pos) && Sub(t, pos) == Leaf(exts) && i + 1 < |exts| && Sorted(Flat(t))
    requires BorderMoved(exts[i], exts[i+1], a, c, lo, hi)
    ensures var f' := Before(t, pos) + exts[i := a][i+1 := c] + After(t, pos);
            Sorted(f') && Restated(Flat(t), f', lo, hi, false)
  {
    SubFlat(t, pos);
    PairSlices(Before(t, pos), exts, After(t, pos), i, a, c);
    PairMoved(Before(t, pos) + exts[..i], exts[i], exts[i+1], a, c, exts[i+2..] + After(t, pos), lo, hi);
  }

  lemma PairSlices(bf: seq<Extent>, exts: seq<Extent>, af: seq<Extent>, i: nat, a: Extent, c: Extent)
    requires i + 1 < |exts|
    ensures bf + exts + af == (bf + exts[..i]) + [exts[i], exts[i+1]] + (exts[i+2..] + af)
    ensures bf + exts[i := a][i+1 := c] + af == (bf + exts[..i]) + [a, c] + (exts[i+2..] + af)
  {
    assert exts == exts[..i] + [exts[i], exts[i+1]] + exts[i+2..];
    assert exts[i := a][i+1 := c] == exts[..i] + [a, c] + exts[i+2..];
  }

  // ------------------------------------------------------------- zeroing plan

  /** The returned length counts only blocks that end up written exactly when the extent ends
      with the request, or its tail or its head is small enough to be zeroed. */
  predicate CountsWritten(x: Extent, lblk: nat, len: nat, maxZeroout: nat)
    requires Covers(x, lblk)
  {
    var rest := End(x) - lblk;
    rest == len || (maxZeroout > 0 && (rest <= maxZeroout || lblk - x.block + len < maxZeroout))
  }

  /** Block b of the extent x was zeroed: it is in the log with the physical block of x. */
  ghost predicate ZeroedIn(zeros: seq<Extent>, x: Extent, lo: nat, hi: nat, lblk: nat, len: nat)
    requires x.block <= lo
  {
    forall b: nat :: At(zeros, b) ==
      if lo <= b < hi && !(lblk <= b < lblk + len) then Some(Cell(x.pblk + (b - x.block), false)) else None
  }

  /** The tail of the extent is small enough to be zeroed. */
  predicate ZeroesTail(x: Extent, lblk: nat, len: nat, maxZeroout: nat)
    requires Covers(x, lblk)
  {
    var rest := End(x) - lblk;
    maxZeroout > 0 && len < rest <= maxZeroout
  }

  /** The head is, together with what is converted behind it. */
  predicate ZeroesHead(x: Extent, lblk: nat, len: nat, maxZeroout: nat)
    requires Covers(x, lblk)
  {
    var rest := End(x) - lblk;
    maxZeroout > 0 && len < rest && x.block < lblk &&
        lblk - x.block + (if rest <= maxZeroout then rest else len) < maxZeroout
  }

  /** The blocks to convert, with those that are zeroed before. */
  function PlanStart(x: Extent, lblk: nat, len: nat, maxZeroout: nat): nat
    requires Covers(x, lblk)
  {
    if ZeroesHead(x, lblk, len, maxZeroout) then x.block else lblk
  }

  function PlanEnd(x: Extent, lblk: nat, len: nat, maxZeroout: nat): nat
    requires Covers(x, lblk)
  {
    if ZeroesTail(x, lblk, len, maxZeroout) then End(x) else lblk + len
  }

  /** The number of blocks that the conversion says are there: up to the end of the extent, unless
      the head is within the limit. */
  function Answer(x: Extent, lblk: nat, len: nat, maxZeroout: nat): nat
    requires Covers(x, lblk)
  {
    var rest := End(x) - lblk;
    if maxZeroout > 0 && len < rest &&
        lblk - x.block + (if rest <= maxZeroout then rest else len) < maxZeroout then len else rest
  }

  /** The zeroing that a conversion needs succeeds. */
  predicate ZeroingWorks(x: Extent, lblk: nat, len: nat, maxZeroout: nat, io1: bool, io2: bool)
    requires Covers(x, lblk)
  {
    (ZeroesTail(x, lblk, len, maxZeroout) ==> io1) && (ZeroesHead(x, lblk, len, maxZeroout) ==> io2)
  }

  /** The cases 1 to 5: which blocks to convert, after zeroing the tail or the head of the
      extent if it is small. io1 and io2 say whether the zeroing succeeds. */
  method PlanZeroout(x: Extent, lblk: nat, len: nat, maxZeroout: nat, io1: bool, io2: bool)
    returns (ok: bool, lo: nat, size: nat, got: nat, zeros: seq<Extent>)
    requires ValidExtent(x) && Unwritten(x) && Covers(x, lblk) && 0 < len && lblk + len <= End(x)
    ensures x.block <= lo <= lblk && lblk + len <= lo + size <= End(x)
    ensures ZeroedIn(zeros, x, lo, lo + size, lblk, len)
    ensures ok <==> ZeroingWorks(x, lblk, len, maxZeroout, io1, io2)
    ensures maxZeroout == 0 ==> zeros == []
    ensures ZeroesTail(x, lblk, len, maxZeroout) && !io1 ==> |zeros| == 1
    ensures ok ==> lo == PlanStart(x, lblk, len, maxZeroout) && lo + size == PlanEnd(x, lblk, len, maxZeroout)
    ensures ok ==> len <= got && (lblk + got <= lo + size <==> CountsWritten(x, lblk, len, maxZeroout))
    ensures ok ==> got == Answer(x, lblk, len, maxZeroout)
  {
    got := End(x) - lblk;
    lo, size, zeros, ok := lblk, len, [], true;
    if maxZeroout > 0 && got > size {
      if got <= maxZeroout {
        // case 3 or 5
        zeros := [Extent(lblk + len, got - len, x.pblk + (lblk + len - x.block))];
        AtTail(zeros[0]);
        size := got;
        if !io1 {
          ok := false;
          return;
        }
      }
      if lo - x.block + size < maxZeroout {
        // case 2 or 5
        if lo != x.block {
          AtHead(Extent(x.block, lblk - x.block, x.pblk), zeros);
          zeros := [Extent(x.block, lblk - x.block, x.pblk)] + zeros;
          if !io2 {
            ok := false;
            lo, size := x.block, size + (lblk - x.block);
            return;
          }
        }
        size := size + (lo - x.block);
        lo := x.block;
        got := len;
      }
    }
  }

  lemma AtTail(e: Extent)
    ensures forall b: nat :: At([e], b) == if Covers(e, b) then Some(CellOf(e, b)) else None
  {
    forall b: nat ensures At([e], b) == if Covers(e, b) then Some(CellOf(e, b)) else None { AtOne(e, b); }
  }

  lemma AtHead(e: Extent, s: seq<Extent>)
    ensures forall b: nat :: At([e] + s, b) == if Covers(e, b) then Some(CellOf(e, b)) else At(s, b)
  {
    assert ([e] + s)[1..] == s;
  }

  // ------------------------------------------------------------------ convert

  datatype Outcome = Converted | Full | IoError

  /** Every block of the answer is written. */
  ghost predicate AllWritten(f: seq<Extent>, lblk: nat, n: nat) {
    forall b: nat :: lblk <= b < lblk + n ==> At(f, b).Some? && !At(f, b).value.unwritten
  }

  /** What a successful conversion does: a range around the request turns written, and every
      block of it outside the request was zeroed before, at its own physical place. */
  ghost predicate ConvertsTo(f: seq<Extent>, f': seq<Extent>, lo: nat, hi: nat, lblk: nat, len: nat,
                             zeros: seq<Extent>) {
    && lo <= lblk && lblk + len <= hi && Restated(f, f', lo, hi, false)
    && (forall b: nat :: lo <= b < hi ==> At(f, b).Some? && At(f, b).value.unwritten)
    && (forall b: nat :: lo <= b < hi && !(lblk <= b < lblk + len) ==>
            At(zeros, b) == Some(Cell(At(f, b).value.pblk, false)))
    && (forall b: nat :: At(zeros, b).Some? ==> lo <= b < hi && !(lblk <= b < lblk + len))
  }

  /** Zeroing in place of the cut behind the request leaves the blocks in front of it as they were, but marked written:
      when there are any and they were not zeroed because they are few. */
  ghost predicate Exposes(x: Extent, lblk: nat, len: nat, limit: nat, fell: Fell, io3: bool)
    requires Covers(x, lblk)
  {
    fell == Behind && io3 && x.block < lblk && !ZeroesHead(x, lblk, len, limit)
  }

  /** Some zeroing fails: one that is planned, or one that takes the place of a cut. */
  ghost predicate ZeroingFails(x: Extent, lblk: nat, len: nat, limit: nat, fell: Fell, io1: bool, io2: bool, io3: bool,
                               io4: bool)
    requires Covers(x, lblk)
  {
    !ZeroingWorks(x, lblk, len, limit, io1, io2) || (fell == Behind && !io3) || (fell == InFront && !io4)
  }

  /** ext4_ext_convert_to_initialized. eofBlock is the block behind the end of the file, maxZeroout the zeroing limit in
      blocks, 0 for an encrypted file; io1 to io4 say whether zeroing succeeds: as planned behind and in front of the
      request, and for lack of space behind and in front of it. */
  method ConvertToInitialized(ino: Inode, path: Path, lblk: nat, len: nat, eofBlock: nat, maxZeroout: nat,
                              io1: bool, io2: bool, io3: bool, io4: bool, preIo: bool, canExtend: bool)
    returns (r: Outcome, got: nat, zeros: seq<Extent>, ghost lo: nat, ghost hi: nat, ghost fell: Fell)
    requires ino.Valid() && PathTo(ino.root, ino.depth, path, lblk) && 0 < len
    requires var x := Sub(ino.root, path.pos).exts[path.ext.value]; Unwritten(x) && lblk + len <= End(x)
    modifies ino
    ensures ino.Valid()
    ensures var exts, p := old(Sub(ino.root, path.pos).exts), path.ext.value;
            var limit := ZeroLimit(exts[p], lblk, len, eofBlock, maxZeroout);
            && (NothingStale(old(Flat(ino.root)), Flat(ino.root), lblk, lblk + len, zeros) <==>
                !Exposes(exts[p], lblk, len, limit, fell, io3))
            && (r == Converted && !Exposes(exts[p], lblk, len, limit, fell, io3) ==>
                  ConvertsTo(old(Flat(ino.root)), Flat(ino.root), lo, hi, lblk, len, zeros))
    ensures r == Converted ==>
              var exts, p := old(Sub(ino.root, path.pos).exts), path.ext.value;
              var limit := ZeroLimit(exts[p], lblk, len, eofBlock, maxZeroout);
              if GivesLeft(exts, p, lblk, len) || GivesRight(exts, p, lblk, len) then lo == lblk && hi == lblk + len
              else
                && lo == (if fell == Nowhere then PlanStart(exts[p], lblk, len, limit) else exts[p].block)
                && hi == (if fell == Behind then End(exts[p]) else PlanEnd(exts[p], lblk, len, limit))
    ensures zeros != [] ==>
              var x := old(Sub(ino.root, path.pos).exts[path.ext.value]);
              x.block + Len(x) <= eofBlock || x.block + Len(x) <= lblk + len
    ensures forall b: nat :: TurnedWritten(old(Flat(ino.root)), Flat(ino.root), b) ==> b < eofBlock || b < lblk + len
    ensures r == Converted ==>
              var exts, p := old(Sub(ino.root, path.pos).exts), path.ext.value;
              var end := exts[p].block + Len(exts[p]);
              var given := GivesLeft(exts, p, lblk, len) || GivesRight(exts, p, lblk, len);
              !given && end <= eofBlock && len < end - lblk <= maxZeroout ==> hi == end
    ensures r == Converted ==>
              var exts, p := old(Sub(ino.root, path.pos).exts), path.ext.value;
              got == if GivesLeft(exts, p, lblk, len) || GivesRight(exts, p, lblk, len) then len
                     else Answer(exts[p], lblk, len, ZeroLimit(exts[p], lblk, len, eofBlock, maxZeroout))
    ensures r == Converted ==>
              var exts, p := old(Sub(ino.root, path.pos).exts), path.ext.value;
              AllWritten(Flat(ino.root), lblk, got) <==>
              || GivesLeft(exts, p, lblk, len) || GivesRight(exts, p, lblk, len) || fell == Behind
              || CountsWritten(exts[p], lblk, len, ZeroLimit(exts[p], lblk, len, eofBlock, maxZeroout))
    ensures r != Converted && fell != Behind ==> SameBlocks(old(Flat(ino.root)), Flat(ino.root))
    ensures fell == Behind ==>
              var x := old(Sub(ino.root, path.pos).exts[path.ext.value]);
              if io3 then Restated(old(Flat(ino.root)), Flat(ino.root), x.block, End(x), false)
              else SameBlocks(old(Flat(ino.root)), Flat(ino.root))
    ensures fell != Nowhere ==> MayZero(old(Sub(ino.root, path.pos).exts[path.ext.value]), lblk, len, eofBlock)
    ensures r == Full || fell != Nowhere ==> |old(ino.pool)| < 2 * old(ino.depth) + 5 && ino.pool == []
    ensures r == Full && fell != Behind ==>
              !MayZero(old(Sub(ino.root, path.pos).exts[path.ext.value]), lblk, len, eofBlock)
    ensures var exts, p := old(Sub(ino.root, path.pos).exts), path.ext.value;
            r == IoError <==>
            && !GivesLeft(exts, p, lblk, len) && !GivesRight(exts, p, lblk, len)
            && ZeroingFails(exts[p], lblk, len, ZeroLimit(exts[p], lblk, len, eofBlock, maxZeroout), fell, io1, io2,
                            io3, io4)
    ensures forall b :: ino.Held(b) == old(ino.Held(b))
    ensures forall p :: FreedData(ino.freed, p) == old(FreedData(ino.freed, p))
  {
    var exts, p := Sub(ino.root, path.pos).exts, path.ext.value;
    ghost var f := Flat(ino.root);
    RankAt(ino.root, path);
    assert ValidExtent(exts[p]);
    UnwrittenBlocks(f, Rank(ino.root, path), lblk, lblk + len);
    var moved := Transfer(ino, path, lblk, len);
    if moved {
      r, got, zeros, lo, hi, fell := Converted, len, [], lblk, lblk + len, Nowhere;
      AnswerWritten(f, Flat(ino.root), lo, hi, lblk, got, hi);
      RestatedClean(f, Flat(ino.root), lblk, lblk + len);
    } else {
      var eof := eofBlock;
      if eof < lblk + len {
        eof := lblk + len;
      }
      var mayZero := exts[p].block + Len(exts[p]) <= eof;
      var limit := 0;
      if mayZero {
        limit := maxZeroout;
      }
      r, got, zeros, lo, hi, fell :=
          ConvertSplit(ino, path, lblk, len, limit, mayZero, io1, io2, io3, io4, preIo, canExtend);
    }
  }

  lemma RestatedClean(f: seq<Extent>, f': seq<Extent>, lo: nat, hi: nat)
    requires Restated(f, f', lo, hi, false)
    ensures NothingStale(f, f', lo, hi, [])
  {
  }

  lemma UnwrittenBlocks(f: seq<Extent>, k: nat, lo: nat, hi: nat)
    requires Sorted(f) && k < |f| && f[k].block <= lo && hi <= End(f[k])
    ensures forall b: nat :: lo <= b < hi ==> At(f, b) == Some(Cell(f[k].pblk + (b - f[k].block), Unwritten(f[k])))
  {
    forall b: nat | lo <= b < hi
      ensures At(f, b) == Some(Cell(f[k].pblk + (b - f[k].block), Unwritten(f[k])))
    {
      AtHit(f, k, b);
    }
  }

  /** The answer counts written blocks only, iff it stays inside the converted range. */
  lemma AnswerWritten(f: seq<Extent>, f': seq<Extent>, lo: nat, hi: nat, lblk: nat, got: nat, end: nat)
    requires Restated(f, f', lo, hi, false) && lo <= lblk < hi <= end && lblk + got <= end
    requires forall b: nat :: hi <= b < end ==> At(f, b).Some? && At(f, b).value.unwritten
    ensures AllWritten(f', lblk, got) <==> lblk + got <= hi
  {
    if lblk + got > hi { assert At(f', hi) == At(f, hi); }
  }

  /** Both fast paths: the neighbour takes the blocks if it can. */
  method Transfer(ino: Inode, path: Path, lblk: nat, len: nat) returns (moved: bool)
    requires ino.Valid() && PathTo(ino.root, ino.depth, path, lblk) && 0 < len
    requires var x := Sub(ino.root, path.pos).exts[path.ext.value]; Unwritten(x) && lblk + len <= End(x)
    modifies ino`root
    ensures var exts, p := old(Sub(ino.root, path.pos).exts), path.ext.value;
            moved <==> GivesLeft(exts, p, lblk, len) || GivesRight(exts, p, lblk, len)
    ensures moved ==> ino.Valid() && Restated(old(Flat(ino.root)), Flat(ino.root), lblk, lblk + len, false)
    ensures moved ==> |Flat(ino.root)| == |old(Flat(ino.root))|
    ensures !moved ==> ino.root == old(ino.root)
    ensures forall b :: ino.Held(b) == old(ino.Held(b))
  {
    var pos, p := path.pos, path.ext.value;
    var exts := Sub(ino.root, pos).exts;
    var x := exts[p];
    SubSorted(ino.root, pos);
    assert ValidExtent(x);
    moved := false;
    if lblk == x.block && len < Len(x) && p > 0 {
      var a := exts[p-1];
      assert ValidExtent(a);
      if !Unwritten(a) && a.block + Len(a) == x.block && a.pblk + Len(a) == x.pblk && Len(a) < INIT_MAX_LEN - len {
        LeftBorder(a, x, len);
        MoveBorder(ino, pos, p - 1, a.(eeLen := Len(a) + len),
                   MarkUnwritten(Extent(x.block + len, Len(x) - len, x.pblk + len)), lblk, lblk + len);
        moved := true;
      }
    } else if lblk + len == x.block + Len(x) && len < Len(x) && p + 1 < |exts| {
      var c := exts[p+1];
      assert ValidExtent(c);
      if !Unwritten(c) && lblk + len == c.block && x.pblk + Len(x) == c.pblk && Len(c) < INIT_MAX_LEN - len {
        RightBorder(x, c, len);
        MoveBorder(ino, pos, p, MarkUnwritten(x.(eeLen := Len(x) - len)),
                   Extent(c.block - len, Len(c) + len, c.pblk - len), lblk, lblk + len);
        moved := true;
      }
    }
  }

  lemma LeftBorder(a: Extent, x: Extent, len: nat)
    requires ValidExtent(a) && ValidExtent(x) && !Unwritten(a) && Unwritten(x) && 0 < len < Len(x)
    requires End(a) == x.block && a.pblk + Len(a) == x.pblk && Len(a) + len < INIT_MAX_LEN
    ensures BorderMoved(a, x, a.(eeLen := Len(a) + len),
                        MarkUnwritten(Extent(x.block + len, Len(x) - len, x.pblk + len)), x.block, x.block + len)
  {
  }

  lemma RightBorder(x: Extent, c: Extent, len: nat)
    requires ValidExtent(x) && ValidExtent(c) && Unwritten(x) && !Unwritten(c) && 0 < len < Len(x)
    requires End(x) == c.block && x.pblk + Len(x) == c.pblk && Len(c) + len < INIT_MAX_LEN
    ensures len <= c.block && len <= c.pblk
    ensures BorderMoved(x, c, MarkUnwritten(x.(eeLen := Len(x) - len)),
                        Extent(c.block - len, Len(c) + len, c.pblk - len), End(x) - len, End(x))
  {
  }

  /** The general case: plan the zeroing, then split and mark. */
  method ConvertSplit(ino: Inode, path: Path, lblk: nat, len: nat, limit: nat, mayZero: bool, io1: bool, io2: bool,
                      io3: bool, io4: bool, preIo: bool, canExtend: bool)
    returns (r: Outcome, got: nat, zeros: seq<Extent>, ghost lo: nat, ghost hi: nat, ghost fell: Fell)
    requires ino.Valid() && PathTo(ino.root, ino.depth, path, lblk) && 0 < len
    requires var x := Sub(ino.root, path.pos).exts[path.ext.value]; Unwritten(x) && lblk + len <= End(x)
    requires limit > 0 ==> mayZero
    modifies ino
    ensures ino.Valid()
    ensures ConvertOutcome(r, fell, zeros, got, lo, hi, old(Sub(ino.root, path.pos).exts[path.ext.value]), lblk, len,
                           limit, mayZero, io3, old(Flat(ino.root)), Flat(ino.root))
    ensures r == Full || fell != Nowhere ==> |old(ino.pool)| < 2 * old(ino.depth) + 5 && ino.pool == []
    ensures r == IoError <==>
            ZeroingFails(old(Sub(ino.root, path.pos).exts[path.ext.value]), lblk, len, limit, fell, io1, io2, io3, io4)
    ensures forall b :: ino.Held(b) == old(ino.Held(b))
    ensures forall p :: FreedData(ino.freed, p) == old(FreedData(ino.freed, p))
  {
    var x := Sub(ino.root, path.pos).exts[path.ext.value];
    RankAt(ino.root, path);
    ghost var f, k := Flat(ino.root), Rank(ino.root, path);
    assert ValidExtent(x);
    var ok, from, size;
    ok, from, size, got, zeros := PlanZeroout(x, lblk, len, limit, io1, io2);
    lo, hi, fell := from, from + size, Nowhere;
    if !ok {
      r := IoError;
      return;
    }
    var s, n, more;
    s, n, more, fell := SplitExtent(ino, path, from, size, false, mayZero, true, io3, io4, preIo, canExtend);
    lo, hi := if fell == Nowhere then from else x.block, if fell == Behind then End(x) else from + size;
    r := if s == Ok then Converted else if s == NoSpace then Full else IoError;
    SplitConverts(s, fell, zeros, more, f, k, lblk, len, limit, from, from + size, mayZero, io3, io4, got,
                  Flat(ino.root));
    zeros := more + zeros;
  }

  /** What a conversion by splitting does, apart from the blocks it takes. */
  ghost predicate ConvertOutcome(r: Outcome, fell: Fell, zeros: seq<Extent>, got: nat, lo: nat, hi: nat, x: Extent,
                                 lblk: nat, len: nat, limit: nat, mayZero: bool, io3: bool, f: seq<Extent>,
                                 f': seq<Extent>)
    requires Covers(x, lblk)
  {
    && (NothingStale(f, f', lblk, lblk + len, zeros) <==> !Exposes(x, lblk, len, limit, fell, io3))
    && (r == Converted && !Exposes(x, lblk, len, limit, fell, io3) ==> ConvertsTo(f, f', lo, hi, lblk, len, zeros))
    && (r == Converted ==>
          && lo == (if fell == Nowhere then PlanStart(x, lblk, len, limit) else x.block)
          && hi == (if fell == Behind then End(x) else PlanEnd(x, lblk, len, limit))
          && got == Answer(x, lblk, len, limit)
          && (AllWritten(f', lblk, got) <==> fell == Behind || CountsWritten(x, lblk, len, limit)))
    && (r != Converted && fell != Behind ==> SameBlocks(f, f'))
    && (fell == Behind ==> if io3 then Restated(f, f', x.block, End(x), false) else SameBlocks(f, f'))
    && (fell != Nowhere ==> mayZero) && (r == Full && fell != Behind ==> !mayZero)
    && (zeros != [] ==> mayZero)
    && (forall b: nat :: TurnedWritten(f, f', b) ==> lblk <= b < lblk + len || (mayZero && b < End(x)))
  }

  lemma SplitConverts(s: Status, fell: Fell, plan: seq<Extent>, more: seq<Extent>, f: seq<Extent>, k: nat, lblk: nat,
                      len: nat, limit: nat, from: nat, to: nat, mayZero: bool, io3: bool, io4: bool, got: nat,
                      f': seq<Extent>)
    requires Sorted(f) && k < |f| && ValidExtent(f[k]) && Unwritten(f[k]) && Covers(f[k], lblk) && 0 < len
    requires f[k].block <= from <= lblk && lblk + len <= to <= End(f[k])
    requires ZeroedIn(plan, f[k], from, to, lblk, len)
    requires from == PlanStart(f[k], lblk, len, limit) && to == PlanEnd(f[k], lblk, len, limit)
    requires len <= got && lblk + got <= End(f[k]) && (lblk + got <= to <==> CountsWritten(f[k], lblk, len, limit))
    requires got == Answer(f[k], lblk, len, limit)
    requires limit > 0 ==> mayZero
    requires limit == 0 ==> plan == []
    requires SplitOutcome(s, fell, more, f[k], from, to, false, mayZero, true, io3, io4, f, f')
    ensures ConvertOutcome(if s == Ok then Converted else if s == NoSpace then Full else IoError, fell, more + plan,
                           got, if fell == Nowhere then from else f[k].block, if fell == Behind then End(f[k]) else to,
                           f[k], lblk, len, limit, mayZero, io3, f, f')
  {
    var x := f[k];
    var lo, hi := if fell == Nowhere then from else x.block, if fell == Behind then End(x) else to;
    UnwrittenBlocks(f, k, x.block, End(x));
    assert NothingStale(f, f', lblk, lblk + len, more + plan) <==> !Exposes(x, lblk, len, limit, fell, io3) by {
      StaleIff(s, fell, more, f, k, from, to, false, mayZero, true, io3, io4, f');
      StalePlanned(fell, more, plan, x, f, k, f', lblk, len, from, to);
    }
    if s == Ok {
      if !Exposes(x, lblk, len, limit, fell, io3) {
        ZeroedAll(fell, more, plan, x, f, f', lblk, len, from, to, lo, hi);
      }
      AnswerWritten(f, f', lo, hi, lblk, got, End(x));
    }
    forall b: nat | TurnedWritten(f, f', b) ensures lblk <= b < lblk + len || (mayZero && b < End(x)) {
      assert At(f', b) != At(f, b);
    }
  }

  /** Planned zeroing and zeroing for lack of space together. */
  lemma MoreZeros(fell: Fell, more: seq<Extent>, plan: seq<Extent>, x: Extent, lblk: nat, len: nat, from: nat, to: nat,
                  b: nat)
    requires ValidExtent(x) && Unwritten(x) && x.block <= from <= lblk && lblk + len <= to <= End(x) && 0 < len
    requires ZeroedIn(plan, x, from, to, lblk, len)
    requires fell == Nowhere ==> more == []
    requires fell == Behind ==> to < End(x) && more == [ZeroBehind(x, to, true)]
    requires fell == InFront ==> x.block < from && more == [ZeroInFront(x, from, to, true)]
    ensures At(more + plan, b) ==
            if (from <= b < to && !(lblk <= b < lblk + len)) || (fell == Behind && to <= b < End(x)) ||
                (fell == InFront && x.block <= b < from)
            then Some(Cell(x.pblk + (b - x.block), false)) else None
  {
    if fell == Nowhere {
      assert more + plan == plan;
    } else {
      AtHead(more[0], plan);
    }
  }

  lemma StalePlanned(fell: Fell, more: seq<Extent>, plan: seq<Extent>, x: Extent, f: seq<Extent>, k: nat,
                     f': seq<Extent>, lblk: nat, len: nat, from: nat, to: nat)
    requires Sorted(f) && k < |f| && f[k] == x && ValidExtent(x) && Unwritten(x) && 0 < len
    requires x.block <= from <= lblk && lblk + len <= to <= End(x) && ZeroedIn(plan, x, from, to, lblk, len)
    requires fell == Nowhere ==> more == []
    requires fell == Behind ==> to < End(x) && more == [ZeroBehind(x, to, true)]
    requires fell == InFront ==> x.block < from && more == [ZeroInFront(x, from, to, true)]
    ensures NothingStale(f, f', lblk, lblk + len, more + plan) <==> NothingStale(f, f', from, to, more)
  {
    UnwrittenBlocks(f, k, x.block, End(x));
    if more != [] { AtTail(more[0]); }
    forall b: nat ensures !(from <= b < to) ==> At(more + plan, b) == At(more, b) {
      MoreZeros(fell, more, plan, x, lblk, len, from, to, b);
    }
    forall b: nat | from <= b < to && !(lblk <= b < lblk + len)
      ensures At(more + plan, b) == Some(Cell(At(f, b).value.pblk, false))
    {
      MoreZeros(fell, more, plan, x, lblk, len, from, to, b);
    }
  }

  lemma ZeroedAll(fell: Fell, more: seq<Extent>, plan: seq<Extent>, x: Extent, f: seq<Extent>, f': seq<Extent>,
                  lblk: nat, len: nat, from: nat, to: nat, lo: nat, hi: nat)
    requires ValidExtent(x) && Unwritten(x) && x.block <= from <= lblk && lblk + len <= to <= End(x) && 0 < len
    requires ZeroedIn(plan, x, from, to, lblk, len)
    requires fell == Nowhere ==> more == []
    requires fell == Behind ==> to < End(x) && more == [ZeroBehind(x, to, true)] && x.block == from
    requires fell == InFront ==> x.block < from && more == [ZeroInFront(x, from, to, true)]
    requires lo == (if fell == Nowhere then from else x.block) && hi == if fell == Behind then End(x) else to
    requires Restated(f, f', lo, hi, false)
    requires forall b: nat :: x.block <= b < End(x) ==> At(f, b) == Some(Cell(x.pblk + (b - x.block), true))
    ensures ConvertsTo(f, f', lo, hi, lblk, len, more + plan)
  {
    forall b: nat
      ensures lo <= b < hi && !(lblk <= b < lblk + len) ==> At(more + plan, b) == Some(Cell(At(f, b).value.pblk, false))
      ensures At(more + plan, b).Some? ==> lo <= b < hi && !(lblk <= b < lblk + len)
    {
      MoreZeros(fell, more, plan, x, lblk, len, from, to, b);
    }
  }

  /** Zeroing is allowed only if the extent lies inside the file or the request. */
  ghost predicate MayZero(x: Extent, lblk: nat, len: nat, eofBlock: nat) {
    End(x) <= if eofBlock < lblk + len then lblk + len else eofBlock
  }

  ghost function ZeroLimit(x: Extent, lblk: nat, len: nat, eofBlock: nat, maxZeroout: nat): nat {
    if MayZero(x, lblk, len, eofBlock) then maxZeroout else 0
  }
}
