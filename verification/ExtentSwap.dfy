/**
  Exchanging the blocks of two files (ext4/extents.c): ext4_swap_extents.
 */
module ExtentSwap {
  import opened Wrappers
  import opened Blocks
  import opened Extents
  import opened ExtentTree
  import opened ExtentSearch
  import opened ExtentNeighbours
  import opened ExtentMerge
  import opened ExtentInsert
  import opened ExtentModify

  // ------------------------------------------------------ what was exchanged

  /** What a block maps to after an exchange: the other file's physical block, with the
      given state or else with its own. */
  function Exchanged(mine: Option<Cell>, other: Option<Cell>, mark: Option<bool>): Option<Cell> {
    if mine.Some? && other.Some?
    then Some(Cell(other.value.pblk, if mark.Some? then mark.value else mine.value.unwritten))
    else None
  }

  /** What block b of a file must map to when the offsets marked in sw have been exchanged. */
  ghost function Wanted(mine: seq<Extent>, other: seq<Extent>, at: nat, from: nat, sw: seq<bool>, mark: Option<bool>,
                        b: nat): Option<Cell> {
    if at <= b < at + |sw| && sw[b - at] then Exchanged(At(mine, b), At(other, from + (b - at)), mark) else At(mine, b)
  }

  ghost predicate SwappedIn(mine: seq<Extent>, other: seq<Extent>, now: seq<Extent>, at: nat, from: nat, sw: seq<bool>,
                            mark: Option<bool>) {
    forall b: nat :: At(now, b) == Wanted(mine, other, at, from, sw, mark, b)
  }

  /** Only offsets that both files map are exchanged. */
  ghost predicate BothMapped(f1: seq<Extent>, f2: seq<Extent>, lblk1: nat, lblk2: nat, sw: seq<bool>) {
    forall i :: 0 <= i < |sw| && sw[i] ==> At(f1, lblk1 + i).Some? && At(f2, lblk2 + i).Some?
  }

  function Trues(sw: seq<bool>): nat {
    if sw == [] then 0 else Trues(sw[..|sw|-1]) + if sw[|sw|-1] then 1 else 0
  }

  function Run(v: bool, n: nat): (r: seq<bool>)
    ensures |r| == n && forall i :: 0 <= i < n ==> r[i] == v
  {
    if n == 0 then [] else Run(v, n - 1) + [v]
  }

  lemma {:induction false} TruesRun(sw: seq<bool>, v: bool, n: nat)
    ensures Trues(sw + Run(v, n)) == Trues(sw) + if v then n else 0
  {
    if n == 0 {
      assert sw + Run(v, n) == sw;
    } else {
      var r := sw + Run(v, n);
      assert r[..|r|-1] == sw + Run(v, n - 1);
      TruesRun(sw, v, n - 1);
    }
  }

  /** The whole state of the exchange: the first |sw| offsets have been dealt with. */
  ghost predicate Swapping(f1: seq<Extent>, f2: seq<Extent>, g1: seq<Extent>, g2: seq<Extent>, lblk1: nat, lblk2: nat,
                           sw: seq<bool>, unwritten: bool) {
    && SwappedIn(f1, f2, g1, lblk1, lblk2, sw, None)
    && SwappedIn(f2, f1, g2, lblk2, lblk1, sw, Some(unwritten))
    && BothMapped(f1, f2, lblk1, lblk2, sw)
    && forall p :: Owns(g1, p) + Owns(g2, p) == Owns(f1, p) + Owns(f2, p)
  }

  lemma SwapStart(f1: seq<Extent>, f2: seq<Extent>, lblk1: nat, lblk2: nat, unwritten: bool)
    ensures Swapping(f1, f2, f1, f2, lblk1, lblk2, [], unwritten)
  {
  }

  /** Skipping len offsets. */
  lemma SwapSkip(f1: seq<Extent>, f2: seq<Extent>, g1: seq<Extent>, g2: seq<Extent>, lblk1: nat, lblk2: nat,
                 sw: seq<bool>, len: nat, unwritten: bool)
    requires Swapping(f1, f2, g1, g2, lblk1, lblk2, sw, unwritten)
    ensures Swapping(f1, f2, g1, g2, lblk1, lblk2, sw + Run(false, len), unwritten)
  {
    var sw' := sw + Run(false, len);
    SkipOne(f1, f2, g1, lblk1, lblk2, sw, sw', None);
    SkipOne(f2, f1, g2, lblk2, lblk1, sw, sw', Some(unwritten));
    forall i | 0 <= i < |sw'| && sw'[i] ensures At(f1, lblk1 + i).Some? && At(f2, lblk2 + i).Some? { assert sw[i]; }
  }

  lemma SkipOne(mine: seq<Extent>, other: seq<Extent>, now: seq<Extent>, at: nat, from: nat,
                sw: seq<bool>, sw': seq<bool>, mark: Option<bool>)
    requires SwappedIn(mine, other, now, at, from, sw, mark) && |sw| <= |sw'|
    requires forall i :: 0 <= i < |sw'| ==> sw'[i] == (i < |sw| && sw[i])
    ensures SwappedIn(mine, other, now, at, from, sw', mark)
  {
    forall b: nat ensures At(now, b) == Wanted(mine, other, at, from, sw', mark, b) {
      assert At(now, b) == Wanted(mine, other, at, from, sw, mark, b);
    }
  }

  /** Only the way the extents are cut has changed. */
  lemma SwapRecut(f1: seq<Extent>, f2: seq<Extent>, g1: seq<Extent>, g2: seq<Extent>, h1: seq<Extent>, h2: seq<Extent>,
                  lblk1: nat, lblk2: nat, sw: seq<bool>, unwritten: bool)
    requires Swapping(f1, f2, g1, g2, lblk1, lblk2, sw, unwritten)
    requires SameMap(g1, h1) && SameMap(g2, h2) && forall p :: Owns(h1, p) == Owns(g1, p) && Owns(h2, p) == Owns(g2, p)
    ensures Swapping(f1, f2, h1, h2, lblk1, lblk2, sw, unwritten)
  {
    RecutOne(f1, f2, g1, h1, lblk1, lblk2, sw, None);
    RecutOne(f2, f1, g2, h2, lblk2, lblk1, sw, Some(unwritten));
    forall p ensures Owns(h1, p) + Owns(h2, p) == Owns(f1, p) + Owns(f2, p) { assert Owns(h1, p) == Owns(g1, p); }
  }

  lemma RecutOne(mine: seq<Extent>, other: seq<Extent>, now: seq<Extent>, now': seq<Extent>, at: nat, from: nat,
                 sw: seq<bool>, mark: Option<bool>)
    requires SwappedIn(mine, other, now, at, from, sw, mark) && SameMap(now, now')
    ensures SwappedIn(mine, other, now', at, from, sw, mark)
  {
    forall b: nat
      ensures At(now', b) == Wanted(mine, other, at, from, sw, mark, b)
    {
      assert At(now, b) == At(now', b);
    }
  }

  // ------------------------------------------------------- one exchange step

  /** now' is now with the len blocks from at on replaced by those of the other file from from on. */
  ghost predicate Stepped(now: seq<Extent>, other: seq<Extent>, now': seq<Extent>, at: nat, from: nat, len: nat,
                          mark: Option<bool>) {
    && (forall b: nat :: At(now', b) ==
          if at <= b < at + len then Exchanged(At(now, b), At(other, from + (b - at)), mark) else At(now, b))
    && Mapped(now, at, len) && Mapped(other, from, len)
  }

  ghost predicate Mapped(f: seq<Extent>, at: nat, len: nat) {
    forall b: nat :: at <= b < at + len ==> At(f, b).Some?
  }

  lemma StepOne(mine: seq<Extent>, other: seq<Extent>, now: seq<Extent>, otherNow: seq<Extent>, now': seq<Extent>,
                at: nat, from: nat, at': nat, from': nat, sw: seq<bool>, len: nat, mark: Option<bool>,
                mark': Option<bool>)
    requires SwappedIn(mine, other, now, at, from, sw, mark) && SwappedIn(other, mine, otherNow, from, at, sw, mark')
    requires at' == at + |sw| && from' == from + |sw| && Stepped(now, otherNow, now', at', from', len, mark)
    ensures SwappedIn(mine, other, now', at, from, sw + Run(true, len), mark)
  {
    var sw' := sw + Run(true, len);
    forall b: nat ensures At(now', b) == Wanted(mine, other, at, from, sw', mark, b) {
      assert At(now, b) == Wanted(mine, other, at, from, sw, mark, b);
      if at' <= b < at' + len {
        var c := from' + (b - at');
        assert At(otherNow, c) == Wanted(other, mine, from, at, sw, mark', c);
      }
    }
  }

  lemma StepMapped(f1: seq<Extent>, f2: seq<Extent>, g1: seq<Extent>, g2: seq<Extent>, lblk1: nat, lblk2: nat,
                   sw: seq<bool>, len: nat, m1: Option<bool>, m2: Option<bool>)
    requires SwappedIn(f1, f2, g1, lblk1, lblk2, sw, m1) && SwappedIn(f2, f1, g2, lblk2, lblk1, sw, m2)
    requires BothMapped(f1, f2, lblk1, lblk2, sw)
    requires Mapped(g1, lblk1 + |sw|, len) && Mapped(g2, lblk2 + |sw|, len)
    ensures BothMapped(f1, f2, lblk1, lblk2, sw + Run(true, len))
  {
    var sw' := sw + Run(true, len);
    forall i | 0 <= i < |sw'| && sw'[i] ensures At(f1, lblk1 + i).Some? && At(f2, lblk2 + i).Some? {
      if i < |sw| {
        assert sw[i];
      } else {
        assert At(g1, lblk1 + i) == Wanted(f1, f2, lblk1, lblk2, sw, m1, lblk1 + i);
        assert At(g2, lblk2 + i) == Wanted(f2, f1, lblk2, lblk1, sw, m2, lblk2 + i);
      }
    }
  }

  lemma SwapStep(f1: seq<Extent>, f2: seq<Extent>, g1: seq<Extent>, g2: seq<Extent>, h1: seq<Extent>, h2: seq<Extent>,
                 lblk1: nat, lblk2: nat, at1: nat, at2: nat, sw: seq<bool>, len: nat, unwritten: bool)
    requires Swapping(f1, f2, g1, g2, lblk1, lblk2, sw, unwritten)
    requires at1 == lblk1 + |sw| && at2 == lblk2 + |sw|
    requires Stepped(g1, g2, h1, at1, at2, len, None) && Stepped(g2, g1, h2, at2, at1, len, Some(unwritten))
    requires forall p :: Owns(h1, p) + Owns(h2, p) == Owns(g1, p) + Owns(g2, p)
    ensures Swapping(f1, f2, h1, h2, lblk1, lblk2, sw + Run(true, len), unwritten)
  {
    var sw' := sw + Run(true, len);
    assert SwappedIn(f1, f2, h1, lblk1, lblk2, sw', None) by {
      StepOne(f1, f2, g1, g2, h1, lblk1, lblk2, at1, at2, sw, len, None, Some(unwritten));
    }
    assert SwappedIn(f2, f1, h2, lblk2, lblk1, sw', Some(unwritten)) by {
      StepOne(f2, f1, g2, g1, h2, lblk2, lblk1, at2, at1, sw, len, Some(unwritten), None);
    }
    assert BothMapped(f1, f2, lblk1, lblk2, sw') by {
      StepMapped(f1, f2, g1, g2, lblk1, lblk2, sw, len, None, Some(unwritten));
    }
    SumTrans(f1, f2, g1, g2, h1, h2);
  }

  lemma SumTrans(f1: seq<Extent>, f2: seq<Extent>, g1: seq<Extent>, g2: seq<Extent>, h1: seq<Extent>, h2: seq<Extent>)
    requires forall p :: Owns(g1, p) + Owns(g2, p) == Owns(f1, p) + Owns(f2, p)
    requires forall p :: Owns(h1, p) + Owns(h2, p) == Owns(g1, p) + Owns(g2, p)
    ensures forall p :: Owns(h1, p) + Owns(h2, p) == Owns(f1, p) + Owns(f2, p)
  {
    forall p ensures Owns(h1, p) + Owns(h2, p) == Owns(f1, p) + Owns(f2, p) {
      assert Owns(g1, p) + Owns(g2, p) == Owns(f1, p) + Owns(f2, p);
    }
  }

  // ------------------------------------------------------------- boundaries

  /** x is extent k of f and the closest one for block b. */
  ghost predicate Spotted(f: seq<Extent>, k: nat, x: Extent, b: nat) {
    && k < |f| && f[k] == x && ValidExtent(x)
    && (forall j :: k < j < |f| ==> b < f[j].block) && (b < x.block ==> k == 0)
  }

  method FindAt(ino: Inode, b: nat) returns (path: Path)
    requires ino.Valid()
    ensures PathFor(ino.root, path, b) && |path.pos| == ino.depth
    ensures path.ext.Some? ==>
              Spotted(Flat(ino.root), Rank(ino.root, path), Sub(ino.root, path.pos).exts[path.ext.value], b)
  {
    FitsSearchable(ino.g, ino.root, ino.depth, true);
    path := FindExtent(ino.root, ino.depth, b);
    if path.ext.Some? {
      RankBracket(ino.g, ino.root, ino.depth, path, b);
    }
  }

  /** Some extent starts at b, and one of the given length does. */
  ghost predicate Aligned(f: seq<Extent>, b: nat) {
    exists i :: 0 <= i < |f| && f[i].block == b
  }

  lemma AlignedStart(f: seq<Extent>, b: nat)
    ensures b in Starts(f) <==> Aligned(f, b)
  {
    if Aligned(f, b) {
      var i :| 0 <= i < |f| && f[i].block == b;
      assert f[i] in f;
    }
  }

  ghost predicate Fitted(f: seq<Extent>, b: nat, len: nat) {
    exists i :: 0 <= i < |f| && f[i].block == b && Len(f[i]) == len
  }

  lemma SameStart(f: seq<Extent>, i: nat, j: nat, b: nat)
    requires Sorted(f) && i < |f| && j < |f| && f[i].block == b && Covers(f[j], b)
    ensures i == j
  {
    assert ValidExtent(f[i]) && ValidExtent(f[j]);
  }

  lemma AlignedHere(f: seq<Extent>, k: nat, b: nat, len: nat)
    requires Sorted(f) && k < |f| && Covers(f[k], b)
    ensures Aligned(f, b) ==> f[k].block == b
    ensures Fitted(f, b, len) ==> f[k].block == b && Len(f[k]) == len
  {
    forall i | 0 <= i < |f| && f[i].block == b ensures i == k { SameStart(f, i, k, b); }
  }

  /** The map and the blocks owned are the same; only the cuts may differ. */
  ghost predicate SameBlocks(f: seq<Extent>, f': seq<Extent>) {
    SameMap(f, f') && forall p :: Owns(f', p) == Owns(f, p)
  }

  lemma SplitFits(f: seq<Extent>, k: nat, at: nat, f': seq<Extent>)
    requires k < |f| && ValidExtent(f[k]) && f[k].block < at < End(f[k])
    requires f' == f[..k] + [HeadOf(f[k], at, Unwritten(f[k])), TailOf(f[k], at, Unwritten(f[k]))] + f[k+1..]
    ensures Aligned(f', at) && Fitted(f', f[k].block, at - f[k].block) && CutOnlyAt(f, f', at)
  {
    var h, t := HeadOf(f[k], at, Unwritten(f[k])), TailOf(f[k], at, Unwritten(f[k]));
    assert f'[k] == h && f'[k+1] == t;
    forall e | e in f' ensures e.block in Starts(f) + {at} {
      if e == h { assert f[k] in f; }
    }
  }

  /** No extent of f' starts anew, except at b. */
  ghost predicate CutOnlyAt(f: seq<Extent>, f': seq<Extent>, b: nat) {
    Starts(f') <= Starts(f) + {b}
  }

  /** Extent x of f was cut at b, if there was need to. */
  ghost predicate CutAt(f: seq<Extent>, f': seq<Extent>, x: Extent, b: nat, need: bool) {
    if need then x.block < b && Aligned(f', b) && Fitted(f', x.block, b - x.block) && CutOnlyAt(f, f', b) else f' == f
  }

  ghost predicate CutBothAt(g1: seq<Extent>, g2: seq<Extent>, h1: seq<Extent>, h2: seq<Extent>, b1: nat, b2: nat) {
    CutOnlyAt(g1, h1, b1) && CutOnlyAt(g2, h2, b2)
  }

  /** Split the extent of the path at a block inside it, if asked to. */
  method SplitOff(ino: Inode, path: Path, at: nat, need: bool) returns (r: Status)
    requires ino.Valid() && Reaches(ino.root, path.pos) && Sub(ino.root, path.pos).Leaf?
    requires path.ext.Some? && path.ext.value < |Sub(ino.root, path.pos).exts|
    requires need ==> PathTo(ino.root, ino.depth, path, at) && Sub(ino.root, path.pos).exts[path.ext.value].block < at
    modifies ino
    ensures ino.Valid() && SameBlocks(old(Flat(ino.root)), Flat(ino.root))
    ensures forall b :: ino.Held(b) == old(ino.Held(b))
    ensures forall p :: FreedData(ino.freed, p) == old(FreedData(ino.freed, p))
    ensures !need ==> r == Ok
    ensures ino.depth <= old(ino.depth) + 1 && |ino.pool| <= |old(ino.pool)| <= |ino.pool| + old(ino.depth) + 2
    ensures r == Ok || (r == NoSpace && ino.pool == [])
    ensures r == Ok ==>
              CutAt(old(Flat(ino.root)), Flat(ino.root), old(Sub(ino.root, path.pos).exts[path.ext.value]), at, need)
  {
    r := Ok;
    if need {
      ghost var f, k := Flat(ino.root), Rank(ino.root, path);
      RankAt(ino.root, path);
      r := ForceSplitAt(ino, path, at);
      if r == Ok { SplitFits(f, k, at, Flat(ino.root)); }
    }
  }

  // --------------------------------------------------------------- exchange

  /** What an extent becomes: the other one's blocks, marked unwritten or not. */
  function Traded(x: Extent, other: Extent, unwritten: bool): (y: Extent)
    requires ValidExtent(other) && (unwritten ==> Len(other) < INIT_MAX_LEN)
    ensures y.block == x.block && y.pblk == other.pblk && Len(y) == Len(other) && Unwritten(y) == unwritten
  {
    var y := Extent(x.block, Len(other), other.pblk);
    if unwritten then MarkUnwritten(y) else y
  }

  lemma TradedStep(f: seq<Extent>, k: nat, other: seq<Extent>, j: nat, unwritten: bool, f': seq<Extent>,
                   mark: Option<bool>)
    requires Sorted(f) && Sorted(other) && k < |f| && j < |other| && ValidExtent(f[k]) && ValidExtent(other[j])
    requires Len(f[k]) == Len(other[j]) && (unwritten ==> Len(other[j]) < INIT_MAX_LEN)
    requires unwritten == if mark.Some? then mark.value else Unwritten(f[k])
    requires Recut(f[k := Traded(f[k], other[j], unwritten)], f')
    ensures Stepped(f, other, f', f[k].block, other[j].block, Len(f[k]), mark)
  {
    var x, o, y := f[k], other[j], Traded(f[k], other[j], unwritten);
    forall b: nat
      ensures At(f', b) ==
              if x.block <= b < x.block + Len(x) then Exchanged(At(f, b), At(other, o.block + (b - x.block)), mark)
                  else At(f, b)
    {
      assert At(f', b) == At(f[k := y], b);
      TradedCell(f, k, other, j, unwritten, mark, y, b);
    }
    forall b: nat | x.block <= b < x.block + Len(x) ensures At(f, b).Some? { AtHit(f, k, b); }
    forall b: nat | o.block <= b < o.block + Len(x) ensures At(other, b).Some? { AtHit(other, j, b); }
  }

  lemma TradedCell(f: seq<Extent>, k: nat, other: seq<Extent>, j: nat, unwritten: bool, mark: Option<bool>, y: Extent,
                   b: nat)
    requires Sorted(f) && Sorted(other) && k < |f| && j < |other| && ValidExtent(f[k]) && ValidExtent(other[j])
    requires Len(f[k]) == Len(other[j]) && (unwritten ==> Len(other[j]) < INIT_MAX_LEN)
    requires unwritten == if mark.Some? then mark.value else Unwritten(f[k])
    requires y == Traded(f[k], other[j], unwritten)
    ensures At(f[k := y], b) ==
            if Covers(f[k], b) then Exchanged(At(f, b), At(other, other[j].block + (b - f[k].block)), mark)
                else At(f, b)
  {
    TradedAt(f, k, y, b);
    if Covers(f[k], b) { AtHit(other, j, other[j].block + (b - f[k].block)); }
  }

  lemma TradedAt(f: seq<Extent>, k: nat, y: Extent, b: nat)
    requires Sorted(f) && k < |f| && ValidExtent(y) && y.block == f[k].block && Len(y) == Len(f[k])
    ensures Covers(f[k], b) ==> At(f, b) == Some(CellOf(f[k], b)) && At(f[k := y], b) == Some(CellOf(y, b))
    ensures !Covers(f[k], b) ==> At(f[k := y], b) == At(f, b)
  {
    if Covers(f[k], b) {
      UpdateSorted(f, k, y);
      AtHit(f, k, b);
      AtHit(f[k := y], k, b);
    } else {
      assert f == f[..k] + [f[k]] + f[k+1..] && f[k := y] == f[..k] + [y] + f[k+1..];
      AtUpdate(f, k, f[k], b);
      AtUpdate(f, k, y, b);
    }
  }

  lemma TradedOwns(f: seq<Extent>, k: nat, other: seq<Extent>, j: nat, u1: bool, u2: bool, f': seq<Extent>,
                   other': seq<Extent>)
    requires k < |f| && j < |other| && ValidExtent(f[k]) && ValidExtent(other[j]) && Len(f[k]) == Len(other[j]) &&
               (u1 || u2 ==> Len(f[k]) < INIT_MAX_LEN)
    requires Recut(f[k := Traded(f[k], other[j], u1)], f') && Recut(other[j := Traded(other[j], f[k], u2)], other')
    ensures forall p :: Owns(f', p) + Owns(other', p) == Owns(f, p) + Owns(other, p)
  {
    forall p ensures Owns(f', p) + Owns(other', p) == Owns(f, p) + Owns(other, p) {
      OwnsUpdate(f, k, Traded(f[k], other[j], u1), p);
      OwnsUpdate(other, j, Traded(other[j], f[k], u2), p);
    }
  }

  /** Store the traded extent and merge it with its neighbours. */
  method Trade(ino: Inode, path: Path, y: Extent, canExtend: bool)
    requires ino.Valid() && Reaches(ino.root, path.pos) && |path.pos| == ino.depth && Sub(ino.root, path.pos).Leaf?
    requires path.ext.Some? && path.ext.value < |Sub(ino.root, path.pos).exts|
    requires var x := Sub(ino.root, path.pos).exts[path.ext.value];
             ValidExtent(y) && y.block == x.block && Len(y) == Len(x)
    modifies ino
    ensures ino.Valid() && ino.pool == old(ino.pool) && ino.depth <= old(ino.depth)
    ensures ino.depth < old(ino.depth) ==> canExtend
    ensures old(Rank(ino.root, path)) < |old(Flat(ino.root))|
    ensures Recut(old(Flat(ino.root))[old(Rank(ino.root, path)) := y], Flat(ino.root))
    ensures |Flat(ino.root)| < |old(Flat(ino.root))| <==>
              Mergeable(ino.pendingIo, old(Sub(ino.root, path.pos).exts)[path.ext.value := y], path.ext.value)
    ensures forall b :: ino.Held(b) == old(ino.Held(b))
    ensures forall p :: FreedData(ino.freed, p) == old(FreedData(ino.freed, p))
  {
    ghost var t := ino.root;
    SetEntry(ino, path, y);
    ino.MergeExtent(path.pos, path.ext.value, canExtend, t);
  }

  /** The exchange of two extents of the same length, one in each file. */
  method Exchange(ino1: Inode, ino2: Inode, path1: Path, path2: Path, unwritten: bool, canExtend: bool, ghost b1: nat,
                  ghost b2: nat)
    requires ino1 != ino2 && ino1.Valid() && ino2.Valid()
    requires PathTo(ino1.root, ino1.depth, path1, b1) && PathTo(ino2.root, ino2.depth, path2, b2)
    requires var x1, x2 :=
               Sub(ino1.root, path1.pos).exts[path1.ext.value], Sub(ino2.root, path2.pos).exts[path2.ext.value];
             && ValidExtent(x1) && ValidExtent(x2) && x1.block == b1 && x2.block == b2
             && Len(x1) == Len(x2) && (unwritten ==> Len(x1) <= UNWRITTEN_MAX_LEN)
    modifies ino1, ino2
    ensures ino1.Valid() && ino1.pool == old(ino1.pool) && ino1.depth <= old(ino1.depth)
    ensures ino2.Valid() && ino2.pool == old(ino2.pool) && ino2.depth <= old(ino2.depth)
    ensures var len := old(Len(Sub(ino1.root, path1.pos).exts[path1.ext.value]));
            && Stepped(old(Flat(ino1.root)), old(Flat(ino2.root)), Flat(ino1.root), b1, b2, len, None)
            && Stepped(old(Flat(ino2.root)), old(Flat(ino1.root)), Flat(ino2.root), b2, b1, len, Some(unwritten))
    ensures Starts(Flat(ino1.root)) <= old(Starts(Flat(ino1.root))) &&
              Starts(Flat(ino2.root)) <= old(Starts(Flat(ino2.root)))
    ensures forall p :: Owns(Flat(ino1.root), p) + Owns(Flat(ino2.root), p) ==
              old(Owns(Flat(ino1.root), p) + Owns(Flat(ino2.root), p))
    ensures forall b :: ino1.Held(b) == old(ino1.Held(b)) && ino2.Held(b) == old(ino2.Held(b))
    ensures forall p :: FreedData(ino1.freed, p) == old(FreedData(ino1.freed, p)) &&
              FreedData(ino2.freed, p) == old(FreedData(ino2.freed, p))
  {
    var x1, x2 := Sub(ino1.root, path1.pos).exts[path1.ext.value], Sub(ino2.root, path2.pos).exts[path2.ext.value];
    RankAt(ino1.root, path1);
    RankAt(ino2.root, path2);
    ghost var f1, f2, k1, k2 := Flat(ino1.root), Flat(ino2.root), Rank(ino1.root, path1), Rank(ino2.root, path2);
    Trade(ino2, path2, Traded(x2, x1, unwritten), canExtend);
    Trade(ino1, path1, Traded(x1, x2, Unwritten(x1)), canExtend);
    TradedStep(f1, k1, f2, k2, Unwritten(x1), Flat(ino1.root), None);
    TradedStep(f2, k2, f1, k1, unwritten, Flat(ino2.root), Some(unwritten));
    TradedOwns(f1, k1, f2, k2, Unwritten(x1), unwritten, Flat(ino1.root), Flat(ino2.root));
    StartsUpdate(f1, k1, Traded(x1, x2, Unwritten(x1)));
    StartsUpdate(f2, k2, Traded(x2, x1, unwritten));
  }

  lemma StartsUpdate(f: seq<Extent>, k: nat, y: Extent)
    requires k < |f| && y.block == f[k].block
    ensures Starts(f[k := y]) <= Starts(f)
  {
    forall e | e in f[k := y] ensures e.block in Starts(f) {
      if e == y { assert f[k] in f; }
    }
  }

  // ------------------------------------------------------------------ rounds

  /** What is known about the boundaries: nothing (stage 2), both extents start at their
      block (stage 1), both extents also have the length fit (stage 0). */
  ghost predicate Ready(stage: nat, fit: nat, f1: seq<Extent>, f2: seq<Extent>, l1: nat, l2: nat, count: nat) {
    && (stage <= 1 ==> Aligned(f1, l1) && Aligned(f2, l2))
    && (stage == 0 ==> Fitted(f1, l1, fit) && Fitted(f2, l2, fit) && fit <= count)
  }

  /** Where the last cut was, seen from the current offset. */
  ghost function Ahead(stage: nat, fit: nat): nat {
    if stage == 0 then fit else 0
  }

  lemma ReadyMapped(stage: nat, fit: nat, f1: seq<Extent>, f2: seq<Extent>, l1: nat, l2: nat, count: nat)
    requires Ready(stage, fit, f1, f2, l1, l2, count) && Sorted(f1) && Sorted(f2) && HoleHere(f1, f2, l1, l2)
    ensures stage >= 2
  {
    if stage <= 1 {
      AlignedMapped(f1, l1);
      AlignedMapped(f2, l2);
    }
  }

  lemma AlignedMapped(f: seq<Extent>, b: nat)
    requires Sorted(f) && Aligned(f, b)
    ensures At(f, b).Some?
  {
    var i :| 0 <= i < |f| && f[i].block == b;
    assert ValidExtent(f[i]);
    AtHit(f, i, b);
  }

  /** Where the walk goes on after a hole: the next block that a search from b can hit. */
  method NextFrom(ino: Inode, path: Path, b: nat) returns (next: nat)
    requires ino.Valid() && PathFor(ino.root, path, b) && |path.pos| == ino.depth && path.ext.Some? && b < MAX_BLOCKS
    requires Spotted(Flat(ino.root), Rank(ino.root, path), Sub(ino.root, path.pos).exts[path.ext.value], b)
    ensures Next(Flat(ino.root), b, next)
  {
    var x := Sub(ino.root, path.pos).exts[path.ext.value];
    next := NextAllocatedBlock(ino.g, ino.root, ino.depth, path);
    if x.block > b {
      next := x.block;
    }
    NextSpotted(Flat(ino.root), Rank(ino.root, path), x, b, next);
  }

  /** n is where the first extent behind block b starts. */
  ghost predicate Next(f: seq<Extent>, b: nat, n: nat) {
    && b < n <= MAX_BLOCKS && (n == MAX_BLOCKS || n in Starts(f))
    && forall s :: s in Starts(f) ==> s <= b || n <= s
  }

  lemma NextSpotted(f: seq<Extent>, k: nat, x: Extent, b: nat, n: nat)
    requires Sorted(f) && Spotted(f, k, x, b) && b < MAX_BLOCKS
    requires n == if x.block > b then x.block else if k + 1 < |f| then f[k+1].block else MAX_BLOCKS
    ensures Next(f, b, n)
  {
    if x.block <= b && k + 1 < |f| { assert f[k+1] in f && ValidExtent(f[k+1]); }
    forall e | e in f ensures e.block <= b || n <= e.block {
      var i :| 0 <= i < |f| && f[i] == e;
      assert ValidExtent(f[i]);
    }
  }

  /** len offsets from l1 and l2 on both files have reached the blocks n1 and n2, one of them exactly, or there are no
      more than count offsets. */
  ghost predicate ReachesBoth(n1: nat, n2: nat, l1: nat, l2: nat, len: nat, count: nat) {
    if n1 <= l1 + count && n2 <= l2 + count
    then n1 <= l1 + len && n2 <= l2 + len && (n1 == l1 + len || n2 == l2 + len)
    else len == count
  }

  /** How many blocks the two extents share from the current offset on. */
  function Common(x1: Extent, x2: Extent, l1: nat, l2: nat, count: nat): (len: nat)
    requires Covers(x1, l1) && Covers(x2, l2) && 0 < count
    ensures 0 < len <= count && l1 + len <= End(x1) && l2 + len <= End(x2)
    ensures len == count || l1 + len == End(x1) || l2 + len == End(x2)
  {
    var a := if count > End(x1) - l1 then End(x1) - l1 else count;
    if a > End(x2) - l2 then End(x2) - l2 else a
  }

  /** Cut one or both files at the given blocks. */
  method SplitPair(ino1: Inode, ino2: Inode, path1: Path, path2: Path, at1: nat, at2: nat, need1: bool, need2: bool)
    returns (r: Status)
    requires ino1 != ino2 && ino1.Valid() && ino2.Valid()
    requires Reaches(ino1.root, path1.pos) && Sub(ino1.root, path1.pos).Leaf? && path1.ext.Some? &&
               path1.ext.value < |Sub(ino1.root, path1.pos).exts|
    requires Reaches(ino2.root, path2.pos) && Sub(ino2.root, path2.pos).Leaf? && path2.ext.Some? &&
               path2.ext.value < |Sub(ino2.root, path2.pos).exts|
    requires need1 ==>
               PathTo(ino1.root, ino1.depth, path1, at1) && Sub(ino1.root, path1.pos).exts[path1.ext.value].block < at1
    requires need2 ==>
               PathTo(ino2.root, ino2.depth, path2, at2) && Sub(ino2.root, path2.pos).exts[path2.ext.value].block < at2
    modifies ino1, ino2
    ensures ino1.Valid() && SameBlocks(old(Flat(ino1.root)), Flat(ino1.root))
    ensures ino2.Valid() && SameBlocks(old(Flat(ino2.root)), Flat(ino2.root))
    ensures forall b :: ino1.Held(b) == old(ino1.Held(b)) && ino2.Held(b) == old(ino2.Held(b))
    ensures forall p :: FreedData(ino1.freed, p) == old(FreedData(ino1.freed, p)) &&
              FreedData(ino2.freed, p) == old(FreedData(ino2.freed, p))
    ensures Paid(1, |old(ino1.pool)|, old(ino1.depth), |ino1.pool|, ino1.depth)
    ensures Paid(1, |old(ino2.pool)|, old(ino2.depth), |ino2.pool|, ino2.depth)
    ensures r == Ok || (r == NoSpace && (ino1.pool == [] || ino2.pool == []))
    ensures r == Ok ==>
              CutAt(old(Flat(ino1.root)), Flat(ino1.root), old(Sub(ino1.root, path1.pos).exts[path1.ext.value]), at1,
                    need1)
    ensures r == Ok ==>
              CutAt(old(Flat(ino2.root)), Flat(ino2.root), old(Sub(ino2.root, path2.pos).exts[path2.ext.value]), at2,
                    need2)
  {
    r := SplitOff(ino1, path1, at1, need1);
    if r == Ok {
      r := SplitOff(ino2, path2, at2, need2);
    }
  }

  /** What at most one insertion, or none, takes from the pool. */
  ghost predicate Paid(inserts: nat, p: nat, d: nat, p': nat, d': nat) {
    if inserts == 0 then p' == p && d' <= d else p' <= p <= p' + d + 2 && d' <= d + 1
  }

  /** What one round of the loop did. */
  datatype Step = Stop | Skipped(len: nat) | Cut | Swapped(len: nat)

  function Cuts(step: Step, r: Status): nat {
    if r != Ok || step == Cut then 1 else 0
  }

  /** One of the two blocks is not mapped. */
  ghost predicate HoleHere(g1: seq<Extent>, g2: seq<Extent>, l1: nat, l2: nat) {
    At(g1, l1) == None || At(g2, l2) == None
  }

  lemma SpottedHole(f: seq<Extent>, k: nat, x: Extent, b: nat)
    requires Sorted(f) && Spotted(f, k, x, b) && !Covers(x, b)
    ensures At(f, b) == None
  {
    forall i | 0 <= i < |f| ensures !Covers(f[i], b) { assert i < k ==> End(f[i]) <= f[k].block; }
    AtNone(f, b);
  }

  /** A skip of len offsets ends where in both files the next extent has been reached, or at the end of the request. */
  ghost predicate Leaps(g1: seq<Extent>, g2: seq<Extent>, l1: nat, l2: nat, len: nat, count: nat) {
    exists n1, n2 :: Leap(g1, g2, l1, l2, n1, n2, len, count)
  }

  ghost predicate Leap(g1: seq<Extent>, g2: seq<Extent>, l1: nat, l2: nat, n1: nat, n2: nat, len: nat, count: nat) {
    && Next(g1, l1, n1) && Next(g2, l2, n2) && n1 < MAX_BLOCKS && n2 < MAX_BLOCKS
    && ReachesBoth(n1, n2, l1, l2, len, count)
  }

  /** A block is not mapped, and one of the files has no extent behind its block. */
  ghost predicate NoMore(g1: seq<Extent>, g2: seq<Extent>, l1: nat, l2: nat) {
    HoleHere(g1, g2, l1, l2) && (Next(g1, l1, MAX_BLOCKS) || Next(g2, l2, MAX_BLOCKS))
  }

  /** What one round did to both files: g1, g2 before and h1, h2 after it. */
  ghost predicate Done(step: Step, g1: seq<Extent>, g2: seq<Extent>, h1: seq<Extent>, h2: seq<Extent>,
                       l1: nat, l2: nat, count: nat, unwritten: bool) {
    match step
    case Swapped(len) =>
      && 0 < len <= count
      && Stepped(g1, g2, h1, l1, l2, len, None) && Stepped(g2, g1, h2, l2, l1, len, Some(unwritten))
      && Starts(h1) <= Starts(g1) && Starts(h2) <= Starts(g2)
      && forall p :: Owns(h1, p) + Owns(h2, p) == Owns(g1, p) + Owns(g2, p)
    case Skipped(len) => 0 < len <= count && g1 == h1 && g2 == h2 && HoleHere(g1, g2, l1, l2) &&
        Leaps(g1, g2, l1, l2, len, count)
    case _ => SameBlocks(g1, h1) && SameBlocks(g2, h2)
  }

  /** All that a round did: stage and fit before, stage' and fit' after it. */
  ghost predicate Rounded(r: Status, step: Step, stage: nat, fit: nat, stage': nat, fit': nat, g1: seq<Extent>,
                          g2: seq<Extent>, h1: seq<Extent>, h2: seq<Extent>, l1: nat, l2: nat, count: nat,
                          unwritten: bool) {
    && Done(step, g1, g2, h1, h2, l1, l2, count, unwritten) && (step == Stop || r == Ok)
    && (step == Stop && r == Ok ==> NoMore(g1, g2, l1, l2))
    && (step.Skipped? || (step == Stop && r == Ok) ==> stage >= 2)
    && (step.Swapped? && stage == 0 ==> step.len == fit)
    && (step == Cut ==>
          && stage' < stage && Ready(stage', fit', h1, h2, l1, l2, count)
          && CutBothAt(g1, g2, h1, h2, l1 + Ahead(stage', fit'), l2 + Ahead(stage', fit')))
  }

  lemma NoneThere(stage: nat, fit: nat, f1: seq<Extent>, f2: seq<Extent>, l1: nat, l2: nat, count: nat, unwritten: bool)
    requires Ready(stage, fit, f1, f2, l1, l2, count) && Sorted(f1) && Sorted(f2) && (f1 == [] || f2 == [])
    requires l1 < MAX_BLOCKS && l2 < MAX_BLOCKS
    ensures Rounded(Ok, Stop, stage, fit, 2, 0, f1, f2, f1, f2, l1, l2, count, unwritten)
  {
    ReadyMapped(stage, fit, f1, f2, l1, l2, count);
  }

  lemma HolePassed(step: Step, stage: nat, fit: nat, f1: seq<Extent>, f2: seq<Extent>, l1: nat, l2: nat, count: nat,
                   unwritten: bool)
    requires Ready(stage, fit, f1, f2, l1, l2, count) && Sorted(f1) && Sorted(f2) && HoleHere(f1, f2, l1, l2)
    requires (step == Stop && NoMore(f1, f2, l1, l2)) ||
               (step.Skipped? && 0 < step.len <= count && Leaps(f1, f2, l1, l2, step.len, count))
    ensures Rounded(Ok, step, stage, fit, 2, 0, f1, f2, f1, f2, l1, l2, count, unwritten)
  {
    ReadyMapped(stage, fit, f1, f2, l1, l2, count);
  }

  lemma CutReady(f: seq<Extent>, f': seq<Extent>, x: Extent, l: nat, len: nat, need: bool, stage: nat)
    requires CutAt(f, f', x, l + len, need) && Covers(x, l)
    requires stage == 1 ==> len == 0 && need == (x.block < l) && (!need ==> Aligned(f, l))
    requires stage == 0 ==> x.block == l && need == (len != Len(x)) && (!need ==> Fitted(f, l, len))
    ensures CutOnlyAt(f, f', l + len)
    ensures stage == 1 ==> Aligned(f', l)
    ensures stage == 0 ==> Aligned(f', l) && Fitted(f', l, len)
  {
  }

  lemma CutRounded(r: Status, before: nat, fit: nat, stage: nat, len: nat, g1: seq<Extent>, g2: seq<Extent>,
                   h1: seq<Extent>, h2: seq<Extent>, l1: nat, l2: nat, count: nat, unwritten: bool)
    requires stage < before && SameBlocks(g1, h1) && SameBlocks(g2, h2) && (stage == 1 ==> len == 0) && stage <= 1
    requires r == Ok ==> Ready(stage, len, h1, h2, l1, l2, count) && CutBothAt(g1, g2, h1, h2, l1 + len, l2 + len)
    ensures Rounded(r, if r == Ok then Cut else Stop, before, fit, stage, len, g1, g2, h1, h2, l1, l2, count, unwritten)
  {
  }

  /** Make both extents start at the current blocks (stage 1), or also end len blocks behind them (stage 0). */
  method CutPair(ino1: Inode, ino2: Inode, path1: Path, path2: Path, ghost x1: Extent, ghost x2: Extent, l1: nat,
                 l2: nat, len: nat, need1: bool, need2: bool, ghost count: nat, ghost unwritten: bool,
                 ghost before: nat, ghost fit: nat, ghost stage: nat)
    returns (r: Status, step: Step)
    requires ino1 != ino2 && ino1.Valid() && ino2.Valid() && stage <= 1 && stage < before && len <= count
    requires PathTo(ino1.root, ino1.depth, path1, l1) && x1 == Sub(ino1.root, path1.pos).exts[path1.ext.value]
    requires PathTo(ino2.root, ino2.depth, path2, l2) && x2 == Sub(ino2.root, path2.pos).exts[path2.ext.value]
    requires stage == 1 ==> len == 0 && need1 == (x1.block < l1) && need2 == (x2.block < l2)
    requires stage == 0 ==> x1.block == l1 && x2.block == l2 && 0 < len <= Len(x1) && len <= Len(x2)
    requires stage == 0 ==> need1 == (len != Len(x1)) && need2 == (len != Len(x2))
    modifies ino1, ino2
    ensures ino1.Valid() && ino2.Valid() && step == if r == Ok then Cut else Stop
    ensures Paid(1, |old(ino1.pool)|, old(ino1.depth), |ino1.pool|, ino1.depth)
    ensures Paid(1, |old(ino2.pool)|, old(ino2.depth), |ino2.pool|, ino2.depth)
    ensures r == Ok || (r == NoSpace && (ino1.pool == [] || ino2.pool == []))
    ensures Rounded(r, step, before, fit, stage, len, old(Flat(ino1.root)), old(Flat(ino2.root)),
                    Flat(ino1.root), Flat(ino2.root), l1, l2, count, unwritten)
    ensures forall b :: ino1.Held(b) == old(ino1.Held(b)) && ino2.Held(b) == old(ino2.Held(b))
    ensures forall p :: FreedData(ino1.freed, p) == old(FreedData(ino1.freed, p)) &&
              FreedData(ino2.freed, p) == old(FreedData(ino2.freed, p))
  {
    ghost var f1, f2 := Flat(ino1.root), Flat(ino2.root);
    Stages(ino1.root, path1, l1, x1, len);
    Stages(ino2.root, path2, l2, x2, len);
    r := SplitPair(ino1, ino2, path1, path2, l1 + len, l2 + len, need1, need2);
    step := if r == Ok then Cut else Stop;
    if r == Ok {
      CutReady(f1, Flat(ino1.root), x1, l1, len, need1, stage);
      CutReady(f2, Flat(ino2.root), x2, l2, len, need2, stage);
    }
    CutRounded(r, before, fit, stage, len, f1, f2, Flat(ino1.root), Flat(ino2.root), l1, l2, count, unwritten);
  }

  /** The part of a round behind the hole test: both blocks are mapped. */
  method CutOrSwap(ino1: Inode, ino2: Inode, path1: Path, path2: Path, l1: nat, l2: nat, count: nat, unwritten: bool,
                   canExtend: bool, ghost stage: nat, ghost fit: nat)
    returns (r: Status, step: Step, ghost stage': nat, ghost fit': nat)
    requires ino1 != ino2 && ino1.Valid() && ino2.Valid() && 0 < count && (unwritten ==> count <= UNWRITTEN_MAX_LEN)
    requires PathTo(ino1.root, ino1.depth, path1, l1) && PathTo(ino2.root, ino2.depth, path2, l2)
    requires Ready(stage, fit, Flat(ino1.root), Flat(ino2.root), l1, l2, count)
    modifies ino1, ino2
    ensures ino1.Valid() && ino2.Valid()
    ensures Paid(Cuts(step, r), |old(ino1.pool)|, old(ino1.depth), |ino1.pool|, ino1.depth)
    ensures Paid(Cuts(step, r), |old(ino2.pool)|, old(ino2.depth), |ino2.pool|, ino2.depth)
    ensures r == Ok || (r == NoSpace && (ino1.pool == [] || ino2.pool == []) && stage > 0)
    ensures Rounded(r, step, stage, fit, stage', fit', old(Flat(ino1.root)), old(Flat(ino2.root)),
                    Flat(ino1.root), Flat(ino2.root), l1, l2, count, unwritten)
    ensures forall b :: ino1.Held(b) == old(ino1.Held(b)) && ino2.Held(b) == old(ino2.Held(b))
    ensures forall p :: FreedData(ino1.freed, p) == old(FreedData(ino1.freed, p)) &&
              FreedData(ino2.freed, p) == old(FreedData(ino2.freed, p))
  {
    var x1, x2 := Sub(ino1.root, path1.pos).exts[path1.ext.value], Sub(ino2.root, path2.pos).exts[path2.ext.value];
    Stages(ino1.root, path1, l1, x1, fit);
    Stages(ino2.root, path2, l2, x2, fit);
    stage', fit' := 2, 0;
    if x1.block < l1 || x2.block < l2 {
      r, step := CutPair(ino1, ino2, path1, path2, x1, x2, l1, l2, 0, x1.block < l1, x2.block < l2, count, unwritten,
                         stage, fit, 1);
      stage' := 1;
      return;
    }
    var len := Common(x1, x2, l1, l2, count);
    if len != Len(x1) || len != Len(x2) {
      r, step := CutPair(ino1, ino2, path1, path2, x1, x2, l1, l2, len, len != Len(x1), len != Len(x2), count,
                         unwritten, stage, fit, 0);
      stage', fit' := 0, len;
      return;
    }
    r, step := Ok, Swapped(len);
    Exchange(ino1, ino2, path1, path2, unwritten, canExtend, l1, l2);
  }

  lemma Stages(t: Tree, path: Path, b: nat, x: Extent, len: nat)
    requires Reaches(t, path.pos) && Sub(t, path.pos).Leaf? && path.ext.Some? &&
               path.ext.value < |Sub(t, path.pos).exts|
    requires Sorted(Flat(t)) && x == Sub(t, path.pos).exts[path.ext.value] && Covers(x, b)
    ensures ValidExtent(x)
    ensures Aligned(Flat(t), b) <==> x.block == b
    ensures Fitted(Flat(t), b, len) <==> x.block == b && Len(x) == len
  {
    RankAt(t, path);
    AlignedHere(Flat(t), Rank(t, path), b, len);
    assert Flat(t)[Rank(t, path)] == x;
  }

  /** The part of a round where one of the blocks is not mapped. */
  method PassHole(ino1: Inode, ino2: Inode, path1: Path, path2: Path, l1: nat, l2: nat, count: nat) returns (step: Step)
    requires ino1.Valid() && PathFor(ino1.root, path1, l1) && |path1.pos| == ino1.depth && path1.ext.Some? &&
               l1 < MAX_BLOCKS
    requires ino2.Valid() && PathFor(ino2.root, path2, l2) && |path2.pos| == ino2.depth && path2.ext.Some? &&
               l2 < MAX_BLOCKS
    requires Spotted(Flat(ino1.root), Rank(ino1.root, path1), Sub(ino1.root, path1.pos).exts[path1.ext.value], l1)
    requires Spotted(Flat(ino2.root), Rank(ino2.root, path2), Sub(ino2.root, path2.pos).exts[path2.ext.value], l2)
    requires 0 < count
    requires || !Covers(Sub(ino1.root, path1.pos).exts[path1.ext.value], l1)
             || !Covers(Sub(ino2.root, path2.pos).exts[path2.ext.value], l2)
    ensures HoleHere(Flat(ino1.root), Flat(ino2.root), l1, l2) && (step == Stop || step.Skipped?)
    ensures step == Stop ==> NoMore(Flat(ino1.root), Flat(ino2.root), l1, l2)
    ensures step.Skipped? ==> 0 < step.len <= count && Leaps(Flat(ino1.root), Flat(ino2.root), l1, l2, step.len, count)
  {
    ghost var f1, f2 := Flat(ino1.root), Flat(ino2.root);
    var x1, x2 := Sub(ino1.root, path1.pos).exts[path1.ext.value], Sub(ino2.root, path2.pos).exts[path2.ext.value];
    if !Covers(x1, l1) { SpottedHole(f1, Rank(ino1.root, path1), x1, l1); }
    if !Covers(x2, l2) { SpottedHole(f2, Rank(ino2.root, path2), x2, l2); }
    var next1 := NextFrom(ino1, path1, l1);
    var next2 := NextFrom(ino2, path2, l2);
    if next1 == MAX_BLOCKS || next2 == MAX_BLOCKS {
      return Stop;
    }
    var len := next1 - l1;
    if len < next2 - l2 {
      len := next2 - l2;
    }
    if len > count {
      len := count;
    }
    assert Leap(f1, f2, l1, l2, next1, next2, len, count);
    step := Skipped(len);
  }

  /** One round of the loop of ext4_swap_extents. */
  method SwapRound(ino1: Inode, ino2: Inode, l1: nat, l2: nat, count: nat, unwritten: bool, canExtend: bool,
                   ghost stage: nat, ghost fit: nat)
    returns (r: Status, step: Step, ghost stage': nat, ghost fit': nat)
    requires ino1 != ino2 && ino1.Valid() && ino2.Valid() && 0 < count && (unwritten ==> count <= UNWRITTEN_MAX_LEN) &&
               l1 < MAX_BLOCKS && l2 < MAX_BLOCKS
    requires Ready(stage, fit, Flat(ino1.root), Flat(ino2.root), l1, l2, count)
    modifies ino1, ino2
    ensures ino1.Valid() && ino2.Valid() && (step == Stop || r == Ok)
    ensures Paid(Cuts(step, r), |old(ino1.pool)|, old(ino1.depth), |ino1.pool|, ino1.depth)
    ensures Paid(Cuts(step, r), |old(ino2.pool)|, old(ino2.depth), |ino2.pool|, ino2.depth)
    ensures r == Ok || (r == NoSpace && (ino1.pool == [] || ino2.pool == []) && stage > 0)
    ensures Rounded(r, step, stage, fit, stage', fit', old(Flat(ino1.root)), old(Flat(ino2.root)),
                    Flat(ino1.root), Flat(ino2.root), l1, l2, count, unwritten)
    ensures forall b :: ino1.Held(b) == old(ino1.Held(b)) && ino2.Held(b) == old(ino2.Held(b))
    ensures forall p :: FreedData(ino1.freed, p) == old(FreedData(ino1.freed, p)) &&
              FreedData(ino2.freed, p) == old(FreedData(ino2.freed, p))
  {
    r, step, stage', fit' := Ok, Stop, 2, 0;
    var path1 := FindAt(ino1, l1);
    var path2 := FindAt(ino2, l2);
    if path1.ext.None? || path2.ext.None? {
      if path1.ext.None? { EmptyLeaf(ino1.g, ino1.root, ino1.depth, path1.pos); }
      if path2.ext.None? { EmptyLeaf(ino2.g, ino2.root, ino2.depth, path2.pos); }
      NoneThere(stage, fit, Flat(ino1.root), Flat(ino2.root), l1, l2, count, unwritten);
      return;
    }
    var x1, x2 := Sub(ino1.root, path1.pos).exts[path1.ext.value], Sub(ino2.root, path2.pos).exts[path2.ext.value];
    if !Covers(x1, l1) || !Covers(x2, l2) {
      step := PassHole(ino1, ino2, path1, path2, l1, l2, count);
      HolePassed(step, stage, fit, Flat(ino1.root), Flat(ino2.root), l1, l2, count, unwritten);
      return;
    }
    r, step, stage', fit' := CutOrSwap(ino1, ino2, path1, path2, l1, l2, count, unwritten, canExtend, stage, fit);
  }

  /** ext4_swap_extents: n is the number of blocks exchanged, sw says which offsets they are. */
  method SwapExtents(ino1: Inode, ino2: Inode, lblk1: nat, lblk2: nat, count: nat, unwritten: bool, canExtend: bool)
    returns (r: Status, n: nat, ghost sw: seq<bool>)
    requires ino1 != ino2 && ino1.Valid() && ino2.Valid()
    requires (unwritten ==> count <= UNWRITTEN_MAX_LEN) && lblk1 + count <= MAX_BLOCKS && lblk2 + count <= MAX_BLOCKS
    modifies ino1, ino2
    ensures ino1.Valid() && ino2.Valid()
    ensures |sw| <= count && n == Trues(sw)
    ensures Walked(old(Flat(ino1.root)), old(Flat(ino2.root)), lblk1, lblk2, sw, count)
    ensures r == Ok ==> |sw| == count || Over(old(Flat(ino1.root)), old(Flat(ino2.root)), lblk1 + |sw|, lblk2 + |sw|)
    ensures r == Ok || (r == NoSpace && (ino1.pool == [] || ino2.pool == []))
    ensures Spent(|old(ino1.pool)|, old(ino1.depth), 2 * count, |ino1.pool|, ino1.depth)
    ensures Spent(|old(ino2.pool)|, old(ino2.depth), 2 * count, |ino2.pool|, ino2.depth)
    ensures Swapping(old(Flat(ino1.root)), old(Flat(ino2.root)), Flat(ino1.root), Flat(ino2.root), lblk1, lblk2, sw,
                     unwritten)
    ensures forall b :: ino1.Held(b) == old(ino1.Held(b)) && ino2.Held(b) == old(ino2.Held(b))
    ensures forall p :: FreedData(ino1.freed, p) == old(FreedData(ino1.freed, p)) &&
              FreedData(ino2.freed, p) == old(FreedData(ino2.freed, p))
  {
    var l1: nat, l2: nat, left: nat := lblk1, lblk2, count;
    r, n, sw := Ok, 0, [];
    ghost var stage: nat, fit: nat, cuts: nat := 2, 0, 0;
    ghost var f1, f2 := Flat(ino1.root), Flat(ino2.root);
    SwapStart(f1, f2, lblk1, lblk2, unwritten);
    while left > 0
      invariant ino1.Valid() && ino2.Valid()
      invariant LoopState(r, n, l1, l2, left, sw, stage, fit, f1, f2, Flat(ino1.root), Flat(ino2.root), lblk1, lblk2,
                          count, unwritten)
      invariant r == Ok || (r == NoSpace && (ino1.pool == [] || ino2.pool == []))
      invariant cuts <= 2 * count && (left > 0 ==> cuts + stage <= 2 * |sw| + 2)
      invariant Spent(|old(ino1.pool)|, old(ino1.depth), cuts, |ino1.pool|, ino1.depth)
      invariant Spent(|old(ino2.pool)|, old(ino2.depth), cuts, |ino2.pool|, ino2.depth)
      invariant forall b :: ino1.Held(b) == old(ino1.Held(b)) && ino2.Held(b) == old(ino2.Held(b))
      invariant forall p :: FreedData(ino1.freed, p) == old(FreedData(ino1.freed, p)) &&
                  FreedData(ino2.freed, p) == old(FreedData(ino2.freed, p))
      decreases left, stage
    {
      ghost var g1, g2, stage0, fit0 := Flat(ino1.root), Flat(ino2.root), stage, fit;
      var step;
      r, step, stage, fit, cuts := PaidRound(ino1, ino2, l1, l2, left, unwritten, canExtend, stage, fit, cuts,
                                             |old(ino1.pool)|, old(ino1.depth), |old(ino2.pool)|, old(ino2.depth));
      n, l1, l2, left, sw, stage := Advance(r, step, n, l1, l2, left, sw, stage0, fit0, stage, fit, f1, f2, g1, g2,
                                            Flat(ino1.root), Flat(ino2.root), lblk1, lblk2, count, unwritten);
    }
    SpentMore(|old(ino1.pool)|, old(ino1.depth), cuts, 2 * count, |ino1.pool|, ino1.depth);
    SpentMore(|old(ino2.pool)|, old(ino2.depth), cuts, 2 * count, |ino2.pool|, ino2.depth);
  }

  /** A round and what all rounds so far have taken from the pools p1 and p2 of trees that had depth d1 and d2. */
  method PaidRound(ino1: Inode, ino2: Inode, l1: nat, l2: nat, count: nat, unwritten: bool, canExtend: bool,
                   ghost stage: nat, ghost fit: nat, ghost cuts: nat, ghost p1: nat, ghost d1: nat, ghost p2: nat,
                   ghost d2: nat)
    returns (r: Status, step: Step, ghost stage': nat, ghost fit': nat, ghost cuts': nat)
    requires ino1 != ino2 && ino1.Valid() && ino2.Valid() && 0 < count && (unwritten ==> count <= UNWRITTEN_MAX_LEN) &&
               l1 < MAX_BLOCKS && l2 < MAX_BLOCKS
    requires Ready(stage, fit, Flat(ino1.root), Flat(ino2.root), l1, l2, count)
    requires Spent(p1, d1, cuts, |ino1.pool|, ino1.depth) && Spent(p2, d2, cuts, |ino2.pool|, ino2.depth)
    modifies ino1, ino2
    ensures ino1.Valid() && ino2.Valid() && (step == Stop || r == Ok)
    ensures Spent(p1, d1, cuts', |ino1.pool|, ino1.depth) && Spent(p2, d2, cuts', |ino2.pool|, ino2.depth)
    ensures cuts' == cuts + if r != Ok || step == Cut then 1 else 0
    ensures r == Ok || (r == NoSpace && (ino1.pool == [] || ino2.pool == []) && stage > 0)
    ensures Rounded(r, step, stage, fit, stage', fit', old(Flat(ino1.root)), old(Flat(ino2.root)),
                    Flat(ino1.root), Flat(ino2.root), l1, l2, count, unwritten)
    ensures forall b :: ino1.Held(b) == old(ino1.Held(b)) && ino2.Held(b) == old(ino2.Held(b))
    ensures forall p :: FreedData(ino1.freed, p) == old(FreedData(ino1.freed, p)) &&
              FreedData(ino2.freed, p) == old(FreedData(ino2.freed, p))
  {
    r, step, stage', fit' := SwapRound(ino1, ino2, l1, l2, count, unwritten, canExtend, stage, fit);
    cuts' := cuts + Cuts(step, r);
    SpentRound(p1, d1, cuts, |old(ino1.pool)|, old(ino1.depth), Cuts(step, r), |ino1.pool|, ino1.depth);
    SpentRound(p2, d2, cuts, |old(ino2.pool)|, old(ino2.depth), Cuts(step, r), |ino2.pool|, ino2.depth);
  }

  lemma SpentRound(p0: nat, d0: nat, k: nat, p: nat, d: nat, inserts: nat, p': nat, d': nat)
    requires Spent(p0, d0, k, p, d) && inserts <= 1 && Paid(inserts, p, d, p', d')
    ensures Spent(p0, d0, k + inserts, p', d')
  {
    if inserts == 1 { SpentStep(p0, d0, k, p, d, p', d'); }
  }

  // ------------------------------------------------------------ the whole walk

  /** At block b the file goes on as it does at the block before. */
  ghost predicate Continues(f: seq<Extent>, b: nat) {
    && 0 < b && At(f, b - 1).Some?
    && At(f, b) == Some(Cell(At(f, b - 1).value.pblk + 1, At(f, b - 1).value.unwritten))
  }

  /** n is where the first extent behind block b starts, not counting extents that continue the one before: those
      may have been merged by then. */
  ghost predicate Follows(f: seq<Extent>, b: nat, n: nat) {
    && b < n <= MAX_BLOCKS && (n == MAX_BLOCKS || n in Starts(f))
    && forall s :: s in Starts(f) && b < s < n ==> Continues(f, s)
  }

  /** From offset j on, where one of the files has a hole, the walk went on behind sw: where in both files the next
      extent has been reached, or at the end of the request. */
  ghost predicate SkippedFrom(f1: seq<Extent>, f2: seq<Extent>, lblk1: nat, lblk2: nat, sw: seq<bool>, count: nat,
                              j: nat) {
    && j < |sw| && j < count && HoleHere(f1, f2, lblk1 + j, lblk2 + j) && (forall k :: j <= k < |sw| ==> !sw[k])
    && SkipsBy(f1, f2, lblk1 + j, lblk2 + j, |sw| - j, count - j)
  }

  ghost predicate SkipsBy(f1: seq<Extent>, f2: seq<Extent>, l1: nat, l2: nat, len: nat, count: nat) {
    exists n1, n2 :: SkipsTo(f1, f2, l1, l2, n1, n2, len, count)
  }

  ghost predicate SkipsTo(f1: seq<Extent>, f2: seq<Extent>, l1: nat, l2: nat, n1: nat, n2: nat, len: nat, count: nat) {
    && Follows(f1, l1, n1) && Follows(f2, l2, n2) && n1 < MAX_BLOCKS && n2 < MAX_BLOCKS
    && ReachesBoth(n1, n2, l1, l2, len, count)
  }

  /** How the walk got to offset |sw|: block by block where blocks were exchanged, and from hole to next extent. */
  ghost predicate Walked(f1: seq<Extent>, f2: seq<Extent>, lblk1: nat, lblk2: nat, sw: seq<bool>, count: nat)
    decreases |sw|
  {
    || sw == []
    || (sw[|sw|-1] && Walked(f1, f2, lblk1, lblk2, sw[..|sw|-1], count))
    || exists j: nat :: SkippedFrom(f1, f2, lblk1, lblk2, sw, count, j) && Walked(f1, f2, lblk1, lblk2, sw[..j], count)
  }

  /** Why the walk ends before the end of the request: at a hole, with nothing behind it in one of the files. */
  ghost predicate Over(f1: seq<Extent>, f2: seq<Extent>, l1: nat, l2: nat) {
    HoleHere(f1, f2, l1, l2) && (Follows(f1, l1, MAX_BLOCKS) || Follows(f2, l2, MAX_BLOCKS))
  }

  lemma {:induction false} WalkedSwapped(f1: seq<Extent>, f2: seq<Extent>, lblk1: nat, lblk2: nat, sw: seq<bool>,
                                         count: nat, len: nat)
    requires Walked(f1, f2, lblk1, lblk2, sw, count)
    ensures Walked(f1, f2, lblk1, lblk2, sw + Run(true, len), count)
  {
    var sw' := sw + Run(true, len);
    if len == 0 {
      assert sw' == sw;
    } else {
      WalkedSwapped(f1, f2, lblk1, lblk2, sw, count, len - 1);
      assert sw'[..|sw'|-1] == sw + Run(true, len - 1);
    }
  }

  lemma WalkedSkipped(f1: seq<Extent>, f2: seq<Extent>, lblk1: nat, lblk2: nat, sw: seq<bool>, count: nat, len: nat,
                      n1: nat, n2: nat)
    requires Walked(f1, f2, lblk1, lblk2, sw, count) && HoleHere(f1, f2, lblk1 + |sw|, lblk2 + |sw|) && |sw| < count
    requires SkipsTo(f1, f2, lblk1 + |sw|, lblk2 + |sw|, n1, n2, len, count - |sw|)
    ensures Walked(f1, f2, lblk1, lblk2, sw + Run(false, len), count)
  {
    var sw' := sw + Run(false, len);
    assert |sw'| - |sw| == len && sw'[..|sw|] == sw;
    assert SkippedFrom(f1, f2, lblk1, lblk2, sw', count, |sw|);
  }

  /** Behind block b no extent starts anew. */
  ghost predicate StartsKept(f: seq<Extent>, g: seq<Extent>, b: nat) {
    forall s :: s in Starts(g) && b < s ==> s in Starts(f)
  }

  /** From block b on the map is the same. */
  ghost predicate SameFrom(f: seq<Extent>, g: seq<Extent>, b: nat) {
    forall c: nat :: b <= c ==> At(g, c) == At(f, c)
  }

  /** An extent that no longer starts where it did was merged into the one before. */
  lemma LostStart(f: seq<Extent>, g: seq<Extent>, b: nat, s: nat)
    requires Sorted(f) && Sorted(g) && SameFrom(f, g, b) && b < s && s in Starts(f) && s !in Starts(g)
    ensures Continues(f, s)
  {
    AlignedStart(f, s);
    AlignedMapped(f, s);
    var i := CoveringOne(g, s);
    assert g[i] in g;
    AtHit(g, i, s);
    AtHit(g, i, s - 1);
    assert At(g, s) == At(f, s) && At(g, s - 1) == At(f, s - 1);
  }

  lemma CoveringOne(f: seq<Extent>, b: nat) returns (i: nat)
    requires At(f, b).Some?
    ensures i < |f| && Covers(f[i], b)
  {
    if forall j :: 0 <= j < |f| ==> !Covers(f[j], b) { AtNone(f, b); }
    i :| 0 <= i < |f| && Covers(f[i], b);
  }

  lemma NextFollows(f: seq<Extent>, g: seq<Extent>, b: nat, n: nat)
    requires Sorted(f) && Sorted(g) && SameFrom(f, g, b) && StartsKept(f, g, b) && Next(g, b, n)
    ensures Follows(f, b, n)
  {
    forall s | s in Starts(f) && b < s < n ensures Continues(f, s) { LostStart(f, g, b, s); }
  }

  lemma SwappingFrom(f1: seq<Extent>, f2: seq<Extent>, g1: seq<Extent>, g2: seq<Extent>, lblk1: nat, lblk2: nat,
                     sw: seq<bool>, unwritten: bool)
    requires Swapping(f1, f2, g1, g2, lblk1, lblk2, sw, unwritten)
    ensures SameFrom(f1, g1, lblk1 + |sw|) && SameFrom(f2, g2, lblk2 + |sw|)
  {
    forall c: nat | lblk1 + |sw| <= c ensures At(g1, c) == At(f1, c) {
      assert At(g1, c) == Wanted(f1, f2, lblk1, lblk2, sw, None, c);
    }
    forall c: nat | lblk2 + |sw| <= c ensures At(g2, c) == At(f2, c) {
      assert At(g2, c) == Wanted(f2, f1, lblk2, lblk1, sw, Some(unwritten), c);
    }
  }

  /** Both files and the walk so far; the last cut was ahead of the current offset. */
  ghost predicate Walking(f1: seq<Extent>, f2: seq<Extent>, g1: seq<Extent>, g2: seq<Extent>, lblk1: nat, lblk2: nat,
                          sw: seq<bool>, count: nat, ahead: nat, unwritten: bool) {
    && Sorted(f1) && Sorted(f2) && Swapping(f1, f2, g1, g2, lblk1, lblk2, sw, unwritten)
    && Walked(f1, f2, lblk1, lblk2, sw, count)
    && StartsKept(f1, g1, lblk1 + |sw| + ahead) && StartsKept(f2, g2, lblk2 + |sw| + ahead)
  }

  lemma WalkEnds(f1: seq<Extent>, f2: seq<Extent>, g1: seq<Extent>, g2: seq<Extent>, lblk1: nat, lblk2: nat,
                 l1: nat, l2: nat, sw: seq<bool>, count: nat, unwritten: bool)
    requires Walking(f1, f2, g1, g2, lblk1, lblk2, sw, count, 0, unwritten) && Sorted(g1) && Sorted(g2)
    requires l1 == lblk1 + |sw| && l2 == lblk2 + |sw| && NoMore(g1, g2, l1, l2)
    ensures Over(f1, f2, l1, l2)
  {
    SwappingFrom(f1, f2, g1, g2, lblk1, lblk2, sw, unwritten);
    assert At(g1, l1) == At(f1, l1) && At(g2, l2) == At(f2, l2);
    if Next(g1, l1, MAX_BLOCKS) { NextFollows(f1, g1, l1, MAX_BLOCKS); }
    if Next(g2, l2, MAX_BLOCKS) { NextFollows(f2, g2, l2, MAX_BLOCKS); }
  }

  lemma WalkSkips(f1: seq<Extent>, f2: seq<Extent>, g1: seq<Extent>, g2: seq<Extent>, lblk1: nat, lblk2: nat,
                  l1: nat, l2: nat, sw: seq<bool>, count: nat, left: nat, len: nat, unwritten: bool)
    requires Walking(f1, f2, g1, g2, lblk1, lblk2, sw, count, 0, unwritten) && Sorted(g1) && Sorted(g2)
    requires l1 == lblk1 + |sw| && l2 == lblk2 + |sw| && left == count - |sw| && |sw| < count
    requires HoleHere(g1, g2, l1, l2) && Leaps(g1, g2, l1, l2, len, left)
    ensures Walking(f1, f2, g1, g2, lblk1, lblk2, sw + Run(false, len), count, 0, unwritten)
  {
    SwappingFrom(f1, f2, g1, g2, lblk1, lblk2, sw, unwritten);
    assert At(g1, l1) == At(f1, l1) && At(g2, l2) == At(f2, l2);
    var n1, n2 :| Leap(g1, g2, l1, l2, n1, n2, len, left);
    NextFollows(f1, g1, l1, n1);
    NextFollows(f2, g2, l2, n2);
    WalkedSkipped(f1, f2, lblk1, lblk2, sw, count, len, n1, n2);
    SwapSkip(f1, f2, g1, g2, lblk1, lblk2, sw, len, unwritten);
  }

  lemma WalkSwaps(f1: seq<Extent>, f2: seq<Extent>, g1: seq<Extent>, g2: seq<Extent>, h1: seq<Extent>, h2: seq<Extent>,
                  lblk1: nat, lblk2: nat, l1: nat, l2: nat, sw: seq<bool>, count: nat, left: nat, ahead: nat, len: nat,
                  unwritten: bool)
    requires Walking(f1, f2, g1, g2, lblk1, lblk2, sw, count, ahead, unwritten) && ahead <= len
    requires l1 == lblk1 + |sw| && l2 == lblk2 + |sw| && Done(Swapped(len), g1, g2, h1, h2, l1, l2, left, unwritten)
    ensures Walking(f1, f2, h1, h2, lblk1, lblk2, sw + Run(true, len), count, 0, unwritten)
  {
    var sw' := sw + Run(true, len);
    assert Swapping(f1, f2, h1, h2, lblk1, lblk2, sw', unwritten) by {
      SwapStep(f1, f2, g1, g2, h1, h2, lblk1, lblk2, l1, l2, sw, len, unwritten);
    }
    assert Walked(f1, f2, lblk1, lblk2, sw', count) by { WalkedSwapped(f1, f2, lblk1, lblk2, sw, count, len); }
    KeptOn(f1, g1, h1, lblk1 + |sw| + ahead, lblk1 + |sw'|);
    KeptOn(f2, g2, h2, lblk2 + |sw| + ahead, lblk2 + |sw'|);
  }

  lemma KeptOn(f: seq<Extent>, g: seq<Extent>, h: seq<Extent>, b: nat, c: nat)
    requires StartsKept(f, g, b) && Starts(h) <= Starts(g) && b <= c
    ensures StartsKept(f, h, c)
  {
  }

  lemma WalkCuts(f1: seq<Extent>, f2: seq<Extent>, g1: seq<Extent>, g2: seq<Extent>, h1: seq<Extent>, h2: seq<Extent>,
                 lblk1: nat, lblk2: nat, l1: nat, l2: nat, sw: seq<bool>, count: nat, ahead: nat, unwritten: bool)
    requires Walking(f1, f2, g1, g2, lblk1, lblk2, sw, count, 0, unwritten) && SameBlocks(g1, h1) && SameBlocks(g2, h2)
    requires l1 == lblk1 + |sw| && l2 == lblk2 + |sw| && CutBothAt(g1, g2, h1, h2, l1 + ahead, l2 + ahead)
    ensures Walking(f1, f2, h1, h2, lblk1, lblk2, sw, count, ahead, unwritten)
  {
    SwapRecut(f1, f2, g1, g2, h1, h2, lblk1, lblk2, sw, unwritten);
    KeptCut(f1, g1, h1, l1, l1 + ahead);
    KeptCut(f2, g2, h2, l2, l2 + ahead);
  }

  lemma KeptCut(f: seq<Extent>, g: seq<Extent>, h: seq<Extent>, b: nat, c: nat)
    requires StartsKept(f, g, b) && CutOnlyAt(g, h, c) && b <= c
    ensures StartsKept(f, h, c)
  {
  }

  /** The state of the loop: what has been dealt with, and where it goes on or why it ends. */
  ghost predicate LoopState(r: Status, n: nat, l1: nat, l2: nat, left: nat, sw: seq<bool>, stage: nat, fit: nat,
                            f1: seq<Extent>, f2: seq<Extent>, g1: seq<Extent>, g2: seq<Extent>, lblk1: nat, lblk2: nat,
                            count: nat, unwritten: bool) {
    && n == Trues(sw) && |sw| <= count && Walked(f1, f2, lblk1, lblk2, sw, count)
    && Swapping(f1, f2, g1, g2, lblk1, lblk2, sw, unwritten)
    && if left > 0
       then
         && r == Ok && |sw| + left == count && l1 == lblk1 + |sw| && l2 == lblk2 + |sw|
         && Ready(stage, fit, g1, g2, l1, l2, left)
         && Walking(f1, f2, g1, g2, lblk1, lblk2, sw, count, Ahead(stage, fit), unwritten)
       else r == Ok ==> |sw| == count || Over(f1, f2, lblk1 + |sw|, lblk2 + |sw|)
  }

  lemma AfterSkip(n: nat, l1: nat, l2: nat, left: nat, sw: seq<bool>, stage: nat, fit: nat, fit': nat, len: nat,
                  f1: seq<Extent>, f2: seq<Extent>, g1: seq<Extent>, g2: seq<Extent>, lblk1: nat, lblk2: nat,
                  count: nat, unwritten: bool)
    requires LoopState(Ok, n, l1, l2, left, sw, stage, fit, f1, f2, g1, g2, lblk1, lblk2, count, unwritten) && left > 0
    requires Sorted(g1) && Sorted(g2) && 0 < len <= left && stage >= 2
    requires HoleHere(g1, g2, l1, l2) && Leaps(g1, g2, l1, l2, len, left)
    ensures LoopState(Ok, n, l1 + len, l2 + len, left - len, sw + Run(false, len), 2, fit', f1, f2, g1, g2, lblk1,
                      lblk2, count, unwritten)
  {
    WalkSkips(f1, f2, g1, g2, lblk1, lblk2, l1, l2, sw, count, left, len, unwritten);
    TruesRun(sw, false, len);
  }

  lemma AfterSwap(n: nat, l1: nat, l2: nat, left: nat, sw: seq<bool>, stage: nat, fit: nat, fit': nat, len: nat,
                  f1: seq<Extent>, f2: seq<Extent>, g1: seq<Extent>, g2: seq<Extent>, h1: seq<Extent>, h2: seq<Extent>,
                  lblk1: nat, lblk2: nat, count: nat, unwritten: bool)
    requires LoopState(Ok, n, l1, l2, left, sw, stage, fit, f1, f2, g1, g2, lblk1, lblk2, count, unwritten) && left > 0
    requires 0 < len <= left && (stage == 0 ==> len == fit) &&
               Done(Swapped(len), g1, g2, h1, h2, l1, l2, left, unwritten)
    ensures LoopState(Ok, n + len, l1 + len, l2 + len, left - len, sw + Run(true, len), 2, fit', f1, f2, h1, h2, lblk1,
                      lblk2, count, unwritten)
  {
    WalkSwaps(f1, f2, g1, g2, h1, h2, lblk1, lblk2, l1, l2, sw, count, left, Ahead(stage, fit), len, unwritten);
    TruesRun(sw, true, len);
  }

  /** Advance by what the round has dealt with. */
  method Advance(r: Status, step: Step, n: nat, l1: nat, l2: nat, left: nat, ghost sw: seq<bool>, ghost stage: nat,
                 ghost fit: nat, ghost stage': nat, ghost fit': nat, ghost f1: seq<Extent>, ghost f2: seq<Extent>,
                 ghost g1: seq<Extent>, ghost g2: seq<Extent>, ghost h1: seq<Extent>, ghost h2: seq<Extent>,
                 ghost lblk1: nat, ghost lblk2: nat, ghost count: nat, ghost unwritten: bool)
    returns (n': nat, l1': nat, l2': nat, left': nat, ghost sw': seq<bool>, ghost stage'': nat)
    requires LoopState(Ok, n, l1, l2, left, sw, stage, fit, f1, f2, g1, g2, lblk1, lblk2, count, unwritten) && left > 0
    requires Sorted(g1) && Sorted(g2)
    requires Rounded(r, step, stage, fit, stage', fit', g1, g2, h1, h2, l1, l2, left, unwritten)
    ensures LoopState(r, n', l1', l2', left', sw', stage'', fit', f1, f2, h1, h2, lblk1, lblk2, count, unwritten)
    ensures step == Stop ==> left' == 0
    ensures step == Cut ==> left' == left && stage'' == stage' < stage && sw' == sw
    ensures step.Swapped? || step.Skipped? ==> left' < left && stage'' == 2 && |sw| < |sw'|
  {
    n', l1', l2', left', sw', stage'' := n, l1, l2, left, sw, stage';
    match step {
      case Skipped(len) =>
        l1', l2', left', sw', stage'' := l1 + len, l2 + len, left - len, sw + Run(false, len), 2;
        AfterSkip(n, l1, l2, left, sw, stage, fit, fit', len, f1, f2, g1, g2, lblk1, lblk2, count, unwritten);
      case Swapped(len) =>
        n', l1', l2', left', sw', stage'' := n + len, l1 + len, l2 + len, left - len, sw + Run(true, len), 2;
        AfterSwap(n, l1, l2, left, sw, stage, fit, fit', len, f1, f2, g1, g2, h1, h2, lblk1, lblk2, count, unwritten);
      case Cut =>
        WalkCuts(f1, f2, g1, g2, h1, h2, lblk1, lblk2, l1, l2, sw, count, Ahead(stage', fit'), unwritten);
      case Stop =>
        left' := 0;
        if r == Ok { WalkEnds(f1, f2, g1, g2, lblk1, lblk2, l1, l2, sw, count, unwritten); }
        SwapRecut(f1, f2, g1, g2, h1, h2, lblk1, lblk2, sw, unwritten);
    }
  }
}
