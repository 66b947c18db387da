/**
  Runs of contiguous blocks and what becomes of them when their length is stored in the
  16 bits of an extent (ext4/migrate.c).
 */
module MigrateRuns {
  import opened Wrappers
  import opened Extents

  /** A run of blocks, contiguous logically and physically. */
  datatype Run = Run(block: nat, len: nat, pblk: nat)

  function Stop(r: Run): nat {
    r.block + r.len
  }

  predicate Inside(r: Run, b: nat) {
    r.block <= b < Stop(r)
  }

  /** The extent that finish_range makes of a run: the length loses its high bits. */
  function Encode(r: Run): Extent {
    Extent(r.block, r.len % 0x10000, r.pblk)
  }

  ghost function Encoded(s: seq<Run>): (r: seq<Extent>)
    ensures |r| == |s| && forall i :: 0 <= i < |s| ==> r[i] == Encode(s[i])
  {
    if s == [] then [] else Encoded(s[..|s|-1]) + [Encode(s[|s|-1])]
  }

  /** Sorted, disjoint, and no two neighbours form one longer run. */
  ghost predicate Maximal(s: seq<Run>) {
    && (forall i :: 0 <= i < |s| ==> 0 < s[i].len && 0 < s[i].pblk)
    && (forall i, j :: 0 <= i < j < |s| ==> Stop(s[i]) <= s[j].block && !Touch(s[i], s[j]))
  }

  predicate Touch(r: Run, t: Run) {
    Stop(r) == t.block && r.pblk + r.len == t.pblk
  }

  /** The runs hold exactly the mapped blocks among vals, where 0 stands for a hole. */
  ghost predicate Expands(s: seq<Run>, vals: seq<nat>) {
    && (forall i :: 0 <= i < |s| ==> Shows(s[i], vals))
    && (forall b :: 0 <= b < |vals| && vals[b] != 0 ==> Held(s, b))
  }

  ghost predicate Shows(r: Run, vals: seq<nat>) {
    Stop(r) <= |vals| && forall b :: r.block <= b < Stop(r) ==> vals[b] == r.pblk + (b - r.block)
  }

  ghost predicate Held(s: seq<Run>, b: nat) {
    exists i :: 0 <= i < |s| && Inside(s[i], b)
  }

  /** More than 0x8000 blocks in a row. */
  ghost predicate LongRun(vals: seq<nat>, b: nat) {
    b + INIT_MAX_LEN < |vals| && vals[b] != 0 && forall j :: b <= j <= b + INIT_MAX_LEN ==> vals[j] == vals[b] + (j - b)
  }

  ghost predicate NoLongRun(vals: seq<nat>) {
    forall b :: 0 <= b < |vals| ==> !LongRun(vals, b)
  }

  /** What the file maps, as written extents would. */
  ghost function Wanted(vals: seq<nat>, b: nat): Option<Cell> {
    if b < |vals| && vals[b] != 0 then Some(Cell(vals[b], false)) else None
  }

  // -------------------------------------------------------- the runs of a file

  /** The maximal runs of the blocks vals. */
  ghost function RunsOf(vals: seq<nat>): seq<Run> {
    if vals == [] then [] else NextRuns(RunsOf(vals[..|vals|-1]), |vals| - 1, vals[|vals|-1])
  }

  /** One more block p behind n blocks with the runs s: a hole, the last run goes on, or a new one starts. */
  ghost function NextRuns(s: seq<Run>, n: nat, p: nat): seq<Run> {
    if p == 0 then s
    else if s != [] &&
        Touch(s[|s|-1], Run(n, 1, p)) then s[..|s|-1] + [Run(s[|s|-1].block, s[|s|-1].len + 1, s[|s|-1].pblk)]
    else s + [Run(n, 1, p)]
  }

  lemma RunsSnoc(vals: seq<nat>, p: nat)
    ensures RunsOf(vals + [p]) == NextRuns(RunsOf(vals), |vals|, p)
  {
    assert (vals + [p])[..|vals|] == vals;
  }

  lemma {:induction false} RunsSkip(vals: seq<nat>, holes: seq<nat>)
    requires forall i :: 0 <= i < |holes| ==> holes[i] == 0
    ensures RunsOf(vals + holes) == RunsOf(vals)
    decreases |holes|
  {
    if holes == [] {
      assert vals + holes == vals;
    } else {
      var h := holes[..|holes|-1];
      RunsSkip(vals, h);
      assert vals + holes == (vals + h) + [0];
      RunsSnoc(vals + h, 0);
    }
  }

  lemma {:induction false} RunsOfFacts(vals: seq<nat>)
    ensures Maximal(RunsOf(vals)) && Expands(RunsOf(vals), vals)
  {
    if vals != [] {
      var v, p := vals[..|vals|-1], vals[|vals|-1];
      RunsOfFacts(v);
      assert vals == v + [p];
      NextFacts(RunsOf(v), v, p, vals);
    }
  }

  lemma NextFacts(s: seq<Run>, v: seq<nat>, p: nat, w: seq<nat>)
    requires Maximal(s) && Expands(s, v) && w == v + [p]
    ensures Maximal(NextRuns(s, |v|, p)) && Expands(NextRuns(s, |v|, p), w)
  {
    if p == 0 {
      Skipped(s, v, w);
    } else if s != [] && Touch(s[|s|-1], Run(|v|, 1, p)) {
      LastExtended(s, s[..|s|-1], s[|s|-1], v, p);
    } else {
      Started(s, v, p);
    }
  }

  lemma LastExtended(s: seq<Run>, a: seq<Run>, r: Run, v: seq<nat>, p: nat)
    requires s != [] && a == s[..|s|-1] && r == s[|s|-1] && Maximal(s) && Expands(s, v) && Touch(r, Run(|v|, 1, p))
    ensures Maximal(a + [Run(r.block, r.len + 1, r.pblk)]) && Expands(a + [Run(r.block, r.len + 1, r.pblk)], v + [p])
  {
    assert a + [r] == s;
    Extended(a, r, v, p);
  }

  /** The runs that no later block can lengthen. */
  ghost function Complete(vals: seq<nat>): seq<Run> {
    var s := RunsOf(vals);
    if s == [] then [] else s[..|s|-1]
  }

  lemma {:induction false} CompleteMore(v: seq<nat>, w: seq<nat>)
    requires v <= w
    ensures Complete(v) <= Complete(w) <= RunsOf(w)
    decreases |w|
  {
    if |v| < |w| {
      var u := w[..|w|-1];
      CompleteMore(v, u);
      assert w == u + [w[|w|-1]];
      RunsSnoc(u, w[|w|-1]);
    } else {
      assert v == w;
    }
  }

  /** Some length is lost altogether in 16 bits. */
  ghost predicate Wraps(s: seq<Run>) {
    exists i :: 0 <= i < |s| && s[i].len % 0x10000 == 0
  }

  lemma WrapsSnoc(s: seq<Run>, r: Run)
    ensures Wraps(s + [r]) <==> Wraps(s) || r.len % 0x10000 == 0
  {
    var u := s + [r];
    assert u[|s|] == r && forall i :: 0 <= i < |s| ==> u[i] == s[i];
  }

  lemma WrapsLong(vals: seq<nat>)
    ensures Wraps(RunsOf(vals)) ==> !NoLongRun(vals)
  {
    RunsOfFacts(vals);
    FitsIff(RunsOf(vals), vals);
  }

  /** A run stays in place when the file goes on. */
  lemma StillShows(s: seq<Run>, vals: seq<nat>, w: seq<nat>)
    requires Expands(s, vals) && vals <= w
    ensures forall i :: 0 <= i < |s| ==> Shows(s[i], w)
  {
    forall i | 0 <= i < |s| ensures Shows(s[i], w) {
      forall b | s[i].block <= b < Stop(s[i]) ensures w[b] == s[i].pblk + (b - s[i].block) { assert w[b] == vals[b]; }
    }
  }

  /** Holes do not disturb the runs. */
  lemma Skipped(s: seq<Run>, vals: seq<nat>, w: seq<nat>)
    requires Expands(s, vals) && vals <= w && forall b :: |vals| <= b < |w| ==> w[b] == 0
    ensures Expands(s, w)
  {
    StillShows(s, vals, w);
    forall b | 0 <= b < |w| && w[b] != 0 ensures Held(s, b) { assert vals[b] == w[b]; }
  }

  /** Runs that cover what the old ones covered, and the one new block. */
  lemma CoverNext(u: seq<Run>, u': seq<Run>, vals: seq<nat>, w: seq<nat>)
    requires Expands(u, vals) && |u| <= |u'| && u' != [] && |w| == |vals| + 1 && vals <= w
    requires forall i :: 0 <= i < |u'| ==> Shows(u'[i], w)
    requires forall i :: 0 <= i < |u| ==> u'[i].block == u[i].block && u[i].len <= u'[i].len
    requires Inside(u'[|u'|-1], |vals|)
    ensures Expands(u', w)
  {
    forall b | 0 <= b < |w| && w[b] != 0 ensures Held(u', b) {
      if b < |vals| {
        assert vals[b] == w[b] && Held(u, b);
        var i :| 0 <= i < |u| && Inside(u[i], b);
        assert Inside(u'[i], b);
      }
    }
  }

  /** The last run grows by the next block. */
  lemma Extended(s: seq<Run>, r: Run, vals: seq<nat>, p: nat)
    requires Maximal(s + [r]) && Expands(s + [r], vals) && Stop(r) == |vals| && p == r.pblk + r.len
    ensures Maximal(s + [Run(r.block, r.len + 1, r.pblk)]) && Expands(s + [Run(r.block, r.len + 1, r.pblk)], vals + [p])
  {
    var r' := Run(r.block, r.len + 1, r.pblk);
    var u, u', w := s + [r], s + [r'], vals + [p];
    assert u[|s|] == r && forall i :: 0 <= i < |s| ==> u[i] == u'[i];
    ExtendedMaximal(u, u');
    StillShows(u, vals, w);
    assert Shows(u[|s|], w);
    assert Shows(r', w);
    CoverNext(u, u', vals, w);
  }

  lemma ExtendedMaximal(u: seq<Run>, u': seq<Run>)
    requires Maximal(u) && u != [] && |u'| == |u| && forall i :: 0 <= i < |u| - 1 ==> u'[i] == u[i]
    requires var r := u[|u|-1]; u'[|u|-1] == Run(r.block, r.len + 1, r.pblk)
    ensures Maximal(u')
  {
    forall i, j | 0 <= i < j < |u'| ensures Stop(u'[i]) <= u'[j].block && !Touch(u'[i], u'[j]) {
      assert Stop(u[i]) <= u[j].block && !Touch(u[i], u[j]);
    }
  }

  /** A new run starts with the next block. */
  lemma Started(s: seq<Run>, vals: seq<nat>, p: nat)
    requires Maximal(s) && Expands(s, vals) && 0 < p
    requires s != [] ==> !Touch(s[|s|-1], Run(|vals|, 1, p))
    ensures Maximal(s + [Run(|vals|, 1, p)]) && Expands(s + [Run(|vals|, 1, p)], vals + [p])
  {
    var r := Run(|vals|, 1, p);
    var u, w := s + [r], vals + [p];
    forall i, j | 0 <= i < j < |u| ensures Stop(u[i]) <= u[j].block && !Touch(u[i], u[j]) {
      assert j == |s| ==> Shows(s[i], vals);
      if j == |s| && i < |s| - 1 { assert Stop(s[i]) <= s[|s|-1].block && Shows(s[|s|-1], vals); }
    }
    StillShows(s, vals, w);
    CoverNext(s, u, vals, w);
  }

  // ------------------------------------------------- runs and long stretches

  lemma OtherRuns(s: seq<Run>, i: nat, b: nat)
    requires Maximal(s) && i < |s| && Inside(s[i], b)
    ensures forall j :: 0 <= j < |s| && j != i ==> !Inside(s[j], b)
  {
  }

  /** A stretch of contiguous blocks lies inside one run. */
  lemma {:induction false} StretchInRun(s: seq<Run>, vals: seq<nat>, b: nat, i: nat, n: nat)
    requires Maximal(s) && Expands(s, vals) && i < |s| && Inside(s[i], b)
    requires b + n < |vals| && forall j :: b <= j <= b + n ==> vals[j] == vals[b] + (j - b)
    ensures b + n < Stop(s[i])
    decreases n
  {
    if n > 0 {
      StretchInRun(s, vals, b, i, n - 1);
      var e := b + n;
      if e == Stop(s[i]) {
        assert vals[b] == s[i].pblk + (b - s[i].block);
        assert vals[e] == s[i].pblk + s[i].len && Held(s, e);
        var k :| 0 <= k < |s| && Inside(s[k], e);
        NextTouches(s, vals, i, k);
      }
    }
  }

  /** The run that starts where run i stops does not continue it. */
  lemma NextTouches(s: seq<Run>, vals: seq<nat>, i: nat, k: nat)
    requires Maximal(s) && Expands(s, vals) && i < |s| && k < |s| && Inside(s[k], Stop(s[i]))
    ensures Stop(s[i]) < |vals| && vals[Stop(s[i])] != s[i].pblk + s[i].len
  {
    assert i < k ==> s[k].block == Stop(s[i]) && !Touch(s[i], s[k]);
    assert Inside(s[k], Stop(s[i]));
  }

  /** All maximal runs fit into an extent exactly when the file has no long stretch. */
  lemma FitsIff(s: seq<Run>, vals: seq<nat>)
    requires Maximal(s) && Expands(s, vals)
    ensures (forall i :: 0 <= i < |s| ==> s[i].len <= INIT_MAX_LEN) <==> NoLongRun(vals)
  {
    if !NoLongRun(vals) {
      var b :| 0 <= b < |vals| && LongRun(vals, b);
      assert Held(s, b);
      var i :| 0 <= i < |s| && Inside(s[i], b);
      StretchInRun(s, vals, b, i, INIT_MAX_LEN);
    } else {
      forall i | 0 <= i < |s| ensures s[i].len <= INIT_MAX_LEN {
        if s[i].len > INIT_MAX_LEN { RunIsLong(s, vals, i); }
      }
    }
  }

  lemma RunIsLong(s: seq<Run>, vals: seq<nat>, i: nat)
    requires Maximal(s) && Expands(s, vals) && i < |s| && s[i].len > INIT_MAX_LEN
    ensures s[i].block < |vals| && LongRun(vals, s[i].block)
  {
    var b := s[i].block;
    assert Inside(s[i], b);
    forall j | b <= j <= b + INIT_MAX_LEN ensures vals[j] == vals[b] + (j - b) { assert Inside(s[i], j); }
  }

  // --------------------------------------------------------- encoded extents

  lemma EncodeCovers(r: Run)
    ensures Len(Encode(r)) <= r.len && Encode(r).block == r.block
    ensures r.len <= INIT_MAX_LEN ==> Len(Encode(r)) == r.len && !Unwritten(Encode(r))
    ensures r.len > INIT_MAX_LEN ==> Len(Encode(r)) < r.len
  {
  }

  lemma {:induction false} EncodedAt(s: seq<Run>, i: nat, b: nat)
    requires Maximal(s) && i < |s| && Inside(s[i], b)
    ensures At(Encoded(s), b) == if Covers(Encode(s[i]), b) then Some(CellOf(Encode(s[i]), b)) else None
  {
    var e := Encoded(s);
    OtherRuns(s, i, b);
    forall j | 0 <= j < |e| && j != i ensures !Covers(e[j], b) { EncodeCovers(s[j]); }
    if Covers(e[i], b) {
      assert e == e[..i] + [e[i]] + e[i+1..];
      AtNone(e[..i], b);
      AtConcat3(e[..i], [e[i]], e[i+1..], b);
      AtOne(e[i], b);
    } else {
      AtNone(e, b);
    }
  }

  lemma EncodedNone(s: seq<Run>, b: nat)
    requires !Held(s, b)
    ensures At(Encoded(s), b) == None
  {
    var e := Encoded(s);
    forall j | 0 <= j < |e| ensures !Covers(e[j], b) {
      EncodeCovers(s[j]);
      assert !Inside(s[j], b);
    }
    AtNone(e, b);
  }

  /** The extents made of the runs map what the file maps exactly when the file has no stretch of
      more than 0x8000 contiguous blocks. */
  lemma EncodedMapIff(s: seq<Run>, vals: seq<nat>)
    requires Maximal(s) && Expands(s, vals)
    ensures (forall b: nat :: At(Encoded(s), b) == Wanted(vals, b)) <==> NoLongRun(vals)
  {
    FitsIff(s, vals);
    if NoLongRun(vals) {
      forall b: nat ensures At(Encoded(s), b) == Wanted(vals, b) { FaithfulAt(s, vals, b); }
    } else {
      var i :| 0 <= i < |s| && s[i].len > INIT_MAX_LEN;
      LongDiffers(s, vals, i, Stop(s[i]) - 1);
    }
  }

  /** The last block of a run that is too long is not mapped. */
  lemma LongDiffers(s: seq<Run>, vals: seq<nat>, i: nat, b: nat)
    requires Maximal(s) && Expands(s, vals) && i < |s| && s[i].len > INIT_MAX_LEN && b == Stop(s[i]) - 1
    ensures At(Encoded(s), b) != Wanted(vals, b)
  {
    EncodeCovers(s[i]);
    assert Inside(s[i], b);
    EncodedAt(s, i, b);
  }

  lemma InsideWanted(r: Run, vals: seq<nat>, b: nat)
    requires Shows(r, vals) && 0 < r.pblk && r.len <= INIT_MAX_LEN && Inside(r, b)
    ensures Covers(Encode(r), b) && Wanted(vals, b) == Some(CellOf(Encode(r), b))
  {
    EncodeCovers(r);
  }

  lemma FaithfulAt(s: seq<Run>, vals: seq<nat>, b: nat)
    requires Maximal(s) && Expands(s, vals) && forall i :: 0 <= i < |s| ==> s[i].len <= INIT_MAX_LEN
    ensures At(Encoded(s), b) == Wanted(vals, b)
  {
    if Held(s, b) {
      var i :| 0 <= i < |s| && Inside(s[i], b);
      EncodedAt(s, i, b);
      InsideWanted(s[i], vals, b);
    } else {
      EncodedNone(s, b);
    }
  }
}
