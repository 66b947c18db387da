/**
  Removing a block range from the extents of one leaf, from the right end on
  (ext4/extents.c): the loop of ext4_ext_rm_leaf, for cluster ratio 1.
 */
module ExtentRemove {
  import opened Blocks
  import opened Extents
  import opened ExtentCut

  // ---------------------------------------------------------------- one leaf

  /** r with its entries above ex already cut. */
  ghost function CutAbove(exts: seq<Extent>, ex: int, from: nat, start: nat, end: nat): seq<Extent>
    requires -1 <= ex <= from < |exts|
  {
    exts[..ex+1] + Cut(exts[ex+1..from+1], start, end) + exts[from+1..]
  }

  lemma Slices(exts: seq<Extent>, ex: nat, from: nat)
    requires ex <= from < |exts|
    ensures exts[..ex+1] == exts[..ex] + [exts[ex]]
    ensures exts[ex..from+1][0] == exts[ex] && exts[ex..from+1][1..] == exts[ex+1..from+1]
  {
  }

  lemma Splice(a: seq<Extent>, x: Extent, c: seq<Extent>, tail: seq<Extent>, y: seq<Extent>, r: seq<Extent>)
    requires r == (a + [x]) + c + tail
    ensures |a| < |r| && r[|a|] == x && r[..|a|] == a && r[|a|+1..] == c + tail
    ensures a + (y + c) + tail == r[..|a|] + y + r[|a|+1..]
  {
  }

  /** One entry further down. */
  lemma LeafStep(exts: seq<Extent>, ex: nat, from: nat, start: nat, end: nat, r: seq<Extent>)
    requires ex <= from < |exts| && r == CutAbove(exts, ex, from, start, end)
    ensures ex < |r| && r[ex] == exts[ex] && r[..ex] == exts[..ex]
    ensures r[ex+1..] == Cut(exts[ex+1..from+1], start, end) + exts[from+1..]
    ensures CutAbove(exts, ex - 1, from, start, end) == r[..ex] + Trim(exts[ex], start, end) + r[ex+1..]
  {
    Slices(exts, ex, from);
    Splice(exts[..ex], exts[ex], Cut(exts[ex+1..from+1], start, end), exts[from+1..], Trim(exts[ex], start, end), r);
  }

  lemma TrimOwns(e: Extent, start: nat, end: nat, p: nat)
    requires ValidExtent(e) && start < End(e) && e.block <= end
    ensures var num := if start <= e.block then 0 else start - e.block;
            Owns(Trim(e, start, end), p) + InRun(e.pblk + num, Len(e) - num, p) == InRun(e.pblk, Len(e), p)
  {
    if e.block < start {
      OwnsOne(Trim(e, start, end)[0], p);
    }
  }

  lemma OwnsMiddle(a: seq<Extent>, m: seq<Extent>, c: seq<Extent>, p: nat)
    ensures Owns(a + m + c, p) == Owns(a, p) + Owns(m, p) + Owns(c, p)
  {
    OwnsConcat(a + m, c, p);
    OwnsConcat(a, m, p);
  }

  /** Every data block that left the extents went to the log, and nothing else did. */
  ghost predicate Balanced(log: seq<Freed>, s: seq<Extent>, log': seq<Freed>, s': seq<Extent>) {
    && (forall p :: FreedData(log', p) + Owns(s', p) == FreedData(log, p) + Owns(s, p))
    && (forall b :: FreedMeta(log', b) == FreedMeta(log, b))
  }

  lemma BalancedTrans(l0: seq<Freed>, s0: seq<Extent>, l1: seq<Freed>, s1: seq<Extent>, l2: seq<Freed>, s2: seq<Extent>)
    requires Balanced(l0, s0, l1, s1) && Balanced(l1, s1, l2, s2)
    ensures Balanced(l0, s0, l2, s2)
  {
    forall p ensures FreedData(l2, p) + Owns(s2, p) == FreedData(l0, p) + Owns(s0, p) {
      assert FreedData(l1, p) + Owns(s1, p) == FreedData(l0, p) + Owns(s0, p);
    }
  }

  /** Freeing the blocks that Trim drops, one extent of the leaf at a time. */
  lemma FreeStep(r: seq<Extent>, ex: nat, start: nat, end: nat, log: seq<Freed>, num: nat)
    requires ex < |r| && ValidExtent(r[ex]) && start < End(r[ex]) && r[ex].block <= end
    requires num == if start <= r[ex].block then 0 else start - r[ex].block
    ensures Balanced(log, r, [Data(r[ex].pblk + num, Len(r[ex]) - num)] + log,
                     r[..ex] + Trim(r[ex], start, end) + r[ex+1..])
  {
    var e := r[ex];
    var log' := [Data(e.pblk + num, Len(e) - num)] + log;
    assert log'[1..] == log;
    assert r == r[..ex] + [e] + r[ex+1..];
    forall p
      ensures FreedData(log', p) + Owns(r[..ex] + Trim(e, start, end) + r[ex+1..], p) == FreedData(log, p) + Owns(r, p)
    {
      OwnsMiddle(r[..ex], [e], r[ex+1..], p);
      OwnsMiddle(r[..ex], Trim(e, start, end), r[ex+1..], p);
      OwnsOne(e, p);
      TrimOwns(e, start, end, p);
    }
  }

  /** What the loop of ext4_ext_rm_leaf knows with entry ex next. */
  ghost predicate TrimInv(exts: seq<Extent>, ex: int, from: nat, start: nat, end: nat, r: seq<Extent>) {
    && -1 <= ex <= from < |exts| && r == CutAbove(exts, ex, from, start, end)
    && ex < |r| && (ex >= 0 ==> r[ex] == exts[ex])
    && (end == MAX_BLOCKS - 1 ==> Cut(exts[ex+1..from+1], start, end) == [] || ex < 0 || End(exts[ex]) <= start)
  }

  /** The part of ext4_ext_rm_leaf that edits entry ex: num blocks stay. When the
      range ends at the end of the file the entry is known to be the last. */
  method EditEntry(r: seq<Extent>, ex: nat, num: nat, start: nat, end: nat) returns (r': seq<Extent>)
    requires ex < |r| && ValidExtent(r[ex]) && start < End(r[ex]) && r[ex].block <= end
    requires num == if start <= r[ex].block then 0 else start - r[ex].block
    requires end == MAX_BLOCKS - 1 ==> ex + 1 == |r|
    ensures r' == r[..ex] + Trim(r[ex], start, end) + r[ex+1..]
  {
    if num == 0 {
      if end != MAX_BLOCKS - 1 {
        r' := r[..ex] + r[ex+1..];
      } else {
        r' := r[..|r|-1];
      }
    } else {
      r' := r[ex := r[ex].(eeLen := if Unwritten(r[ex]) then INIT_MAX_LEN + num else num)];
    }
  }

  /** Free what the range covers of entry ex, then edit the entry. */
  method TrimEntry(ghost exts: seq<Extent>, ex: nat, ghost next: int, ghost from: nat, start: nat, end: nat,
                   r: seq<Extent>, log: seq<Freed>)
    returns (r': seq<Extent>, log': seq<Freed>)
    requires Sorted(exts) && TrimInv(exts, ex, from, start, end, r)
    requires end == MAX_BLOCKS - 1 ==> from + 1 == |exts|
    requires start < End(exts[ex]) && exts[ex].block <= end && next == ex - 1
    ensures TrimInv(exts, next, from, start, end, r')
    ensures ex > 0 ==> r' != [] && r'[0] == exts[0]
    ensures Balanced(log, r, log', r')
  {
    var e := r[ex];
    assert ValidExtent(e);
    var num := if e.block > start then 0 else start - e.block;
    FreeStep(r, ex, start, end, log, num);
    LastEntry(exts, ex, from, start, end, r);
    EditStep(exts, ex, from, start, end, r);
    log' := [Data(e.pblk + num, Len(e) - num)] + log;
    r' := EditEntry(r, ex, num, start, end);
  }

  /** The loop of ext4_ext_rm_leaf, from entry from downwards. */
  method TrimLeaf(exts: seq<Extent>, from: nat, start: nat, end: nat, log: seq<Freed>)
    returns (ok: bool, r: seq<Extent>, firstHit: bool, log': seq<Freed>)
    requires Sorted(exts) && from < |exts| && start <= end < MAX_BLOCKS
    requires end == MAX_BLOCKS - 1 ==> from + 1 == |exts|
    ensures ok ==> r == Cut(exts[..from+1], start, end) + exts[from+1..]
    ensures ok <==> NoStraddle(exts[..from+1], end)
    ensures ok && r != [] && !firstHit ==> r[0].block == exts[0].block
    ensures ok ==> Balanced(log, exts, log', r)
  {
    r, firstHit, log', ok := exts, false, log, true;
    var ex: int := from;
    TrimStart(exts, from, start, end);
    while ex >= 0 && End(r[ex]) > start
      invariant TrimInv(exts, ex, from, start, end, r) && Passed(exts, ex, from, end)
      invariant !firstHit && r != [] ==> r[0].block == exts[0].block
      invariant Balanced(log, exts, log', r)
    {
      var e, at := r[ex], ex;
      var b := if End(e) - 1 < end then End(e) - 1 else end;
      ghost var r0, log0 := r, log';
      ex := at - 1;
      if end < e.block {
        SkipStep(exts, at, ex, from, start, end, r);
        PassOne(exts, at, ex, from, end);
      } else if b != End(e) - 1 {
        StraddleHere(exts, at, from, end);
        ok := false;
        return;
      } else {
        PassOne(exts, at, ex, from, end);
        r, log' := TrimEntry(exts, at, ex, from, start, end, r, log');
        BalancedTrans(log, exts, log0, r0, log', r);
        firstHit := at == 0;
      }
    }
    LoopDone(exts, ex, from, start, end);
    NoneBelow(exts, ex, from, start, end);
  }

  /** None of the entries behind ex straddles the end of the range. */
  ghost predicate Passed(exts: seq<Extent>, ex: int, from: nat, end: nat) {
    forall i :: 0 <= i < |exts| && ex < i <= from && exts[i].block <= end ==> End(exts[i]) <= end + 1
  }

  lemma PassOne(exts: seq<Extent>, at: nat, ex: int, from: nat, end: nat)
    requires at < |exts| && ex == at - 1 && Passed(exts, at, from, end)
    requires exts[at].block <= end ==> End(exts[at]) <= end + 1
    ensures Passed(exts, ex, from, end)
  {
  }

  /** The entries that the loop does not reach end before the range. */
  lemma NoneBelow(exts: seq<Extent>, ex: int, from: nat, start: nat, end: nat)
    requires Sorted(exts) && -1 <= ex <= from < |exts| && start <= end && Passed(exts, ex, from, end)
    requires ex >= 0 ==> End(exts[ex]) <= start
    ensures NoStraddle(exts[..from+1], end)
  {
    forall i | 0 <= i <= from && exts[i].block <= end ensures End(exts[i]) <= end + 1 {
      if i < ex { assert End(exts[i]) <= exts[ex].block; }
    }
  }

  lemma TrimStart(exts: seq<Extent>, from: nat, start: nat, end: nat)
    requires from < |exts|
    ensures TrimInv(exts, from, from, start, end, exts)
  {
    assert exts[from+1..from+1] == [];
    assert exts[..from+1] + [] + exts[from+1..] == exts;
  }

  lemma SkipStep(exts: seq<Extent>, ex: nat, next: int, from: nat, start: nat, end: nat, r: seq<Extent>)
    requires TrimInv(exts, ex, from, start, end, r) && end < exts[ex].block && Sorted(exts)
    requires end == MAX_BLOCKS - 1 ==> exts[ex].block <= end
    requires next == ex - 1
    ensures TrimInv(exts, next, from, start, end, r)
  {
    LeafStep(exts, ex, from, start, end, r);
    AroundOne(r, ex);
    SamePrefix(r, exts, ex);
    Slices(exts, ex, from);
  }

  lemma AroundOne(r: seq<Extent>, k: nat)
    requires k < |r|
    ensures r == r[..k] + [r[k]] + r[k+1..]
  {
  }

  lemma SamePrefix(r: seq<Extent>, s: seq<Extent>, k: nat)
    requires k <= |r| && k <= |s| && r[..k] == s[..k]
    ensures k > 0 ==> r[k-1] == s[k-1]
  {
    assert k > 0 ==> r[k-1] == r[..k][k-1] && s[k-1] == s[..k][k-1];
  }

  lemma StraddleHere(exts: seq<Extent>, ex: nat, from: nat, end: nat)
    requires ex <= from < |exts| && exts[ex].block <= end && end + 1 < End(exts[ex])
    ensures !NoStraddle(exts[..from+1], end)
  {
    assert exts[..from+1][ex] == exts[ex];
  }

  /** When truncating to the end of the file, the entry at hand is the last one left. */
  lemma LastEntry(exts: seq<Extent>, ex: nat, from: nat, start: nat, end: nat, r: seq<Extent>)
    requires TrimInv(exts, ex, from, start, end, r) && start < End(exts[ex])
    requires end == MAX_BLOCKS - 1 ==> from + 1 == |exts|
    ensures end == MAX_BLOCKS - 1 ==> ex + 1 == |r|
  {
  }

  lemma EditStep(exts: seq<Extent>, ex: nat, from: nat, start: nat, end: nat, r: seq<Extent>)
    requires Sorted(exts) && TrimInv(exts, ex, from, start, end, r)
    requires start < End(exts[ex]) && exts[ex].block <= end
    ensures var r' := r[..ex] + Trim(exts[ex], start, end) + r[ex+1..];
            && TrimInv(exts, ex - 1, from, start, end, r')
            && (ex > 0 ==> r' != [] && r'[0] == exts[0])
  {
    LeafStep(exts, ex, from, start, end, r);
    Slices(exts, ex, from);
    if ex > 0 {
      assert End(exts[ex-1]) <= exts[ex].block;
    }
  }

  lemma LoopDone(exts: seq<Extent>, ex: int, from: nat, start: nat, end: nat)
    requires Sorted(exts) && -1 <= ex <= from < |exts|
    requires ex >= 0 ==> End(exts[ex]) <= start
    ensures CutAbove(exts, ex, from, start, end) == Cut(exts[..from+1], start, end) + exts[from+1..]
  {
    var a, m := exts[..ex+1], exts[ex+1..from+1];
    JoinSlices(exts, ex + 1, from + 1);
    CutConcat(a, m, start, end);
    PrefixKept(exts, ex, start, end);
  }

  lemma PrefixKept(exts: seq<Extent>, ex: int, start: nat, end: nat)
    requires Sorted(exts) && -1 <= ex < |exts|
    requires ex >= 0 ==> End(exts[ex]) <= start
    ensures Cut(exts[..ex+1], start, end) == exts[..ex+1]
  {
    var a := exts[..ex+1];
    if ex >= 0 { EarlierEnds(exts, ex, start); }
    forall i | 0 <= i < |a| ensures End(a[i]) <= start { assert a[i] == exts[i]; }
    CutOutside(a, start, end);
  }

  lemma JoinSlices(exts: seq<Extent>, i: nat, j: nat)
    requires i <= j <= |exts|
    ensures exts[..j] == exts[..i] + exts[i..j]
  {
  }

  lemma EarlierEnds(s: seq<Extent>, k: nat, x: nat)
    requires Sorted(s) && k < |s| && End(s[k]) <= x
    ensures forall i :: 0 <= i <= k ==> End(s[i]) <= x
  {
    forall i | 0 <= i <= k ensures End(s[i]) <= x {
      assert ValidExtent(s[k]);
      assert i < k ==> End(s[i]) <= s[k].block;
    }
  }
}
