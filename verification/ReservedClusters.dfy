/**
  How many reserved clusters an allocation uses up (ext4/extents.c,
  get_reserved_cluster_alloc), from the delayed blocks in the status tree.
 */
module ReservedClusters {
  import opened Arithmetic
  import opened StatusMap
  import opened StatusTree

  // ------------------------------------------------------------- arithmetic

  /** A block of a later cluster lies behind the end of an earlier one. */
  lemma LaterCluster(a: nat, b: nat, r: nat)
    requires 0 < r
    ensures a / r < b / r ==> (a / r) * r + r <= (b / r) * r
    ensures a <= b ==> a / r <= b / r
  {
    QuotientIff(a, a / r, r);
    QuotientIff(b, b / r, r);
    Multiples(a / r, b / r, r);
    Multiples(b / r, a / r, r);
  }

  predicate InCluster(b: nat, r: nat, c: nat)
    requires 0 < r
  {
    b / r == c
  }

  lemma ClusterRange(c: nat, r: nat, lo: nat, hi: nat)
    requires 0 < r && lo == c * r && hi == lo + r
    ensures forall b: nat :: InCluster(b, r, c) <==> lo <= b < hi
  {
    forall b: nat ensures InCluster(b, r, c) <==> lo <= b < hi { QuotientIff(b, c, r); }
  }

  lemma ClusterStart(b: nat, r: nat)
    requires 0 < r
    ensures (b / r) * r == b - b % r && b % r < r
  {
  }

  // ----------------------------------------------------------- specification

  /** Block b is delayed and outside of [start, start + len). */
  ghost predicate DelayedOutside(s: seq<Entry>, start: nat, len: nat, b: nat) {
    DelayedAt(s, b) && !(start <= b < start + len)
  }

  /** No block of cluster c outside of the range is delayed. */
  ghost predicate Released(s: seq<Entry>, start: nat, len: nat, r: nat, c: nat)
    requires 0 < r
  {
    forall b: nat :: InCluster(b, r, c) ==> !DelayedOutside(s, start, len, b)
  }

  ghost function ReleasedCount(s: seq<Entry>, start: nat, len: nat, r: nat, lo: nat, hi: nat): nat
    requires 0 < r
    decreases hi - lo
  {
    if hi <= lo then 0
    else (if Released(s, start, len, r, lo) then 1 else 0) + ReleasedCount(s, start, len, r, lo + 1, hi)
  }

  lemma {:induction false} CountAll(s: seq<Entry>, start: nat, len: nat, r: nat, lo: nat, hi: nat)
    requires 0 < r && lo <= hi && forall c :: lo <= c < hi ==> Released(s, start, len, r, c)
    ensures ReleasedCount(s, start, len, r, lo, hi) == hi - lo
    decreases hi - lo
  {
    if lo < hi { CountAll(s, start, len, r, lo + 1, hi); }
  }

  lemma {:induction false} CountSplit(s: seq<Entry>, start: nat, len: nat, r: nat, lo: nat, mid: nat, hi: nat)
    requires 0 < r && lo <= mid <= hi
    ensures ReleasedCount(s, start, len, r, lo, hi) ==
              ReleasedCount(s, start, len, r, lo, mid) + ReleasedCount(s, start, len, r, mid, hi)
    decreases mid - lo
  {
    if lo < mid { CountSplit(s, start, len, r, lo + 1, mid, hi); }
  }

  /** Only the parts of a cluster before and behind the range matter. */
  lemma ReleasedParts(s: seq<Entry>, start: nat, len: nat, r: nat, c: nat, lo: nat, hi: nat)
    requires 0 < r && lo == c * r && hi == lo + r
    ensures Released(s, start, len, r, c) <==>
            && (forall b: nat :: lo <= b < hi && b < start ==> !DelayedAt(s, b))
            && (forall b: nat :: lo <= b < hi && start + len <= b ==> !DelayedAt(s, b))
  {
    ClusterRange(c, r, lo, hi);
    if Released(s, start, len, r, c) {
      forall b: nat | lo <= b < hi && !(start <= b < start + len) ensures !DelayedAt(s, b) {
        assert InCluster(b, r, c) && !DelayedOutside(s, start, len, b);
      }
    }
  }

  /** Clusters strictly between the first and the last one lie inside the range. */
  lemma InnerReleased(s: seq<Entry>, start: nat, len: nat, r: nat, c: nat)
    requires 0 < r && 0 < len && start / r < c < (start + len - 1) / r
    ensures Released(s, start, len, r, c)
  {
    var first, last := start / r, (start + len - 1) / r;
    QuotientIff(start, first, r);
    QuotientIff(start + len - 1, last, r);
    Multiples(first, c, r);
    Multiples(c, last, r);
    ReleasedParts(s, start, len, r, c, c * r, c * r + r);
  }

  /** A delayed block of the first cluster before the range. */
  ghost predicate LeftDelayed(s: seq<Entry>, start: nat, r: nat)
    requires 0 < r
  {
    exists b: nat :: start - start % r <= b < start && DelayedAt(s, b)
  }

  /** A delayed block of the last cluster behind the range. */
  ghost predicate RightDelayed(s: seq<Entry>, end: nat, r: nat)
    requires 0 < r
  {
    exists b: nat :: end <= b < end + (r - end % r) && end % r != 0 && DelayedAt(s, b)
  }

  lemma FirstReleased(s: seq<Entry>, start: nat, len: nat, r: nat)
    requires 0 < r && 0 < len && start / r < (start + len - 1) / r
    ensures Released(s, start, len, r, start / r) <==> !LeftDelayed(s, start, r)
  {
    var c := start / r;
    ClusterStart(start, r);
    LaterCluster(start, start + len - 1, r);
    ClusterStart(start + len - 1, r);
    ReleasedParts(s, start, len, r, c, c * r, c * r + r);
  }

  /** Where the last cluster ends. */
  lemma LastCluster(end: nat, r: nat)
    requires 0 < r && 0 < end
    ensures var c := (end - 1) / r;
            && (end % r == 0 ==> c * r + r == end)
            && (end % r != 0 ==> c * r + r == end + (r - end % r) && c * r < end)
  {
    var q := end / r;
    assert end == q * r + end % r;
    if end % r == 0 {
      assert q > 0;
      assert (q - 1) * r + r == q * r;
      QuotientIff(end - 1, q - 1, r);
    } else {
      QuotientIff(end - 1, q, r);
    }
  }

  lemma LastReleased(s: seq<Entry>, start: nat, len: nat, r: nat)
    requires 0 < r && 0 < len && start / r < (start + len - 1) / r
    ensures Released(s, start, len, r, (start + len - 1) / r) <==> !RightDelayed(s, start + len, r)
  {
    var c := (start + len - 1) / r;
    LastCluster(start + len, r);
    ClusterStart(start, r);
    LaterCluster(start, start + len - 1, r);
    ReleasedParts(s, start, len, r, c, c * r, c * r + r);
  }

  lemma OnlyReleased(s: seq<Entry>, start: nat, len: nat, r: nat)
    requires 0 < r && 0 < len && start / r == (start + len - 1) / r
    ensures Released(s, start, len, r, start / r) <==> !LeftDelayed(s, start, r) && !RightDelayed(s, start + len, r)
  {
    var c := start / r;
    ClusterStart(start, r);
    LastCluster(start + len, r);
    ReleasedParts(s, start, len, r, c, c * r, c * r + r);
  }

  /** A range inside one cluster. */
  lemma OneTotal(s: seq<Entry>, start: nat, len: nat, r: nat, c: nat)
    requires 0 < r && 0 < len && start / r == (start + len - 1) / r == c
    ensures ReleasedCount(s, start, len, r, c, c + 1) == if LeftDelayed(s, start, r) ||
              RightDelayed(s, start + len, r) then 0 else 1
  {
    OnlyReleased(s, start, len, r);
    assert ReleasedCount(s, start, len, r, c + 1, c + 1) == 0;
  }

  /** A range that starts and ends in different clusters. */
  lemma ManyTotal(s: seq<Entry>, start: nat, len: nat, r: nat, lo: nat, hi: nat)
    requires 0 < r && 0 < len && lo == start / r && hi == (start + len - 1) / r && lo < hi
    ensures ReleasedCount(s, start, len, r, lo, hi + 1) ==
            hi - lo + 1 - (if LeftDelayed(s, start, r) then 1 else 0) - if RightDelayed(s, start + len, r) then 1 else 0
  {
    FirstReleased(s, start, len, r);
    LastReleased(s, start, len, r);
    forall c | lo + 1 <= c < hi ensures Released(s, start, len, r, c) { InnerReleased(s, start, len, r, c); }
    CountAll(s, start, len, r, lo + 1, hi);
    CountSplit(s, start, len, r, lo + 1, hi, hi + 1);
    assert ReleasedCount(s, start, len, r, hi + 1, hi + 1) == 0;
  }

  /** The number of released clusters, from the two ends alone. */
  lemma ReleasedTotal(s: seq<Entry>, start: nat, len: nat, r: nat, lo: nat, hi: nat)
    requires 0 < r && 0 < len && lo == start / r && hi == (start + len - 1) / r
    ensures lo <= hi
    ensures var left, right := if LeftDelayed(s, start, r) then 1 else 0, if RightDelayed(s, start + len, r) then 1
              else 0;
            ReleasedCount(s, start, len, r, lo, hi + 1) ==
            if lo == hi then (if left + right > 0 then 0 else 1) else hi - lo + 1 - left - right
  {
    LaterCluster(start, start + len - 1, r);
    if lo == hi { OneTotal(s, start, len, r, lo); } else { ManyTotal(s, start, len, r, lo, hi); }
  }

  // ------------------------------------------------------------------ method

  /** get_reserved_cluster_alloc with cluster ratio r. */
  method ReservedClusterAlloc(t: EsTree, start: nat, len: nat, r: nat) returns (n: nat)
    requires t.Valid() && 0 < r && 0 < len
    modifies t`cache
    ensures t.Valid()
    ensures n == ReleasedCount(t.tree, start, len, r, start / r, (start + len - 1) / r + 1)
  {
    var first: nat, last: nat := start / r, (start + len - 1) / r;
    ReleasedTotal(t.tree, start, len, r, first, last);
    n := last - first + 1;
    var left := TowardsLeft(t, start, r);
    if left {
      n := n - 1;
    }
    if n != 0 {
      var right := TowardsRight(t, start + len, r);
      if right {
        n := n - 1;
      }
    }
  }

  /** The check of the part of the first cluster before the range. */
  method TowardsLeft(t: EsTree, start: nat, r: nat) returns (found: bool)
    requires t.Valid() && 0 < r
    modifies t`cache
    ensures t.Valid()
    ensures found <==> LeftDelayed(t.tree, start, r)
  {
    var offset := start % r;
    found := false;
    if offset != 0 {
      var from: nat := start - offset;
      found := t.FindDelallocRange(from, from + offset - 1);
    }
  }

  /** The check of the part of the last cluster behind the range. */
  method TowardsRight(t: EsTree, end: nat, r: nat) returns (found: bool)
    requires t.Valid() && 0 < r
    modifies t`cache
    ensures t.Valid()
    ensures found <==> RightDelayed(t.tree, end, r)
  {
    var offset := end % r;
    found := false;
    if offset != 0 {
      found := t.FindDelallocRange(end, end + (r - offset) - 1);
    }
  }
}
