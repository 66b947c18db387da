/**
  The extent status tree of an inode (ext4/extents_status.c). The red-black tree is its
  sequence of nodes in order; a descent may meet the nodes of a range in any order that
  some tree shape allows. Node allocation may fail at every call.
 */
module StatusTree {
  import opened Wrappers
  import opened Extents
  import opened StatusMap

  // ------------------------------------------------------------- merge lemmas

  /** A merge keeps the right neighbour apart. */
  lemma JoinRight(p: Entry, q: Entry, j: Entry, c: seq<Entry>)
    requires Good(p) && Tidy([q] + c) && CanMerge(p, q) && Stop(q) <= MAX_BLOCKS
    requires j.lblk == p.lblk && j.len == p.len + q.len && j.kind == p.kind && (HasBlocks(p.kind) ==> j.pblk == p.pblk)
    ensures Good(j) && Tidy(c) && (c != [] ==> Precedes(j, c[0]))
  {
    TidyParts([q], c);
    if c != [] { assert Precedes([q][0], c[0]); }
  }

  /** A merge keeps the left neighbour apart. */
  lemma JoinLeft(a: seq<Entry>, p: Entry, q: Entry, j: Entry)
    requires Tidy(a + [p]) && Good(q) && CanMerge(p, q)
    requires j.lblk == p.lblk && j.len == p.len + q.len && j.kind == p.kind && (HasBlocks(p.kind) ==> j.pblk == p.pblk)
    ensures Good(j) && Tidy(a) && (a != [] ==> Precedes(a[|a|-1], j))
  {
    TidyParts(a, [p]);
    assert Good([p][0]);
    if a != [] { assert Precedes(a[|a|-1], [p][0]); }
  }

  /** What the tree records after e was added: e's information on its blocks. */
  ghost predicate Overrides(s: seq<Entry>, e: Entry, s': seq<Entry>) {
    forall b: nat :: Look(s', b) == if Holds(e, b) then Some(InfoAt(e, b)) else Look(s, b)
  }

  ghost predicate SameLook(s: seq<Entry>, s': seq<Entry>) {
    forall b: nat :: Look(s', b) == Look(s, b)
  }

  ghost predicate Disjoint(s: seq<Entry>, e: Entry) {
    forall i :: 0 <= i < |s| ==> Stop(s[i]) <= e.lblk || Stop(e) <= s[i].lblk
  }

  /** Merging a new entry into the node behind it or before it. */
  lemma MergedNew(a: seq<Entry>, x: Entry, c: seq<Entry>, e: Entry, j: Entry)
    requires Disjoint(a + [x] + c, e) && Sane(e.kind) && (CanMerge(e, x) || CanMerge(x, e))
    requires var p, q := if CanMerge(e, x) then e else x, if CanMerge(e, x) then x else e;
             && j.lblk == p.lblk && j.len == p.len + q.len && j.kind == p.kind &&
                  (HasBlocks(p.kind) ==> j.pblk == p.pblk)
    requires 0 < e.len && 0 < x.len
    ensures Overrides(a + [x] + c, e, a + [j] + c)
  {
    assert a + [x] + c == a + ([x] + c);
    forall b: nat ensures Look(a + [j] + c, b) == if Holds(e, b) then Some(InfoAt(e, b)) else Look(a + [x] + c, b) {
      LookMiddle(a, x, c, b);
      LookMiddle(a, j, c, b);
      if Holds(e, b) { NotIn(a + [x] + c, a, [x] + c, e, b); }
    }
  }

  lemma NotIn(s: seq<Entry>, a: seq<Entry>, c: seq<Entry>, e: Entry, b: nat)
    requires s == a + c && Disjoint(s, e) && Holds(e, b)
    ensures Look(a, b) == None
  {
    forall i | 0 <= i < |a| ensures !Holds(a[i], b) { assert s[i] == a[i]; }
    LookNone(a, b);
  }

  /** Merging two neighbouring nodes. */
  lemma MergedPair(a: seq<Entry>, p: Entry, q: Entry, c: seq<Entry>, j: Entry)
    requires Sane(p.kind) && CanMerge(p, q)
    requires j.lblk == p.lblk && j.len == p.len + q.len && j.kind == p.kind && (HasBlocks(p.kind) ==> j.pblk == p.pblk)
    ensures SameLook(a + [p] + [q] + c, a + [j] + c)
  {
    forall b: nat ensures Look(a + [j] + c, b) == Look(a + [p] + [q] + c, b) {
      LookMiddle(a + [p], q, c, b);
      LookConcat(a, [p], b);
      LookSingle(p, b);
      LookMiddle(a, j, c, b);
    }
  }

  lemma OverridesSame(s: seq<Entry>, e: Entry, s': seq<Entry>, s'': seq<Entry>)
    requires Overrides(s, e, s') && SameLook(s', s'')
    ensures Overrides(s, e, s'')
  {
    forall b: nat
      ensures Look(s'', b) == if Holds(e, b) then Some(InfoAt(e, b)) else Look(s, b)
    {
      assert Look(s'', b) == Look(s', b);
    }
  }

  lemma Added(a: seq<Entry>, c: seq<Entry>, e: Entry)
    requires Disjoint(a + c, e)
    ensures Overrides(a + c, e, a + [e] + c)
  {
    forall b: nat ensures Look(a + [e] + c, b) == if Holds(e, b) then Some(InfoAt(e, b)) else Look(a + c, b) {
      LookMiddle(a, e, c, b);
      LookConcat(a, c, b);
      if Holds(e, b) { NotIn(a + c, a, c, e, b); }
    }
  }

  /** Where a descent ends: at a node to merge with, or between nodes. */
  datatype Spot = Into(k: nat) | Gap(k: nat)

  lemma Parted(s: seq<Entry>, spot: Spot) returns (a: seq<Entry>, x: Entry, c: seq<Entry>)
    requires if spot.Into? then spot.k < |s| else spot.k <= |s|
    ensures |a| == spot.k
    ensures spot.Into? ==> s == a + [x] + c && x == s[spot.k]
    ensures spot.Gap? ==> s == a + c && (a != [] ==> a[|a|-1] == s[spot.k-1]) && (c != [] ==> c[0] == s[spot.k])
  {
    a := s[..spot.k];
    if spot.Into? {
      x, c := s[spot.k], s[spot.k+1..];
    } else {
      x, c := Entry(0, 0, 0, 0, Kind(false, false, false, false), false), s[spot.k..];
    }
  }

  // ---------------------------------------------------------------- the class

  class EsTree {
    var tree: seq<Entry>
    /** cache_es: address of the node last touched, if any */
    var cache: Option<nat>
    var allNr: nat
    var shkNr: nat
    /** whether the inode is on the list that the shrinker walks */
    var onList: bool
    var shrinkLblk: nat
    var nextId: nat
    /** reclaimable entries of the other inodes on the shrinker's list */
    var others: nat
    /** how many node allocations have failed so far */
    ghost var failures: nat
    /** the last information recorded about each block */
    ghost var info: nat -> Option<Info>

    /** ext4_es_init_tree, of an inode that shares the shrinker with others; nothing is known about any block. */
    constructor (reclaimable: nat)
      ensures Valid() && tree == [] && cache == None && !onList && others == reclaimable && failures == 0
      ensures forall b: nat :: info(b) == None && Look(tree, b) == None
    {
      tree, cache, allNr, shkNr, onList, shrinkLblk, nextId, others := [], None, 0, 0, false, 0, 0, reclaimable;
      failures, info := 0, (b: nat) => None;
    }

    /** The counters and the list membership. */
    ghost predicate Counted()
      reads this
    {
      allNr == |tree| && shkNr == Shrinkable(tree) && (onList <==> shkNr > 0)
    }

    /** Every node has its own address. */
    ghost predicate Addressed()
      reads this
    {
      && (forall id :: Nodes(tree, id) <= 1)
      && (forall id :: nextId <= id ==> Nodes(tree, id) == 0)
    }

    ghost predicate Sound()
      reads this
    {
      Tidy(tree) && Counted() && Addressed()
    }

    /** cache_es is null or a live node. */
    ghost predicate CacheLive()
      reads this
    {
      cache.Some? ==> Nodes(tree, cache.value) == 1
    }

    /** Every entry agrees with the last information about its blocks, and all that was
        recorded as delayed is there. */
    ghost predicate Agrees()
      reads this
    {
      AgreesWith(tree, info)
    }

    ghost predicate Valid()
      reads this
    {
      Sound() && CacheLive() && Agrees()
    }

    // ------------------------------------------------------------ node helpers

    /** ext4_es_free_extent after rb_erase. */
    method FreeNode(k: nat, ghost a: seq<Entry>, ghost e: Entry, ghost c: seq<Entry>)
      requires Counted() && tree == a + [e] + c && k == |a|
      modifies `tree, `allNr, `shkNr, `onList
      ensures Counted() && tree == a + c
      ensures shkNr == old(shkNr) - if e.kind.delayed then 0 else 1
      ensures old(Addressed()) ==> Addressed()
    {
      ShrinkableMiddle(a, e, c);
      ShrinkableConcat(a, c);
      assert tree[k] == e;
      var delayed := tree[k].kind.delayed;
      EraseNodes(a, e, c);
      tree := tree[..k] + tree[k+1..];
      assert tree == a + c;
      allNr := allNr - 1;
      if !delayed {
        shkNr := shkNr - 1;
        if shkNr == 0 {
          onList := false;
        }
      }
    }

    /** ext4_es_alloc_extent and the link into the tree before node k; memory may run out. */
    method AllocNode(k: nat, e: Entry, ghost a: seq<Entry>, ghost c: seq<Entry>) returns (ok: bool)
      requires Counted() && Addressed() && tree == a + c && k == |a| && e.id == nextId
      modifies `tree, `allNr, `shkNr, `onList, `nextId, `failures
      ensures !ok ==>
                unchanged(`tree) && unchanged(`allNr) && unchanged(`shkNr) && unchanged(`onList) && unchanged(`nextId)
      ensures failures == old(failures) + if ok then 0 else 1
      ensures ok ==> tree == a + [e] + c
      ensures Counted() && Addressed()
    {
      ok := *;
      if !ok {
        failures := failures + 1;
      } else {
        ShrinkableMiddle(a, e, c);
        ShrinkableConcat(a, c);
        AddNodes(a, e, c);
        tree := tree[..k] + [e] + tree[k..];
        assert tree == a + [e] + c;
        nextId := nextId + 1;
        allNr := allNr + 1;
        if !e.kind.delayed {
          if shkNr == 0 {
            onList := true;
          }
          shkNr := shkNr + 1;
        }
      }
    }

    /** Rewriting a node in place: same address and type. */
    method SetNode(k: nat, e: Entry, ghost a: seq<Entry>, ghost x: Entry, ghost c: seq<Entry>)
      requires Counted() && Addressed() && tree == a + [x] + c && k == |a| && e.id == x.id && e.kind == x.kind
      modifies `tree
      ensures Counted() && Addressed() && tree == a + [e] + c
      ensures forall id :: Nodes(tree, id) == old(Nodes(tree, id))
    {
      ShrinkableMiddle(a, x, c);
      ShrinkableMiddle(a, e, c);
      forall id ensures Nodes(a + [e] + c, id) == Nodes(a + [x] + c, id) {
        NodesMiddle(a, x, c, id);
        NodesMiddle(a, e, c, id);
      }
      tree := tree[k := e];
      assert tree == a + [e] + c;
    }

    // ------------------------------------------------------------------ insert

    /** Two neighbouring nodes become one: the second is freed. */
    method MergeNodes(k: nat, ghost a: seq<Entry>, ghost p: Entry, ghost q: Entry, ghost c: seq<Entry>)
      requires Counted() && Addressed() && tree == a + [p] + ([q] + c) && k == |a|
      requires Tidy(a + [p]) && Good(q) && Tidy(c) && (c != [] ==> Precedes(q, c[0])) && CanMerge(p, q)
      modifies `tree, `allNr, `shkNr, `onList
      ensures Sound() && SameLook(old(tree), tree) && Nodes(tree, p.id) == 1
      ensures tree == a + [p.(len := p.len + q.len, referenced := p.referenced || q.referenced)] + c
    {
      assert tree[k] == p && tree[k+1] == q;
      var x, y := tree[k], tree[k+1];
      var m := x.(len := x.len + y.len, referenced := x.referenced || y.referenced);
      SetNode(k, m, a, p, [q] + c);
      assert tree == (a + [m]) + [q] + c;
      FreeNode(k + 1, a + [m], q, c);
      JoinedTidy(a, p, q, c, m);
      NodesMiddle(a, m, c, p.id);
    }

    /** The new entry goes into the node behind it; then the node before it may follow. */
    method InsertRight(k: nat, e: Entry, ghost a: seq<Entry>, ghost x: Entry, ghost c: seq<Entry>)
      requires Sound() && tree == a + [x] + c && k == |a|
      requires Good(e) && Disjoint(tree, e) && CanMerge(e, x)
      modifies `tree, `allNr, `shkNr, `onList, `cache
      ensures Sound() && CacheLive() && Overrides(old(tree), e, tree)
    {
      assert tree[k] == x;
      var es := tree[k];
      var j := Entry(es.id, e.lblk, es.len + e.len, if HasBlocks(es.kind) then e.pblk else es.pblk, es.kind,
                     es.referenced);
      InsertRightTidy(a, x, c, e, j);
      ghost var s := tree;
      SetNode(k, j, a, x, c);
      ghost var s' := tree;
      MergeToLeft(k, j, a, c);
      OverridesSame(s, e, s', tree);
    }

    /** ext4_es_try_to_merge_left on the node j, and the cache. */
    method MergeToLeft(k: nat, j: Entry, ghost a: seq<Entry>, ghost c: seq<Entry>)
      requires Counted() && Addressed() && tree == a + [j] + c && k == |a|
      requires Good(j) && Tidy(a) && Tidy(c) && (c != [] ==> Precedes(j, c[0]))
      requires a == [] || !CanMerge(a[|a|-1], j) ==> Tidy(a + [j] + c)
      modifies `tree, `allNr, `shkNr, `onList, `cache
      ensures Sound() && CacheLive() && SameLook(old(tree), tree)
    {
      assert k > 0 ==> tree[k-1] == a[k-1];
      if k > 0 && CanMerge(tree[k-1], j) {
        cache := Some(tree[k-1].id);
        ghost var a0, p := a[..k-1], a[k-1];
        Unsnoc(a, j, c, tree);
        MergeNodes(k - 1, a0, p, j, c);
      } else {
        cache := Some(j.id);
        NodesMiddle(a, j, c, j.id);
      }
    }

    /** The new entry goes into the node before it; then the node behind it may follow. */
    method InsertLeft(k: nat, e: Entry, ghost a: seq<Entry>, ghost x: Entry, ghost c: seq<Entry>)
      requires Sound() && tree == a + [x] + c && k == |a|
      requires Good(e) && Disjoint(tree, e) && CanMerge(x, e)
      modifies `tree, `allNr, `shkNr, `onList, `cache
      ensures Sound() && CacheLive() && Overrides(old(tree), e, tree)
    {
      assert tree[k] == x;
      var j := tree[k].(len := tree[k].len + e.len);
      InsertLeftTidy(a, x, c, e, j);
      ghost var s := tree;
      SetNode(k, j, a, x, c);
      cache := Some(j.id);
      assert k + 1 < |tree| ==> c != [] && tree[k+1] == c[0];
      if k + 1 < |tree| && CanMerge(j, tree[k+1]) {
        ghost var q, c' := c[0], c[1..];
        Uncons(a, j, c, tree);
        ghost var s' := tree;
        MergeNodes(k, a, j, q, c');
        OverridesSame(s, e, s', tree);
      } else {
        NodesMiddle(a, j, c, j.id);
      }
    }

    /** A node of its own for the new entry. */
    method InsertNew(k: nat, e: Entry, ghost a: seq<Entry>, ghost c: seq<Entry>) returns (ok: bool)
      requires Sound() && CacheLive() && tree == a + c && k == |a| && e.id == nextId
      requires Good(e) && Disjoint(tree, e)
      requires (a != [] ==> Precedes(a[|a|-1], e)) && (c != [] ==> Precedes(e, c[0]))
      modifies `tree, `allNr, `shkNr, `onList, `nextId, `failures, `cache
      ensures Sound() && CacheLive()
      ensures ok ==> Overrides(old(tree), e, tree)
      ensures !ok ==> tree == old(tree) && cache == old(cache) && shkNr == old(shkNr)
      ensures failures == old(failures) + if ok then 0 else 1
    {
      ok := AllocNode(k, e, a, c);
      if ok {
        TidyParts(a, c);
        TidyMiddle(a, e, c);
        Added(a, c, e);
        cache := Some(e.id);
        NodesMiddle(a, e, c, e.id);
      }
    }

    /** The descent of __es_insert_extent; any tree shape may guide it. */
    method Descend(e: Entry) returns (spot: Spot)
      requires Tidy(tree) && Good(e) && Disjoint(tree, e)
      ensures spot.Into? ==>
                && spot.k < |tree|
                && if e.lblk < tree[spot.k].lblk then CanMerge(e, tree[spot.k]) else CanMerge(tree[spot.k], e)
      ensures spot.Gap? ==>
                && spot.k <= |tree|
                && (spot.k > 0 ==> Precedes(tree[spot.k-1], e)) && (spot.k < |tree| ==> Precedes(e, tree[spot.k]))
    {
      var lo, hi := 0, |tree|;
      while lo < hi
        invariant 0 <= lo <= hi <= |tree|
        invariant lo > 0 ==> Precedes(tree[lo-1], e)
        invariant hi < |tree| ==> Precedes(e, tree[hi])
      {
        var mid :| lo <= mid < hi;
        assert Good(tree[mid]);
        if e.lblk < tree[mid].lblk {
          if CanMerge(e, tree[mid]) {
            return Into(mid);
          }
          hi := mid;
        } else {
          if CanMerge(tree[mid], e) {
            return Into(mid);
          }
          lo := mid + 1;
        }
      }
      return Gap(lo);
    }

    /** __es_insert_extent: e overlaps no node. */
    method InsertEs(e: Entry) returns (ok: bool)
      requires Sound() && CacheLive() && Good(e) && Disjoint(tree, e) && e.id == nextId
      modifies `tree, `allNr, `shkNr, `onList, `nextId, `failures, `cache
      ensures Sound() && CacheLive()
      ensures ok ==> Overrides(old(tree), e, tree)
      ensures !ok ==> tree == old(tree) && cache == old(cache) && shkNr == old(shkNr)
      ensures failures == old(failures) + if ok then 0 else 1
    {
      var spot := Descend(e);
      ghost var a, x, c := Parted(tree, spot);
      if spot.Gap? {
        ok := InsertNew(spot.k, e, a, c);
      } else if e.lblk < tree[spot.k].lblk {
        InsertRight(spot.k, e, a, x, c);
        ok := true;
      } else {
        InsertLeft(spot.k, e, a, x, c);
        ok := true;
      }
    }

    /** __es_tree_search: the node that holds lblk, or the next one. */
    method Search(lblk: nat) returns (k: nat)
      requires Tidy(tree)
      ensures k <= |tree|
      ensures forall j :: 0 <= j < k ==> Stop(tree[j]) <= lblk
      ensures forall j :: k <= j < |tree| ==> lblk < Stop(tree[j])
    {
      var lo, hi := 0, |tree|;
      while lo < hi
        invariant 0 <= lo <= hi <= |tree|
        invariant forall j :: 0 <= j < lo ==> Stop(tree[j]) <= lblk
        invariant forall j :: hi <= j < |tree| ==> lblk < tree[j].lblk
      {
        var mid :| lo <= mid < hi;
        assert Good(tree[mid]);
        assert forall j :: 0 <= j < mid ==> Precedes(tree[j], tree[mid]);
        assert forall j :: mid < j < |tree| ==> Precedes(tree[mid], tree[j]) && Good(tree[j]);
        if lblk < tree[mid].lblk {
          hi := mid;
        } else if lblk > Stop(tree[mid]) - 1 {
          lo := mid + 1;
        } else {
          return mid;
        }
      }
      return lo;
    }

    // ----------------------------------------------------------------- reclaim

    /** One node of the scan: a delayed one stays, a referenced one loses its mark, any other is freed. */
    method ScanNode(k: nat, ghost a: seq<Entry>, ghost e: Entry, ghost c: seq<Entry>) returns (k': nat, freed: nat)
      requires Sound() && tree == a + [e] + c && k == |a|
      modifies `tree, `allNr, `shkNr, `onList
      ensures Sound() && tree == a + ScanOne(e) + c && k' == |a| + |ScanOne(e)|
      ensures Dropped(old(tree), tree) && |tree| + freed == old(|tree|) && shkNr + freed == old(shkNr)
    {
      k', freed := k + 1, 0;
      assert tree[k] == e;
      if tree[k].kind.delayed {
        DroppedNone(tree);
      } else if tree[k].referenced {
        Marked(a, e, c, false);
        DroppedNone(tree);
        DroppedSame(tree, tree, a + [e.(referenced := false)] + c);
        SetNode(k, tree[k].(referenced := false), a, e, c);
      } else {
        DroppedOne(a, e, c);
        FreeNode(k, a, e, c);
        k', freed := k, 1;
        assert a + ScanOne(e) + c == a + c;
      }
    }

    /** es_do_reclaim_extents: 1 as true. nr is what remains to be scanned. The nodes mid were scanned: those from
        the one at the last stop on, up to end or as many as asked for. */
    method DoReclaim(end: nat, toScan: nat)
      returns (exhausted: bool, nr: nat, shrunk: nat, ghost pre: seq<Entry>, ghost mid: seq<Entry>,
               ghost post: seq<Entry>)
      requires Sound()
      modifies `tree, `allNr, `shkNr, `onList, `shrinkLblk
      ensures Sound() && Dropped(old(tree), tree)
      ensures |tree| + shrunk == old(|tree|) && shkNr + shrunk == old(shkNr)
      ensures Scanned(old(tree), tree, old(shrinkLblk), end, pre, mid, post) && |mid| + nr == toScan
      ensures exhausted ==> nr == 0 && post != [] && shrinkLblk == post[0].lblk
      ensures !exhausted ==> if post == [] then shrinkLblk == 0 else post[0].lblk > end && shrinkLblk == end + 1
    {
      nr, shrunk := toScan, 0;
      var k := Search(shrinkLblk);
      pre, mid, post := tree[..k], [], tree[k..];
      ScannedStart(tree, k, shrinkLblk, end);
      DroppedNone(tree);
      if k == |tree| {
        shrinkLblk := 0;
        return false, nr, shrunk, pre, mid, post;
      }
      while nr > 0
        invariant Sound() && Dropped(old(tree), tree) && Scanned(old(tree), tree, old(shrinkLblk), end, pre, mid, post)
        invariant k == |pre| + |Scan(mid)| && post != [] && |mid| + nr == toScan
        invariant |tree| + shrunk == old(|tree|) && shkNr + shrunk == old(shkNr)
      {
        if tree[k].lblk > end {
          shrinkLblk := end + 1;
          return false, nr, shrunk, pre, mid, post;
        }
        nr := nr - 1;
        var freed;
        k, freed, mid, post := ScanNext(k, old(tree), old(shrinkLblk), end, pre, mid, post);
        shrunk := shrunk + freed;
        if k == |tree| {
          shrinkLblk := 0;
          return false, nr, shrunk, pre, mid, post;
        }
      }
      shrinkLblk := tree[k].lblk;
      return true, nr, shrunk, pre, mid, post;
    }

    /** One round of the scan of the tree s. */
    method ScanNext(k: nat, ghost s: seq<Entry>, ghost from: nat, ghost end: nat, ghost pre: seq<Entry>,
                    ghost mid: seq<Entry>, ghost post: seq<Entry>)
      returns (k': nat, freed: nat, ghost mid': seq<Entry>, ghost post': seq<Entry>)
      requires Sound() && Dropped(s, tree) && Scanned(s, tree, from, end, pre, mid, post)
      requires k == |pre| + |Scan(mid)| && post != [] && post[0].lblk <= end
      modifies `tree, `allNr, `shkNr, `onList
      ensures Sound() && Dropped(s, tree) && Scanned(s, tree, from, end, pre, mid', post')
      ensures k' == |pre| + |Scan(mid')| && |mid'| == |mid| + 1 && |post'| + 1 == |post|
      ensures |tree| + freed == old(|tree|) && shkNr + freed == old(shkNr)
    {
      ghost var t, e, rest := tree, post[0], post[1..];
      mid', post' := mid + [e], rest;
      ScannedStep(s, tree, from, end, pre, mid, post, e, rest);
      k', freed := ScanNode(k, pre + Scan(mid), e, rest);
      DroppedTrans(s, t, tree);
    }

    /** es_reclaim_extents. A scan that is not cut short takes the mark off every node, and frees all but the delayed
        ones if there was no mark. */
    method Reclaim(toScan: nat) returns (shrunk: nat)
      requires Sound() && CacheLive()
      modifies `tree, `allNr, `shkNr, `onList, `shrinkLblk, `cache
      ensures Sound() && CacheLive() && Dropped(old(tree), tree)
      ensures |tree| + shrunk == old(|tree|) && shkNr + shrunk == old(shkNr)
      ensures toScan > 2 * old(|tree|) ==> Cleaned(old(tree), tree)
    {
      var start := shrinkLblk;
      if shkNr == 0 {
        DroppedNone(tree);
        NoneShrinkable(tree);
        return 0;
      }
      var exhausted, nr;
      ghost var pre, mid, post;
      exhausted, nr, shrunk, pre, mid, post := DoReclaim(MAX_BLOCKS, toScan);
      ghost var t := tree;
      if !exhausted { FirstScan(old(tree), t, start, pre, mid, post); }
      if !exhausted && start != 0 {
        var more;
        ghost var mid2, post2, pre2;
        exhausted, nr, more, pre2, mid2, post2 := DoReclaim(start - 1, nr);
        DroppedTrans(old(tree), t, tree);
        shrunk := shrunk + more;
        if !exhausted { SecondScan(old(tree), t, tree, start, pre, mid, pre2, mid2, post2); }
      }
      cache := None;
    }

    /** Two scans that are not cut short leave only delayed nodes. */
    method ReclaimTwice(toScan: nat) returns (shrunk: nat)
      requires Sound() && CacheLive() && toScan > 2 * |tree|
      modifies `tree, `allNr, `shkNr, `onList, `shrinkLblk, `cache
      ensures Sound() && CacheLive() && Dropped(old(tree), tree)
      ensures AllDelayed(tree) && shkNr == 0 && shrunk == old(shkNr)
    {
      shrunk := Reclaim(toScan);
      ghost var t := tree;
      var more := Reclaim(toScan);
      DroppedTrans(old(tree), t, tree);
      DelayedNotShrinkable(tree);
      shrunk := shrunk + more;
    }

    /** __es_shrink for this locked inode: first the other inodes, which may use up the 128 entries to scan,
        and this one only if that gave nothing. Each entry reclaimed is gone from one of the counts; left is what the
        others leave of the 128. */
    method Shrink() returns (shrunk: nat, ghost left: nat)
      requires Sound() && CacheLive()
      modifies `tree, `allNr, `shkNr, `onList, `shrinkLblk, `cache, `others
      ensures Sound() && CacheLive() && Dropped(old(tree), tree)
      ensures others + shkNr + shrunk == old(others) + old(shkNr)
      ensures others < old(others) ==> tree == old(tree)
      ensures others == old(others) && left > 2 * old(|tree|) ==> Cleaned(old(tree), tree)
    {
      shrunk :| shrunk <= others;
      others := others - shrunk;
      var toScan: nat :| toScan <= 128;
      left := toScan;
      if shrunk == 0 && toScan > 0 {
        shrunk := Reclaim(toScan);
      }
    }

    // ------------------------------------------------------------------ remove

    /** Shorten node k to its part before lblk. */
    method CutTail(k: nat, lblk: nat, ghost a: seq<Entry>, ghost e: Entry, ghost c: seq<Entry>)
      requires Sound() && tree == a + [e] + c && k == |a| && e.lblk < lblk < Stop(e)
      modifies `tree
      ensures Sound() && tree == a + [HeadPart(e, lblk)] + c
      ensures forall id :: Nodes(tree, id) == old(Nodes(tree, id))
    {
      assert tree[k] == e;
      HeadTidy(a, e, c, lblk);
      SetNode(k, HeadPart(tree[k], lblk), a, e, c);
    }

    /** Reduce node k to its part behind end. */
    method CutHead(k: nat, end: nat, ghost a: seq<Entry>, ghost e: Entry, ghost c: seq<Entry>)
      requires Sound() && tree == a + [e] + c && k == |a| && e.lblk <= end < Stop(e) - 1
      modifies `tree
      ensures Sound() && tree == a + [TailPart(e, end)] + c
      ensures forall id :: Nodes(tree, id) == old(Nodes(tree, id))
    {
      assert tree[k] == e;
      TailTidy(a, e, c, end);
      SetNode(k, TailPart(tree[k], end), a, e, c);
    }

    /** The range lies inside node k: cut it in two; on failure leave it as it was. */
    method PunchNode(k: nat, lblk: nat, end: nat, ghost a: seq<Entry>, ghost e: Entry, ghost c: seq<Entry>)
      returns (ok: bool)
      requires Sound() && tree == a + [e] + c && k == |a| && cache == None && e.lblk < lblk <= end < Stop(e) - 1
      modifies `tree, `allNr, `shkNr, `onList, `nextId, `failures, `cache
      ensures Sound() && CacheLive()
      ensures ok ==> Erased(old(tree), lblk, end, tree)
      ensures !ok ==> tree == old(tree) && shkNr == old(shkNr)
      ensures failures == old(failures) + if ok then 0 else 1
    {
      assert tree[k] == e;
      var orig := tree[k];
      PunchFits(a, e, c, lblk, end);
      CutTail(k, lblk, a, e, c);
      ghost var h, s := HeadPart(e, lblk), tree;
      ok := InsertEs(TailPart(orig, end).(id := nextId));
      if ok {
        PunchErased(a, e, c, lblk, end, TailPart(e, end).(id := nextId), tree);
      } else {
        SetNode(k, orig, a, h, c);
      }
    }

    /** The nodes inside the range are freed, then the one that reaches beyond it is cut. */
    method FreeNodes(k: nat, lblk: nat, end: nat, ghost a: seq<Entry>, ghost c: seq<Entry>)
      requires Sound() && tree == a + c && k == |a| && cache == None && lblk <= end
      requires forall i :: 0 <= i < |a| ==> Stop(a[i]) <= lblk
      requires forall i :: 0 <= i < |c| ==> lblk <= c[i].lblk
      modifies `tree, `allNr, `shkNr, `onList
      ensures Sound() && Erased(old(tree), lblk, end, tree)
    {
      ghost var s, rest := tree, c;
      while k < |tree| && Stop(tree[k]) - 1 <= end
        invariant Sound() && tree == a + rest
        invariant KeptOutside(s, lblk, end, tree)
        invariant forall i :: 0 <= i < |rest| ==> lblk <= rest[i].lblk
      {
        ghost var e, c' := rest[0], rest[1..];
        UnconsRest(a, rest, tree);
        FreedInside(a, e, c', lblk, end);
        ghost var t := tree;
        FreeNode(k, a, e, c');
        KeptTrans(s, t, tree, lblk, end);
        rest := c';
      }
      if k < |tree| && tree[k].lblk < end + 1 {
        ghost var e, c' := rest[0], rest[1..];
        UnconsRest(a, rest, tree);
        TailKept(a, e, c', lblk, end);
        ghost var t := tree;
        CutHead(k, end, a, e, c');
        KeptTrans(s, t, tree, lblk, end);
        rest := [TailPart(e, end)] + c';
        assert tree == a + rest;
      }
      NothingInside(s, a, rest, tree, lblk, end);
    }

    /** One pass of __es_remove_extent. It fails only if it needs a node and gets none. */
    method TryRemove(lblk: nat, end: nat) returns (ok: bool)
      requires Sound() && CacheLive() && lblk <= end < MAX_BLOCKS
      modifies `tree, `allNr, `shkNr, `onList, `nextId, `failures, `cache
      ensures Sound() && CacheLive()
      ensures ok ==> Erased(old(tree), lblk, end, tree)
      ensures !ok ==> tree == old(tree) && shkNr == old(shkNr)
      ensures failures == old(failures) + if ok then 0 else 1
    {
      var k := Search(lblk);
      if k == |tree| || tree[k].lblk > end {
        NothingThere(tree, k, lblk, end);
        return true;
      }
      cache := None;
      ghost var s := tree;
      ghost var a, e, c := Parted(tree, Into(k));
      AroundNode(a, e, c, tree, k, lblk);
      var es := tree[k];
      var len1 := if lblk > es.lblk then lblk - es.lblk else 0;
      var len2 := if Stop(es) - 1 > end then Stop(es) - 1 - end else 0;
      if len1 > 0 && len2 > 0 {
        ok := PunchNode(k, lblk, end, a, e, c);
        return;
      }
      if len1 > 0 {
        HeadKept(a, e, c, lblk, end);
        CutTail(k, lblk, a, e, c);
        ghost var t := tree;
        FreeNodes(k + 1, lblk, end, a + [HeadPart(e, lblk)], c);
        ErasedKept(s, t, tree, lblk, end);
      } else {
        assert a + [e] + c == a + ([e] + c);
        FreeNodes(k, lblk, end, a, [e] + c);
      }
      ok := true;
    }

    /** __es_remove_extent with its retries. It gives up only when a shrink has reclaimed nothing. */
    method RemoveEs(lblk: nat, end: nat) returns (ok: bool)
      requires Sound() && CacheLive() && lblk <= end < MAX_BLOCKS
      modifies `tree, `allNr, `shkNr, `onList, `nextId, `failures, `cache, `shrinkLblk, `others
      ensures Sound() && CacheLive()
      ensures ok ==> ErasedOrDropped(old(tree), lblk, end, tree)
      ensures !ok ==> Dropped(old(tree), tree)
      ensures failures >= old(failures)
      ensures failures == old(failures) ==> ok && Erased(old(tree), lblk, end, tree)
    {
      ghost var s := tree;
      while true
        invariant Sound() && CacheLive() && Dropped(s, tree)
        invariant failures >= old(failures) && (failures == old(failures) ==> tree == s)
        decreases others + shkNr
      {
        ghost var t := tree;
        ok := TryRemove(lblk, end);
        if ok {
          ErasedDropped(s, t, lblk, end, tree);
          return;
        }
        var n, left := Shrink();
        DroppedTrans(s, t, tree);
        if n == 0 {
          return;
        }
      }
    }

    // ------------------------------------------------------- the public calls

    /** ext4_es_remove_extent */
    method Remove(lblk: nat, len: nat) returns (err: bool)
      requires Valid() && lblk + len <= MAX_BLOCKS
      modifies this
      ensures Valid() && failures >= old(failures)
      ensures failures == old(failures) ==>
                !err && forall b: nat :: Look(tree, b) == if lblk <= b < lblk + len then None else old(Look(tree, b))
      ensures err ==> info == old(info)
      ensures !err ==> forall b: nat :: info(b) == if lblk <= b < lblk + len then None else old(info(b))
    {
      err := false;
      if len == 0 {
        return;
      }
      ghost var s := tree;
      var ok := RemoveEs(lblk, lblk + len - 1);
      err := !ok;
      if ok {
        AgreesErased(s, info, lblk, lblk + len - 1, tree);
        info := Without(info, lblk, lblk + len);
      } else {
        AgreesDropped(s, info, tree);
      }
    }

    /** The retry loop of ext4_es_insert_extent. */
    method InsertRetry(e: Entry) returns (ok: bool)
      requires Sound() && CacheLive() && Good(e) && Empty(tree, e)
      modifies `tree, `allNr, `shkNr, `onList, `nextId, `failures, `cache, `shrinkLblk, `others
      ensures Sound() && CacheLive()
      ensures ok ==> exists t :: Dropped(old(tree), t) && Overrides(t, e, tree)
      ensures !ok ==> Dropped(old(tree), tree)
      ensures failures >= old(failures)
      ensures failures == old(failures) ==> ok && Overrides(old(tree), e, tree)
    {
      ghost var s := tree;
      while true
        invariant Sound() && CacheLive() && Dropped(s, tree) && Empty(tree, e)
        invariant failures >= old(failures) && (failures == old(failures) ==> tree == s)
        decreases others + shkNr
      {
        EmptyDisjoint(tree, e);
        ghost var t := tree;
        ok := InsertEs(e.(id := nextId));
        if ok {
          assert Overrides(t, e, tree);
          return;
        }
        var n, left := Shrink();
        DroppedTrans(s, t, tree);
        EmptyDropped(t, tree, e);
        if n == 0 {
          return;
        }
      }
    }

    /** The second half of ext4_es_insert_extent: e goes where nothing is recorded. If there is
        no memory for it, only a delayed entry makes that an error. */
    method Record(e: Entry) returns (err: bool)
      requires Valid() && Good(e) && Empty(tree, e)
      modifies this
      ensures Valid() && failures >= old(failures)
      ensures failures == old(failures) ==> !err && Overrides(old(tree), e, tree)
      ensures !err ==> info == With(old(info), e)
      ensures err ==> e.kind.delayed && info == old(info)
    {
      ghost var t := tree;
      var ok := InsertRetry(e);
      err := false;
      if ok {
        ghost var u :| Dropped(t, u) && Overrides(u, e, tree);
        AgreesDropped(t, info, u);
        AgreesInserted(u, info, e, tree);
        info := With(info, e);
      } else {
        AgreesDropped(t, info, tree);
        if e.kind.delayed {
          err := true;
        } else {
          EmptyDropped(t, tree, e);
          AgreesUnrecorded(tree, info, e);
          info := With(info, e);
        }
      }
    }

    /** ext4_es_insert_extent; err is ENOMEM. */
    method Insert(lblk: nat, len: nat, pblk: nat, kind: Kind) returns (err: bool)
      requires Valid() && lblk + len <= MAX_BLOCKS && Sane(kind)
      modifies this
      ensures Valid() && failures >= old(failures)
      ensures failures == old(failures) ==> !err && forall b: nat ::
                Look(tree, b) == if lblk <= b < lblk + len then Some(Recorded(lblk, pblk, kind, b))
                    else old(Look(tree, b))
      ensures !err ==> forall b: nat ::
                info(b) == if lblk <= b < lblk + len then Some(Recorded(lblk, pblk, kind, b)) else old(info(b))
      ensures err ==>
                info == old(info) ||
                    (kind.delayed && forall b: nat :: info(b) == if lblk <= b < lblk + len then None else old(info(b)))
    {
      err := Remove(lblk, len);
      if len == 0 || err {
        return;
      }
      var e := Entry(0, lblk, len, pblk, kind, false);
      RemovedEmpty(tree, info, e);
      err := Record(e);
    }

    /** ext4_es_cache_extent: records only where nothing is known. */
    method CacheExtent(lblk: nat, len: nat, pblk: nat, kind: Kind) returns (ghost added: bool)
      requires Valid() && lblk + len <= MAX_BLOCKS && Sane(kind)
      modifies this
      ensures Valid() && failures >= old(failures)
      ensures failures == old(failures) ==> (added <==> len > 0 && old(Unknown(tree, lblk, len)))
      ensures added ==> old(Unknown(tree, lblk, len)) && forall b: nat ::
                && Look(tree, b) ==
                     (if lblk <= b < lblk + len then Some(Recorded(lblk, pblk, kind, b)) else old(Look(tree, b)))
                && info(b) == (if lblk <= b < lblk + len then Some(Recorded(lblk, pblk, kind, b)) else old(info(b)))
      ensures !added ==> tree == old(tree) && info == old(info)
    {
      added := false;
      if len == 0 {
        return;
      }
      var k := Search(lblk);
      UnknownRight(tree, k, lblk, len);
      if k == |tree| || tree[k].lblk > lblk + len - 1 {
        ghost var s := tree;
        var e := Entry(nextId, lblk, len, pblk, kind, false);
        UnknownDisjoint(tree, e);
        var ok := InsertEs(e);
        if ok {
          added := true;
          AgreesInserted(s, info, e, tree);
          info := With(info, e);
        }
      }
    }

    /** The node that cache_es points at. */
    method CacheIndex() returns (k: nat)
      requires Sound() && CacheLive() && cache.Some?
      ensures k < |tree| && tree[k].id == cache.value
    {
      ghost var i := NodeIndex(tree, cache.value);
      k :| k < |tree| && tree[k].id == cache.value;
    }

    /** ext4_es_lookup_extent */
    method Lookup(lblk: nat) returns (found: bool, es: Entry)
      requires Valid()
      modifies this
      ensures Valid() && SameLook(old(tree), tree) && cache == old(cache) && info == old(info)
      ensures found <==> Look(tree, lblk).Some?
      ensures found ==> Holds(es, lblk) && es in old(tree) && forall b: nat :: Holds(es, b) ==>
                Look(tree, b) == Some(InfoAt(es, b))
      ensures found ==> exists k: nat :: MarkedAt(old(tree), k, tree) && old(tree)[k] == es
      ensures !found ==> tree == old(tree)
    {
      var k := NodeFrom(lblk);
      found := k < |tree| && Holds(tree[k], lblk);
      es := Entry(0, 0, 0, 0, Kind(false, false, false, false), false);
      if found {
        es := tree[k];
        forall b: nat | Holds(es, b) ensures Look(tree, b) == Some(InfoAt(es, b)) { LookHit(tree, k, b); }
        ghost var s := tree;
        MarkReferenced(k);
        AgreesSame(s, info, tree);
      } else {
        forall i | 0 <= i < |tree| ensures !Holds(tree[i], lblk) { assert k < i ==> Precedes(tree[k], tree[i]); }
        LookNone(tree, lblk);
      }
    }

    method MarkReferenced(k: nat)
      requires Sound() && k < |tree|
      modifies `tree
      ensures Sound() && SameLook(old(tree), tree)
      ensures forall id :: Nodes(tree, id) == old(Nodes(tree, id))
      ensures MarkedAt(old(tree), k, tree)
    {
      ghost var a, e, c := Parted(tree, Into(k));
      Marked(a, e, c, true);
      SetNode(k, tree[k].(referenced := true), a, e, c);
    }

    /** The node that holds lblk or the next one, with a look at cache_es first. */
    method NodeFrom(lblk: nat) returns (k: nat)
      requires Sound() && CacheLive()
      ensures k <= |tree|
      ensures forall j :: 0 <= j < k ==> Stop(tree[j]) <= lblk
      ensures forall j :: k <= j < |tree| ==> lblk < Stop(tree[j])
    {
      if cache.Some? {
        k := CacheIndex();
        if Holds(tree[k], lblk) {
          CoverFirst(tree, k, lblk);
          return;
        }
      }
      k := Search(lblk);
    }

    /** The first delayed node from node from on; only the first node looked at may start behind end. */
    method NextDelayed(from: nat, lblk: nat, end: nat) returns (k: nat)
      requires Tidy(tree) && from <= |tree| && lblk <= end
      requires forall j :: 0 <= j < from ==> Stop(tree[j]) <= lblk
      requires forall j :: from <= j < |tree| ==> lblk < Stop(tree[j])
      ensures from <= k <= |tree|
      ensures k < |tree| ==> tree[k].kind.delayed && forall j :: 0 <= j < k ==>
                Stop(tree[j]) <= lblk || !tree[j].kind.delayed
      ensures k == |tree| ==> forall b: nat :: lblk <= b <= end ==> !DelayedAt(tree, b)
    {
      k := from;
      if k < |tree| && !tree[k].kind.delayed {
        k := k + 1;
        while k < |tree| && tree[k].lblk <= end && !tree[k].kind.delayed
          invariant from < k <= |tree|
          invariant forall j :: 0 <= j < k ==> Stop(tree[j]) <= lblk || !tree[j].kind.delayed
        {
          k := k + 1;
        }
        if k < |tree| && tree[k].lblk > end {
          NoneDelayed(tree, k, lblk, end);
          return |tree|;
        }
      }
      if k == |tree| { NoneDelayed(tree, k, lblk, end); }
    }

    /** ext4_es_find_delayed_extent_range */
    method FindDelayed(lblk: nat, end: nat) returns (r: Option<Entry>)
      requires Valid() && lblk <= end
      modifies `cache
      ensures Valid()
      ensures r.None? ==> forall b: nat :: lblk <= b <= end ==> !DelayedAt(tree, b)
      ensures cache == if r.Some? then Some(r.value.id) else old(cache)
      ensures r.Some? ==>
                && r.value in tree && 0 < r.value.len && lblk < Stop(r.value)
                && (forall b: nat :: Holds(r.value, b) ==> DelayedAt(tree, b))
                && (forall b: nat :: lblk <= b < r.value.lblk ==> !DelayedAt(tree, b))
    {
      var from := NodeFrom(lblk);
      var k := NextDelayed(from, lblk, end);
      if k == |tree| {
        return None;
      }
      r := Some(tree[k]);
      cache := Some(tree[k].id);
      NodesAt(tree, k);
      assert Good(tree[k]);
      FirstDelayed(tree, k, lblk);
    }

    /** ext4_find_delalloc_range */
    method FindDelallocRange(start: nat, end: nat) returns (found: bool)
      requires Valid() && start <= end
      modifies `cache
      ensures Valid()
      ensures found <==> exists b: nat :: start <= b <= end && DelayedAt(tree, b)
    {
      var es := FindDelayed(start, end);
      if es.None? {
        return false;
      } else if es.value.lblk <= start && start < Stop(es.value) {
        assert DelayedAt(tree, start);
        return true;
      } else if start <= es.value.lblk && es.value.lblk <= end {
        assert DelayedAt(tree, es.value.lblk);
        return true;
      } else {
        return false;
      }
    }
  }

  // ------------------------------------------------------- what was recorded

  ghost predicate AgreesWith(s: seq<Entry>, info: nat -> Option<Info>) {
    forall b: nat ::
      && (Look(s, b).Some? ==> info(b) == Look(s, b))
      && (info(b).Some? && info(b).value.kind.delayed ==> Look(s, b) == info(b))
  }

  ghost predicate DelayedAt(s: seq<Entry>, b: nat) {
    Look(s, b).Some? && Look(s, b).value.kind.delayed
  }

  /** The information that a call records about block b. */
  ghost function Recorded(lblk: nat, pblk: nat, kind: Kind, b: nat): Info
    requires lblk <= b
  {
    Info(kind, if kind.written || kind.unwritten then Some(pblk + (b - lblk)) else None)
  }

  ghost function Without(info: nat -> Option<Info>, lo: nat, hi: nat): nat -> Option<Info> {
    (b: nat) => if lo <= b < hi then None else info(b)
  }

  ghost function With(info: nat -> Option<Info>, e: Entry): nat -> Option<Info> {
    (b: nat) => if Holds(e, b) then Some(InfoAt(e, b)) else info(b)
  }

  lemma AgreesDropped(s: seq<Entry>, info: nat -> Option<Info>, s': seq<Entry>)
    requires AgreesWith(s, info) && Dropped(s, s')
    ensures AgreesWith(s', info)
  {
    forall b: nat
      ensures Look(s', b).Some? ==> info(b) == Look(s', b)
      ensures info(b).Some? && info(b).value.kind.delayed ==> Look(s', b) == info(b)
    {
      assert Look(s', b) == Look(s, b) || (Look(s', b) == None && Look(s, b).Some? && !Look(s, b).value.kind.delayed);
    }
  }

  lemma AgreesSame(s: seq<Entry>, info: nat -> Option<Info>, s': seq<Entry>)
    requires AgreesWith(s, info) && SameLook(s, s')
    ensures AgreesWith(s', info)
  {
    forall b: nat
      ensures Look(s', b).Some? ==> info(b) == Look(s', b)
      ensures info(b).Some? && info(b).value.kind.delayed ==> Look(s', b) == info(b)
    {
      assert Look(s', b) == Look(s, b);
    }
  }

  lemma AgreesErased(s: seq<Entry>, info: nat -> Option<Info>, lo: nat, hi: nat, s': seq<Entry>)
    requires AgreesWith(s, info) && ErasedOrDropped(s, lo, hi, s')
    ensures AgreesWith(s', Without(info, lo, hi + 1))
  {
    var info' := Without(info, lo, hi + 1);
    forall b: nat
      ensures Look(s', b).Some? ==> info'(b) == Look(s', b)
      ensures info'(b).Some? && info'(b).value.kind.delayed ==> Look(s', b) == info'(b)
    {
      assert if lo <= b <= hi then Look(s', b) == None
             else || Look(s', b) == Look(s, b)
                  || (Look(s', b) == None && Look(s, b).Some? && !Look(s, b).value.kind.delayed);
    }
  }

  lemma AgreesInserted(s: seq<Entry>, info: nat -> Option<Info>, e: Entry, s': seq<Entry>)
    requires AgreesWith(s, info) && Overrides(s, e, s')
    ensures AgreesWith(s', With(info, e))
  {
    var info' := With(info, e);
    forall b: nat
      ensures Look(s', b).Some? ==> info'(b) == Look(s', b)
      ensures info'(b).Some? && info'(b).value.kind.delayed ==> Look(s', b) == info'(b)
    {
      assert Look(s', b) == if Holds(e, b) then Some(InfoAt(e, b)) else Look(s, b);
    }
  }

  /** Information that is not delayed need not be in the tree. */
  lemma AgreesUnrecorded(s: seq<Entry>, info: nat -> Option<Info>, e: Entry)
    requires AgreesWith(s, info) && Empty(s, e) && !e.kind.delayed
    ensures AgreesWith(s, With(info, e))
  {
    var info' := With(info, e);
    forall b: nat
      ensures Look(s, b).Some? ==> info'(b) == Look(s, b)
      ensures info'(b).Some? && info'(b).value.kind.delayed ==> Look(s, b) == info'(b)
    {
      assert Holds(e, b) ==> Look(s, b) == None;
    }
  }

  /** Nothing is recorded about the blocks of e. */
  ghost predicate Empty(s: seq<Entry>, e: Entry) {
    forall b: nat :: Holds(e, b) ==> Look(s, b) == None
  }

  lemma RemovedEmpty(s: seq<Entry>, info: nat -> Option<Info>, e: Entry)
    requires AgreesWith(s, info) && forall b: nat :: Holds(e, b) ==> info(b) == None
    ensures Empty(s, e)
  {
    forall b: nat | Holds(e, b) ensures Look(s, b) == None { assert info(b) == None; }
  }

  lemma EmptyDisjoint(s: seq<Entry>, e: Entry)
    requires Tidy(s) && 0 < e.len && Empty(s, e)
    ensures Disjoint(s, e)
  {
    forall i | 0 <= i < |s| ensures Stop(s[i]) <= e.lblk || Stop(e) <= s[i].lblk {
      assert Good(s[i]);
      var b := if s[i].lblk < e.lblk then e.lblk else s[i].lblk;
      if Holds(s[i], b) && Holds(e, b) { LookHit(s, i, b); }
    }
  }

  lemma EmptyDropped(s: seq<Entry>, s': seq<Entry>, e: Entry)
    requires Empty(s, e) && Dropped(s, s')
    ensures Empty(s', e)
  {
    forall b: nat | Holds(e, b) ensures Look(s', b) == None { assert Look(s, b) == None; }
  }

  /** Nothing is recorded about the range. */
  ghost predicate Unknown(s: seq<Entry>, lblk: nat, len: nat) {
    forall b: nat :: lblk <= b < lblk + len ==> Look(s, b) == None
  }

  lemma UnknownRight(s: seq<Entry>, k: nat, lblk: nat, len: nat)
    requires Tidy(s) && k <= |s| && 0 < len
    requires forall j :: 0 <= j < k ==> Stop(s[j]) <= lblk
    requires forall j :: k <= j < |s| ==> lblk < Stop(s[j])
    ensures Unknown(s, lblk, len) <==> k == |s| || s[k].lblk > lblk + len - 1
  {
    if k == |s| || s[k].lblk > lblk + len - 1 {
      NothingThere(s, k, lblk, lblk + len - 1);
      forall b: nat | lblk <= b < lblk + len ensures Look(s, b) == None { assert Look(s, b) == None; }
    } else {
      var b := if s[k].lblk < lblk then lblk else s[k].lblk;
      LookHit(s, k, b);
    }
  }

  lemma UnknownDisjoint(s: seq<Entry>, e: Entry)
    requires Tidy(s) && 0 < e.len && Unknown(s, e.lblk, e.len)
    ensures Disjoint(s, e)
  {
    EmptyDisjoint(s, e);
  }

  /** A node that holds lblk is where the search for lblk ends. */
  lemma CoverFirst(s: seq<Entry>, k: nat, lblk: nat)
    requires Tidy(s) && k < |s| && Holds(s[k], lblk)
    ensures forall j :: 0 <= j < k ==> Stop(s[j]) <= lblk
    ensures forall j :: k <= j < |s| ==> lblk < Stop(s[j])
  {
    forall j | 0 <= j < k ensures Stop(s[j]) <= lblk { assert Precedes(s[j], s[k]); }
    forall j | k <= j < |s| ensures lblk < Stop(s[j]) { assert k < j ==> Precedes(s[k], s[j]); }
  }

  lemma NoneDelayed(s: seq<Entry>, k: nat, lblk: nat, end: nat)
    requires Tidy(s) && k <= |s| && (k < |s| ==> end < s[k].lblk)
    requires forall j :: 0 <= j < k ==> Stop(s[j]) <= lblk || !s[j].kind.delayed
    ensures forall b: nat :: lblk <= b <= end ==> !DelayedAt(s, b)
  {
    Later(s, k);
    forall b: nat | lblk <= b <= end ensures !DelayedAt(s, b) {
      if Look(s, b).Some? { var i := LookSome(s, b); }
    }
  }

  lemma FirstDelayed(s: seq<Entry>, k: nat, lblk: nat)
    requires Tidy(s) && k < |s| && s[k].kind.delayed
    requires forall j :: 0 <= j < k ==> Stop(s[j]) <= lblk || !s[j].kind.delayed
    ensures forall b: nat :: Holds(s[k], b) ==> DelayedAt(s, b)
    ensures forall b: nat :: lblk <= b < s[k].lblk ==> !DelayedAt(s, b)
  {
    forall b: nat | Holds(s[k], b) ensures DelayedAt(s, b) { LookHit(s, k, b); }
    Later(s, k);
    forall b: nat | lblk <= b < s[k].lblk ensures !DelayedAt(s, b) {
      if Look(s, b).Some? { var i := LookSome(s, b); }
    }
  }

  lemma Later(s: seq<Entry>, k: nat)
    requires Tidy(s)
    ensures k < |s| ==> forall i :: k <= i < |s| ==> s[k].lblk <= s[i].lblk
  {
    if k < |s| {
      forall i | k <= i < |s| ensures s[k].lblk <= s[i].lblk { assert k < i ==> Precedes(s[k], s[i]); }
    }
  }

  // ------------------------------------------------------------ remove lemmas

  /** The part of e before block b, and its part behind block b. */
  function HeadPart(e: Entry, b: nat): Entry
    requires e.lblk < b < Stop(e)
  {
    e.(len := b - e.lblk)
  }

  function TailPart(e: Entry, b: nat): Entry
    requires e.lblk <= b < Stop(e) - 1
  {
    var len := Stop(e) - 1 - b;
    e.(lblk := b + 1, len := len, pblk := if HasBlocks(e.kind) then e.pblk + e.len - len else e.pblk)
  }

  ghost predicate Erased(s: seq<Entry>, lo: nat, hi: nat, s': seq<Entry>) {
    forall b: nat :: Look(s', b) == if lo <= b <= hi then None else Look(s, b)
  }

  ghost predicate KeptOutside(s: seq<Entry>, lo: nat, hi: nat, s': seq<Entry>) {
    forall b: nat :: !(lo <= b <= hi) ==> Look(s', b) == Look(s, b)
  }

  /** Erased, and some of what was not delayed may be gone too. */
  ghost predicate ErasedOrDropped(s: seq<Entry>, lo: nat, hi: nat, s': seq<Entry>) {
    forall b: nat :: if lo <= b <= hi then Look(s', b) == None
                     else || Look(s', b) == Look(s, b)
                          || (Look(s', b) == None && Look(s, b).Some? && !Look(s, b).value.kind.delayed)
  }

  lemma ErasedDropped(s: seq<Entry>, t: seq<Entry>, lo: nat, hi: nat, s': seq<Entry>)
    requires Dropped(s, t) && Erased(t, lo, hi, s')
    ensures ErasedOrDropped(s, lo, hi, s')
  {
    forall b: nat
      ensures if lo <= b <= hi then Look(s', b) == None
              else || Look(s', b) == Look(s, b)
                   || (Look(s', b) == None && Look(s, b).Some? && !Look(s, b).value.kind.delayed)
    {
      assert Look(t, b) == Look(s, b) || (Look(t, b) == None && Look(s, b).Some? && !Look(s, b).value.kind.delayed);
    }
  }

  lemma HeadTidy(a: seq<Entry>, e: Entry, c: seq<Entry>, b: nat)
    requires Tidy(a + [e] + c) && e.lblk < b < Stop(e)
    ensures Tidy(a + [HeadPart(e, b)] + c)
  {
    ErasedTidy(a, e, c);
    TidyParts(a + [e], c);
    TidyParts(a, [e]);
    if a != [] { assert Precedes(a[|a|-1], [e][0]) && Good(a[|a|-1]); }
    TidyMiddle(a, HeadPart(e, b), c);
  }

  lemma TailTidy(a: seq<Entry>, e: Entry, c: seq<Entry>, b: nat)
    requires Tidy(a + [e] + c) && e.lblk <= b < Stop(e) - 1
    ensures Tidy(a + [TailPart(e, b)] + c)
  {
    ErasedTidy(a, e, c);
    if c != [] { assert Good(c[0]); }
    TidyMiddle(a, TailPart(e, b), c);
  }

  /** A replacement of e by e' loses only blocks of the range. */
  lemma Replaced(a: seq<Entry>, e: Entry, c: seq<Entry>, m: seq<Entry>, lo: nat, hi: nat)
    requires Tidy(a + [e] + c)
    requires forall b: nat :: !(lo <= b <= hi) && Holds(e, b) ==> Look(m, b) == Some(InfoAt(e, b))
    requires forall b: nat :: !(lo <= b <= hi) && !Holds(e, b) ==> Look(m, b) == None
    ensures KeptOutside(a + [e] + c, lo, hi, a + m + c)
  {
    forall b: nat | !(lo <= b <= hi) ensures Look(a + m + c, b) == Look(a + [e] + c, b) {
      LookMiddle(a, e, c, b);
      LookConcat(a + m, c, b);
      LookConcat(a, m, b);
    }
  }

  lemma HeadKept(a: seq<Entry>, e: Entry, c: seq<Entry>, lo: nat, hi: nat)
    requires Tidy(a + [e] + c) && e.lblk < lo < Stop(e) <= hi + 1
    ensures KeptOutside(a + [e] + c, lo, hi, a + [HeadPart(e, lo)] + c)
  {
    forall b: nat ensures Look([HeadPart(e, lo)], b) == LookOne(HeadPart(e, lo), b) { LookSingle(HeadPart(e, lo), b); }
    Replaced(a, e, c, [HeadPart(e, lo)], lo, hi);
  }

  lemma TailKept(a: seq<Entry>, e: Entry, c: seq<Entry>, lo: nat, hi: nat)
    requires Tidy(a + [e] + c) && lo <= e.lblk <= hi < Stop(e) - 1
    ensures KeptOutside(a + [e] + c, lo, hi, a + [TailPart(e, hi)] + c)
  {
    forall b: nat ensures Look([TailPart(e, hi)], b) == LookOne(TailPart(e, hi), b) { LookSingle(TailPart(e, hi), b); }
    Replaced(a, e, c, [TailPart(e, hi)], lo, hi);
  }

  lemma FreedInside(a: seq<Entry>, e: Entry, c: seq<Entry>, lo: nat, hi: nat)
    requires Tidy(a + [e] + c) && lo <= e.lblk && Stop(e) <= hi + 1
    ensures Tidy(a + c) && KeptOutside(a + [e] + c, lo, hi, a + c)
  {
    ErasedTidy(a, e, c);
    Replaced(a, e, c, [], lo, hi);
    assert a + [] + c == a + c;
  }

  lemma KeptTrans(s: seq<Entry>, t: seq<Entry>, u: seq<Entry>, lo: nat, hi: nat)
    requires KeptOutside(s, lo, hi, t) && KeptOutside(t, lo, hi, u)
    ensures KeptOutside(s, lo, hi, u)
  {
    forall b: nat | !(lo <= b <= hi) ensures Look(u, b) == Look(s, b) { assert Look(t, b) == Look(s, b); }
  }

  lemma ErasedKept(s: seq<Entry>, t: seq<Entry>, u: seq<Entry>, lo: nat, hi: nat)
    requires KeptOutside(s, lo, hi, t) && Erased(t, lo, hi, u)
    ensures Erased(s, lo, hi, u)
  {
    forall b: nat ensures Look(u, b) == if lo <= b <= hi then None else Look(s, b) {
      if !(lo <= b <= hi) { assert Look(t, b) == Look(s, b); }
    }
  }

  lemma NothingInside(s: seq<Entry>, a: seq<Entry>, c: seq<Entry>, u: seq<Entry>, lo: nat, hi: nat)
    requires u == a + c && Tidy(u) && KeptOutside(s, lo, hi, u)
    requires forall i :: 0 <= i < |a| ==> Stop(a[i]) <= lo
    requires c != [] ==> hi < c[0].lblk
    ensures Erased(s, lo, hi, u)
  {
    TidyParts(a, c);
    forall b: nat ensures Look(u, b) == if lo <= b <= hi then None else Look(s, b) {
      if lo <= b <= hi {
        LookConcat(a, c, b);
        LookNone(a, b);
        forall i | 0 <= i < |c| ensures !Holds(c[i], b) { assert i > 0 ==> Precedes(c[0], c[i]); }
        LookNone(c, b);
      }
    }
  }

  lemma NothingThere(s: seq<Entry>, k: nat, lo: nat, hi: nat)
    requires Tidy(s) && k <= |s| && (forall j :: 0 <= j < k ==> Stop(s[j]) <= lo) && (k < |s| ==> hi < s[k].lblk)
    ensures Erased(s, lo, hi, s)
  {
    assert s == s[..k] + s[k..];
    NothingInside(s, s[..k], s[k..], s, lo, hi);
  }

  lemma UnconsRest(a: seq<Entry>, rest: seq<Entry>, s: seq<Entry>)
    requires s == a + rest && |a| < |s|
    ensures rest != [] && s == a + [rest[0]] + rest[1..] && s[|a|] == rest[0]
    ensures forall i :: 0 <= i < |rest[1..]| ==> rest[1..][i] == rest[i+1]
  {
  }

  lemma AroundNode(a: seq<Entry>, e: Entry, c: seq<Entry>, s: seq<Entry>, k: nat, lo: nat)
    requires s == a + [e] + c && k == |a| && Tidy(s) && lo < Stop(e)
    requires forall j :: 0 <= j < k ==> Stop(s[j]) <= lo
    ensures forall i :: 0 <= i < |a| ==> Stop(a[i]) <= lo
    ensures forall i :: 0 <= i < |c| ==> lo <= c[i].lblk
    ensures e.lblk < lo ==> forall i :: 0 <= i < |a + [HeadPart(e, lo)]| ==> Stop((a + [HeadPart(e, lo)])[i]) <= lo
    ensures lo <= e.lblk ==> forall i :: 0 <= i < |[e] + c| ==> lo <= ([e] + c)[i].lblk
  {
    forall i | 0 <= i < |a| ensures Stop(a[i]) <= lo { assert s[i] == a[i]; }
    forall i | 0 <= i < |c|
      ensures lo <= c[i].lblk
    {
      assert s[k] == e && s[k + 1 + i] == c[i] && Precedes(s[k], s[k + 1 + i]);
    }
  }

  lemma PunchFits(a: seq<Entry>, e: Entry, c: seq<Entry>, lo: nat, hi: nat)
    requires Tidy(a + [e] + c) && e.lblk < lo <= hi < Stop(e) - 1
    ensures Good(TailPart(e, hi)) && Disjoint(a + [HeadPart(e, lo)] + c, TailPart(e, hi))
  {
    var s, h, t := a + [HeadPart(e, lo)] + c, HeadPart(e, lo), TailPart(e, hi);
    ErasedTidy(a, e, c);
    forall i | 0 <= i < |s| ensures Stop(s[i]) <= t.lblk || Stop(t) <= s[i].lblk {
      var u := a + [e] + c;
      if i < |a| {
        assert u[i] == s[i] && u[|a|] == e && Precedes(u[i], u[|a|]);
      } else if i > |a| {
        assert u[i] == s[i] && u[|a|] == e && Precedes(u[|a|], u[i]);
      }
    }
  }

  lemma PunchErased(a: seq<Entry>, e: Entry, c: seq<Entry>, lo: nat, hi: nat, t: Entry, s': seq<Entry>)
    requires Tidy(a + [e] + c) && e.lblk < lo <= hi < Stop(e) - 1
    requires t.lblk == hi + 1 && Stop(t) == Stop(e) && t.kind == e.kind &&
               (HasBlocks(e.kind) ==> t.pblk == e.pblk + e.len - t.len)
    requires Overrides(a + [HeadPart(e, lo)] + c, t, s')
    ensures Erased(a + [e] + c, lo, hi, s')
  {
    var h := HeadPart(e, lo);
    ErasedTidy(a, e, c);
    forall b: nat ensures Look(s', b) == if lo <= b <= hi then None else Look(a + [e] + c, b) {
      LookMiddle(a, e, c, b);
      LookMiddle(a, h, c, b);
      if Holds(e, b) {
        LookAhead(a, e, b);
        LookBehind(e, c, b);
      }
    }
  }

  lemma LookAhead(a: seq<Entry>, e: Entry, b: nat)
    requires Tidy(a) && (a != [] ==> Stop(a[|a|-1]) <= e.lblk) && e.lblk <= b
    ensures Look(a, b) == None
  {
    forall i | 0 <= i < |a| ensures !Holds(a[i], b) { assert i < |a| - 1 ==> Precedes(a[i], a[|a|-1]); }
    LookNone(a, b);
  }

  /** s' is s after reclaiming: nothing delayed is gone, and nothing has changed. */
  ghost predicate Dropped(s: seq<Entry>, s': seq<Entry>) {
    forall b: nat :: Look(s', b) == Look(s, b) ||
        (Look(s', b) == None && Look(s, b).Some? && !Look(s, b).value.kind.delayed)
  }

  /** What a scan makes of one node, and of a sequence of nodes. */
  function ScanOne(e: Entry): seq<Entry> {
    if e.kind.delayed then [e] else if e.referenced then [e.(referenced := false)] else []
  }

  function Scan(s: seq<Entry>): seq<Entry> {
    if s == [] then [] else ScanOne(s[0]) + Scan(s[1..])
  }

  lemma {:induction false} ScanSnoc(s: seq<Entry>, e: Entry)
    ensures Scan(s + [e]) == Scan(s) + ScanOne(e)
  {
    if s == [] {
      assert s + [e] == [e];
      assert Scan([e]) == ScanOne(e) + [];
    } else {
      assert (s + [e])[0] == s[0] && (s + [e])[1..] == s[1..] + [e];
      ScanSnoc(s[1..], e);
    }
  }

  /** The tree t is s with the nodes mid scanned: all that end behind from, up to end or to where the scan stopped. */
  ghost predicate Scanned(s: seq<Entry>, t: seq<Entry>, from: nat, end: nat, pre: seq<Entry>, mid: seq<Entry>,
                          post: seq<Entry>) {
    && s == pre + mid + post && t == pre + Scan(mid) + post
    && (forall i :: 0 <= i < |pre| ==> Stop(pre[i]) <= from)
    && (forall i :: 0 <= i < |mid| ==> from < Stop(mid[i]) && mid[i].lblk <= end)
    && (forall i :: 0 <= i < |post| ==> from < Stop(post[i]))
  }

  lemma ScannedStart(s: seq<Entry>, k: nat, from: nat, end: nat)
    requires k <= |s| && (forall j :: 0 <= j < k ==> Stop(s[j]) <= from) && forall j :: k <= j < |s| ==>
               from < Stop(s[j])
    ensures Scanned(s, s, from, end, s[..k], [], s[k..])
  {
    assert s == s[..k] + [] + s[k..];
  }

  lemma ScannedStep(s: seq<Entry>, t: seq<Entry>, from: nat, end: nat, pre: seq<Entry>, mid: seq<Entry>,
                    post: seq<Entry>, e: Entry, rest: seq<Entry>)
    requires Scanned(s, t, from, end, pre, mid, post) && post != [] && e == post[0] && rest == post[1..] &&
               e.lblk <= end
    ensures t == (pre + Scan(mid)) + [e] + rest && |Scan(mid + [e])| == |Scan(mid)| + |ScanOne(e)|
    ensures Scanned(s, (pre + Scan(mid)) + ScanOne(e) + rest, from, end, pre, mid + [e], rest)
  {
    assert post == [e] + rest;
    ScanSnoc(mid, e);
    Shifted(pre, mid, [e], rest, post, s);
    Shifted(pre, Scan(mid), [e], rest, post, t);
    Glued(pre, Scan(mid), ScanOne(e), rest);
  }

  lemma Shifted(pre: seq<Entry>, mid: seq<Entry>, e: seq<Entry>, rest: seq<Entry>, post: seq<Entry>, s: seq<Entry>)
    requires s == pre + mid + post && post == e + rest
    ensures s == pre + (mid + e) + rest && s == (pre + mid) + e + rest
  {
  }

  lemma Glued(pre: seq<Entry>, m: seq<Entry>, y: seq<Entry>, rest: seq<Entry>)
    ensures (pre + m) + y + rest == pre + (m + y) + rest
  {
  }

  /** No node has a mark that protects it. */
  ghost predicate Unmarked(s: seq<Entry>) {
    forall i :: 0 <= i < |s| ==> s[i].kind.delayed || !s[i].referenced
  }

  ghost predicate AllDelayed(s: seq<Entry>) {
    forall i :: 0 <= i < |s| ==> s[i].kind.delayed
  }

  /** What a scan that is not cut short makes of the nodes. */
  ghost predicate Cleaned(s: seq<Entry>, t: seq<Entry>) {
    Unmarked(t) && (Unmarked(s) ==> AllDelayed(t))
  }

  lemma {:induction false} ScanFacts(s: seq<Entry>)
    ensures |Scan(s)| <= |s| && Unmarked(Scan(s)) && (Unmarked(s) ==> AllDelayed(Scan(s)))
  {
    if s != [] { ScanFacts(s[1..]); }
  }

  lemma {:induction false} ScanConcat(s: seq<Entry>, t: seq<Entry>)
    ensures Scan(s + t) == Scan(s) + Scan(t)
  {
    if s == [] {
      assert s + t == t;
    } else {
      assert (s + t)[0] == s[0] && (s + t)[1..] == s[1..] + t;
      ScanConcat(s[1..], t);
    }
  }

  lemma {:induction false} NoneShrinkable(s: seq<Entry>)
    requires Shrinkable(s) == 0
    ensures AllDelayed(s)
  {
    if s != [] { NoneShrinkable(s[1..]); }
  }

  lemma {:induction false} DelayedNotShrinkable(s: seq<Entry>)
    requires AllDelayed(s)
    ensures Shrinkable(s) == 0
  {
    if s != [] { DelayedNotShrinkable(s[1..]); }
  }

  lemma PassEnds(s: seq<Entry>, pre: seq<Entry>, mid: seq<Entry>, post: seq<Entry>)
    requires Tidy(s) && s == pre + mid + post
    ensures pre != [] ==> 0 < Stop(pre[0])
    ensures post != [] ==> post[0].lblk < MAX_BLOCKS
  {
    if post != [] { assert s[|pre| + |mid|] == post[0] && Good(s[|pre| + |mid|]); }
    if pre != [] { assert s[0] == pre[0] && Good(s[0]); }
  }

  /** The pass from the last stop on scans everything behind it. */
  lemma FirstPass(s: seq<Entry>, t: seq<Entry>, start: nat, pre: seq<Entry>, mid: seq<Entry>)
    requires s == pre + mid && t == pre + Scan(mid) && (start == 0 ==> pre == [])
    ensures start == 0 ==> Cleaned(s, t)
  {
    if start == 0 {
      assert s == mid && t == Scan(mid);
      ScanFacts(mid);
    }
  }

  /** What lies wholly before the stop is before everything behind it. */
  lemma PassCovers(t: seq<Entry>, start: nat, pre: seq<Entry>, m: seq<Entry>, mid2: seq<Entry>, post2: seq<Entry>)
    requires Tidy(t) && t == pre + m && t == mid2 + post2
    requires forall i :: 0 <= i < |pre| ==> Stop(pre[i]) <= start
    requires post2 == [] || post2[0].lblk > start - 1
    ensures |pre| <= |mid2|
  {
    assert forall i :: 0 <= i < |pre| ==> t[i] == pre[i] && Good(t[i]);
    assert post2 != [] ==> t[|mid2|] == post2[0];
  }

  /** The pass from the beginning on scans everything before the stop. */
  lemma SecondPass(s: seq<Entry>, t: seq<Entry>, u: seq<Entry>, pre: seq<Entry>, mid: seq<Entry>, mid2: seq<Entry>,
                   post2: seq<Entry>)
    requires s == pre + mid && t == pre + Scan(mid) && |pre| <= |mid2|
    requires t == mid2 + post2 && u == Scan(mid2) + post2
    ensures Cleaned(s, u)
  {
    var x := mid2[|pre|..];
    Rejoined(pre, Scan(mid), mid2, x, post2, t);
    ScanConcat(pre, x);
    ScanFacts(mid);
    ScanFacts(pre);
    ScanFacts(x);
    Parts(x, post2, Scan(mid));
    Parts(Scan(pre), Scan(x), Scan(mid2));
    Parts(Scan(mid2), post2, u);
    Parts(pre, mid, s);
  }

  /** What is known after the pass from the last stop on. */
  ghost predicate HalfScanned(s: seq<Entry>, t: seq<Entry>, start: nat, pre: seq<Entry>, mid: seq<Entry>) {
    && s == pre + mid && t == pre + Scan(mid)
    && (forall i :: 0 <= i < |pre| ==> Stop(pre[i]) <= start)
    && (start == 0 ==> Cleaned(s, t))
  }

  lemma FirstScan(s: seq<Entry>, t: seq<Entry>, start: nat, pre: seq<Entry>, mid: seq<Entry>, post: seq<Entry>)
    requires Tidy(s) && Scanned(s, t, start, MAX_BLOCKS, pre, mid, post) && (post == [] || post[0].lblk > MAX_BLOCKS)
    ensures post == [] && HalfScanned(s, t, start, pre, mid)
  {
    PassEnds(s, pre, mid, post);
    assert s == pre + mid && t == pre + Scan(mid);
    FirstPass(s, t, start, pre, mid);
  }

  lemma SecondScan(s: seq<Entry>, t: seq<Entry>, u: seq<Entry>, start: nat, pre: seq<Entry>, mid: seq<Entry>,
                   pre2: seq<Entry>, mid2: seq<Entry>, post2: seq<Entry>)
    requires Tidy(t) && 0 < start && HalfScanned(s, t, start, pre, mid)
    requires Scanned(t, u, 0, start - 1, pre2, mid2, post2) && (post2 == [] || post2[0].lblk > start - 1)
    ensures Cleaned(s, u)
  {
    PassEnds(t, pre2, mid2, post2);
    assert t == mid2 + post2 && u == Scan(mid2) + post2;
    PassCovers(t, start, pre, Scan(mid), mid2, post2);
    SecondPass(s, t, u, pre, mid, mid2, post2);
  }

  lemma Rejoined(pre: seq<Entry>, m: seq<Entry>, mid2: seq<Entry>, x: seq<Entry>, post2: seq<Entry>, t: seq<Entry>)
    requires t == pre + m && t == mid2 + post2 && |pre| <= |mid2| && x == mid2[|pre|..]
    ensures mid2 == pre + x && m == x + post2
  {
    assert forall i :: 0 <= i < |pre| ==> pre[i] == t[i] == mid2[i];
    assert m == t[|pre|..];
  }

  lemma Parts(a: seq<Entry>, b: seq<Entry>, s: seq<Entry>)
    requires s == a + b
    ensures Unmarked(s) <==> Unmarked(a) && Unmarked(b)
    ensures AllDelayed(s) <==> AllDelayed(a) && AllDelayed(b)
  {
    assert forall i :: 0 <= i < |a| ==> a[i] == s[i];
    assert forall i :: 0 <= i < |b| ==> b[i] == s[|a| + i];
  }

  lemma DroppedNone(s: seq<Entry>)
    ensures Dropped(s, s)
  {
  }

  lemma DroppedTrans(s: seq<Entry>, s': seq<Entry>, s'': seq<Entry>)
    requires Dropped(s, s') && Dropped(s', s'')
    ensures Dropped(s, s'')
  {
    forall b: nat ensures Look(s'', b) == Look(s, b) ||
        (Look(s'', b) == None && Look(s, b).Some? && !Look(s, b).value.kind.delayed) {
      assert Look(s', b) == Look(s, b) || (Look(s', b) == None && Look(s, b).Some? && !Look(s, b).value.kind.delayed);
    }
  }

  lemma DroppedSame(s: seq<Entry>, s': seq<Entry>, s'': seq<Entry>)
    requires Dropped(s, s') && SameLook(s', s'')
    ensures Dropped(s, s'')
  {
    forall b: nat ensures Look(s'', b) == Look(s, b) ||
        (Look(s'', b) == None && Look(s, b).Some? && !Look(s, b).value.kind.delayed) {
      assert Look(s'', b) == Look(s', b);
    }
  }

  lemma ErasedTidy(a: seq<Entry>, e: Entry, c: seq<Entry>)
    requires Tidy(a + [e] + c)
    ensures Tidy(a + c) && Tidy(a) && Tidy(c) && Good(e)
    ensures a != [] ==> Stop(a[|a|-1]) <= e.lblk
    ensures c != [] ==> Precedes(e, c[0])
  {
    TidyParts(a + [e], c);
    TidyParts(a, [e]);
    assert Good([e][0]);
    if a != [] { assert Precedes(a[|a|-1], [e][0]); }
    if c != [] { assert Precedes((a + [e])[|a|], c[0]); }
    TidyJoin(a, c);
  }

  lemma DroppedOne(a: seq<Entry>, e: Entry, c: seq<Entry>)
    requires Tidy(a + [e] + c) && !e.kind.delayed
    ensures Tidy(a + c) && Dropped(a + [e] + c, a + c)
  {
    ErasedTidy(a, e, c);
    forall b: nat
      ensures || Look(a + c, b) == Look(a + [e] + c, b)
              || (Look(a + c, b) == None && Look(a + [e] + c, b).Some? && !Look(a + [e] + c, b).value.kind.delayed)
    {
      LookMiddle(a, e, c, b);
      LookConcat(a, c, b);
      if Holds(e, b) { LookBehind(e, c, b); }
    }
  }

  /** Behind an entry nothing holds its blocks. */
  lemma LookBehind(e: Entry, c: seq<Entry>, b: nat)
    requires Tidy(c) && (c != [] ==> Stop(e) <= c[0].lblk) && b < Stop(e)
    ensures Look(c, b) == None
  {
    forall i | 0 <= i < |c| ensures !Holds(c[i], b) { assert i > 0 ==> Precedes(c[0], c[i]); }
    LookNone(c, b);
  }

  /** t is s with node k marked as referenced. */
  ghost predicate MarkedAt(s: seq<Entry>, k: nat, t: seq<Entry>) {
    && k < |s| == |t| && t[k] == s[k].(referenced := true)
    && forall i :: 0 <= i < |s| && i != k ==> t[i] == s[i]
  }

  /** The reference mark is no part of what the tree records. */
  lemma Marked(a: seq<Entry>, e: Entry, c: seq<Entry>, mark: bool)
    requires Tidy(a + [e] + c)
    ensures Tidy(a + [e.(referenced := mark)] + c)
    ensures SameLook(a + [e] + c, a + [e.(referenced := mark)] + c)
  {
    var x := e.(referenced := mark);
    TidyParts(a + [e], c);
    TidyParts(a, [e]);
    assert Good([e][0]);
    if a != [] { assert Precedes(a[|a|-1], [e][0]); }
    if c != [] { assert Precedes((a + [e])[|a|], c[0]); }
    TidyMiddle(a, x, c);
    forall b: nat ensures Look(a + [x] + c, b) == Look(a + [e] + c, b) {
      LookMiddle(a, e, c, b);
      LookMiddle(a, x, c, b);
    }
  }

  lemma Unsnoc(a: seq<Entry>, j: Entry, c: seq<Entry>, s: seq<Entry>)
    requires a != [] && s == a + [j] + c
    ensures s == a[..|a|-1] + [a[|a|-1]] + ([j] + c) && a == a[..|a|-1] + [a[|a|-1]]
  {
  }

  lemma Uncons(a: seq<Entry>, j: Entry, c: seq<Entry>, s: seq<Entry>)
    requires c != [] && s == a + [j] + c
    ensures s == a + [j] + ([c[0]] + c[1..]) && c == [c[0]] + c[1..]
  {
  }

  lemma JoinedTidy(a: seq<Entry>, p: Entry, q: Entry, c: seq<Entry>, m: Entry)
    requires Tidy(a + [p]) && Good(q) && Tidy(c) && (c != [] ==> Precedes(q, c[0])) && CanMerge(p, q)
    requires m.lblk == p.lblk && m.len == p.len + q.len && m.kind == p.kind && m.pblk == p.pblk
    ensures Tidy(a + [m] + c) && SameLook(a + [p] + ([q] + c), a + [m] + c)
  {
    JoinLeft(a, p, q, m);
    TidyMiddle(a, m, c);
    assert a + [p] + ([q] + c) == a + [p] + [q] + c;
    MergedPair(a, p, q, c, m);
  }

  lemma InsertRightTidy(a: seq<Entry>, x: Entry, c: seq<Entry>, e: Entry, j: Entry)
    requires Tidy(a + [x] + c) && Disjoint(a + [x] + c, e) && Good(e) && CanMerge(e, x)
    requires j.lblk == e.lblk && j.len == e.len + x.len && j.kind == e.kind && (HasBlocks(e.kind) ==> j.pblk == e.pblk)
    ensures Overrides(a + [x] + c, e, a + [j] + c)
    ensures Good(j) && Tidy(a) && Tidy(c) && (c != [] ==> Precedes(j, c[0]))
    ensures a == [] || !CanMerge(a[|a|-1], j) ==> Tidy(a + [j] + c)
  {
    assert a + [x] + c == a + ([x] + c);
    TidyParts(a, [x] + c);
    assert Good(([x] + c)[0]);
    MergedNew(a, x, c, e, j);
    JoinRight(e, x, j, c);
    if a != [] {
      assert Precedes(a[|a|-1], ([x] + c)[0]);
      assert (a + [x] + c)[|a|-1] == a[|a|-1];
      assert Good(a[|a|-1]);
    }
    if a == [] || !CanMerge(a[|a|-1], j) { TidyMiddle(a, j, c); }
  }

  lemma InsertLeftTidy(a: seq<Entry>, x: Entry, c: seq<Entry>, e: Entry, j: Entry)
    requires Tidy(a + [x] + c) && Disjoint(a + [x] + c, e) && Good(e) && CanMerge(x, e)
    requires j.lblk == x.lblk && j.len == x.len + e.len && j.kind == x.kind && j.pblk == x.pblk
    ensures Overrides(a + [x] + c, e, a + [j] + c)
    ensures Good(j) && Tidy(a + [j]) && Tidy(c) && (c != [] ==> Tidy([c[0]] + c[1..]))
    ensures c != [] ==> Good(c[0]) && Tidy(c[1..]) && (c[1..] != [] ==> Precedes(c[0], c[1..][0]))
    ensures c == [] || !CanMerge(j, c[0]) ==> Tidy(a + [j] + c)
  {
    TidyParts(a + [x], c);
    TidyParts(a, [x]);
    assert Good([x][0]);
    assert !CanMerge(e, x);
    MergedNew(a, x, c, e, j);
    JoinLeft(a, x, e, j);
    TidyOne(j);
    TidyJoin(a, [j]);
    if c != [] {
      assert c == [c[0]] + c[1..];
      TidyParts([c[0]], c[1..]);
      assert (a + [x])[|a|] == x;
      assert Precedes((a + [x])[|a|], c[0]);
      assert (a + [x] + c)[|a| + 1] == c[0];
      assert Good(c[0]);
      assert c[1..] != [] ==> Precedes([c[0]][0], c[1..][0]);
    }
    if c == [] || !CanMerge(j, c[0]) { TidyMiddle(a, j, c); }
  }

  lemma EraseNodes(a: seq<Entry>, e: Entry, c: seq<Entry>)
    ensures forall id :: Nodes(a + c, id) <= Nodes(a + [e] + c, id)
    ensures forall id :: id != e.id ==> Nodes(a + c, id) == Nodes(a + [e] + c, id)
  {
    forall id ensures Nodes(a + c, id) == Nodes(a + [e] + c, id) - if e.id == id then 1 else 0 {
      NodesMiddle(a, e, c, id);
      NodesConcat(a, c, id);
    }
  }

  lemma AddNodes(a: seq<Entry>, e: Entry, c: seq<Entry>)
    ensures forall id :: Nodes(a + [e] + c, id) == Nodes(a + c, id) + if e.id == id then 1 else 0
  {
    forall id ensures Nodes(a + [e] + c, id) == Nodes(a + c, id) + if e.id == id then 1 else 0 {
      NodesMiddle(a, e, c, id);
      NodesConcat(a, c, id);
    }
  }
}
