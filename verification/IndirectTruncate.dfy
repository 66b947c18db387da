/**
  Truncating a file that is mapped by indirect blocks (ext4/indirect.c):
  ext4_find_shared and ext4_ind_truncate.
 */
module IndirectTruncate {
  import opened Wrappers
  import opened Blocks
  import opened IndirectPath
  import opened IndirectTree

  // --------------------------------------------------------- inside a subtree

  /** path leads from slot to slot through indirect blocks. */
  ghost predicate Reaches(s: Slot, path: seq<nat>)
    decreases |path|
  {
    path == [] || (s.Ind? && path[0] < |s.kids| && Reaches(s.kids[path[0]], path[1..]))
  }

  function Get(s: Slot, path: seq<nat>): Slot
    requires Reaches(s, path)
    decreases |path|
  {
    if path == [] then s else Get(s.kids[path[0]], path[1..])
  }

  function Put(s: Slot, path: seq<nat>, x: Slot): Slot
    requires Reaches(s, path)
    decreases |path|
  {
    if path == [] then x else Ind(s.nr, s.kids[path[0] := Put(s.kids[path[0]], path[1..], x)])
  }

  lemma {:induction false} GetSnoc(s: Slot, path: seq<nat>, i: nat)
    requires Reaches(s, path)
    ensures Reaches(s, path + [i]) <==> Get(s, path).Ind? && i < |Get(s, path).kids|
    ensures Reaches(s, path + [i]) ==> Get(s, path + [i]) == Get(s, path).kids[i]
    decreases |path|
  {
    if path == [] {
      assert path + [i] == [i] && [i][1..] == [];
    } else {
      assert (path + [i])[0] == path[0] && (path + [i])[1..] == path[1..] + [i];
      GetSnoc(s.kids[path[0]], path[1..], i);
    }
  }

  lemma {:induction false} GetShape(s: Slot, d: nat, ptrs: nat, path: seq<nat>)
    requires Shape(s, d, ptrs) && Reaches(s, path) && |path| <= d
    ensures Shape(Get(s, path), d - |path|, ptrs)
    decreases |path|
  {
    if path != [] { GetShape(s.kids[path[0]], d - 1, ptrs, path[1..]); }
  }

  lemma {:induction false} PutGet(s: Slot, path: seq<nat>, x: Slot)
    requires Reaches(s, path)
    ensures Reaches(Put(s, path, x), path) && Get(Put(s, path, x), path) == x
    decreases |path|
  {
    if path != [] { PutGet(s.kids[path[0]], path[1..], x); }
  }

  lemma {:induction false} PutSame(s: Slot, path: seq<nat>)
    requires Reaches(s, path)
    ensures Put(s, path, Get(s, path)) == s
    decreases |path|
  {
    if path != [] { PutSame(s.kids[path[0]], path[1..]); }
  }

  lemma {:induction false} PutPut(s: Slot, path: seq<nat>, x: Slot, y: Slot)
    requires Reaches(s, path)
    ensures Reaches(Put(s, path, x), path) && Put(Put(s, path, x), path, y) == Put(s, path, y)
    decreases |path|
  {
    if path != [] { PutPut(s.kids[path[0]], path[1..], x, y); }
  }

  lemma {:induction false} PutSnoc(s: Slot, path: seq<nat>, i: nat, x: Slot)
    requires Reaches(s, path) && Reaches(s, path + [i])
    ensures Get(s, path).Ind? && i < |Get(s, path).kids|
    ensures Put(s, path + [i], x) == Put(s, path, Ind(Get(s, path).nr, Get(s, path).kids[i := x]))
    decreases |path|
  {
    GetSnoc(s, path, i);
    if path == [] {
      assert path + [i] == [i] && [i][1..] == [];
    } else {
      assert (path + [i])[0] == path[0] && (path + [i])[1..] == path[1..] + [i];
      GetSnoc(s.kids[path[0]], path[1..], i);
      PutSnoc(s.kids[path[0]], path[1..], i, x);
    }
  }

  lemma {:induction false} PutCount(s: Slot, path: seq<nat>, x: Slot, p: nat)
    requires Reaches(s, path)
    ensures DataIn(Put(s, path, x), p) + DataIn(Get(s, path), p) == DataIn(s, p) + DataIn(x, p)
    ensures MetaIn(Put(s, path, x), p) + MetaIn(Get(s, path), p) == MetaIn(s, p) + MetaIn(x, p)
    decreases |path|
  {
    if path != [] {
      var i := path[0];
      var k, k' := s.kids[i], Put(s.kids[i], path[1..], x);
      PutCount(k, path[1..], x, p);
      assert s.kids == s.kids[..i] + [k] + s.kids[i+1..];
      assert s.kids[i := k'] == s.kids[..i] + [k'] + s.kids[i+1..];
      CountMiddle(s.kids[..i], k, s.kids[i+1..], p);
      CountMiddle(s.kids[..i], k', s.kids[i+1..], p);
    }
  }

  /** No block is lost: what left the tree is in the log. */
  ghost predicate Kept(s: Slot, log: seq<Freed>, s': Slot, log': seq<Freed>) {
    && (forall p: nat :: DataIn(s', p) + FreedData(log', p) == DataIn(s, p) + FreedData(log, p))
    && (forall p: nat :: MetaIn(s', p) + FreedMeta(log', p) == MetaIn(s, p) + FreedMeta(log, p))
  }

  /** Some pointers of one block have been freed and cleared. */
  lemma KeptAgain(s: Slot, log: seq<Freed>, cur: Slot, mid: seq<Freed>, path: seq<nat>, first: nat, kids: seq<Slot>,
                  log': seq<Freed>)
    requires Kept(s, log, cur, mid) && Reaches(cur, path) && Get(cur, path).Ind?
    requires var k := Get(cur, path).kids;
             && first <= |k| && Gained(mid, k[first..|k|], log')
             && kids == k[..first] + Empties(|k| - first) + k[|k|..]
    ensures Kept(s, log, Put(cur, path, Ind(Get(cur, path).nr, kids)), log')
  {
    var node := Get(cur, path);
    var x := Ind(node.nr, kids);
    forall p: nat
      ensures DataIn(Put(cur, path, x), p) + FreedData(log', p) == DataIn(s, p) + FreedData(log, p)
      ensures MetaIn(Put(cur, path, x), p) + FreedMeta(log', p) == MetaIn(s, p) + FreedMeta(log, p)
    {
      PutCount(cur, path, x, p);
      ClearedCount(node.kids, first, |node.kids|, p);
      assert DataIn(cur, p) + FreedData(mid, p) == DataIn(s, p) + FreedData(log, p);
      assert MetaIn(cur, p) + FreedMeta(mid, p) == MetaIn(s, p) + FreedMeta(log, p);
    }
  }

  lemma KeptCleared(s: Slot, log: seq<Freed>, path: seq<nat>, first: nat, kids: seq<Slot>, log': seq<Freed>)
    requires Reaches(s, path) && Get(s, path).Ind?
    requires var k := Get(s, path).kids;
             && first <= |k| && Gained(log, k[first..], log') && kids == k[..first] + Empties(|k| - first)
    ensures Kept(s, log, Put(s, path, Ind(Get(s, path).nr, kids)), log')
  {
    var k := Get(s, path).kids;
    assert k[first..|k|] == k[first..] && kids == k[..first] + Empties(|k| - first) + k[|k|..];
    KeptAgain(s, log, s, log, path, first, kids, log');
  }

  lemma ClearedCount(kids: seq<Slot>, first: nat, last: nat, p: nat)
    requires first <= last <= |kids|
    ensures var kids' := kids[..first] + Empties(last - first) + kids[last..];
            && DataOf(kids', p) + DataOf(kids[first..last], p) == DataOf(kids, p)
            && MetaOf(kids', p) + MetaOf(kids[first..last], p) == MetaOf(kids, p)
  {
    var a, m, c, e := kids[..first], kids[first..last], kids[last..], Empties(last - first);
    assert kids == a + m + c;
    DataConcat(a + m, c, p); DataConcat(a, m, p);
    MetaConcat(a + m, c, p); MetaConcat(a, m, p);
    DataConcat(a + e, c, p); DataConcat(a, e, p);
    MetaConcat(a + e, c, p); MetaConcat(a, e, p);
    CountEmpty(e, p);
  }

  // ----------------------------------------------------------- find shared

  /** ext4_get_branch: the first level below k whose pointer is zero. */
  method GetBranch(s: Slot, cut: seq<nat>, k: nat, ghost d: nat, ghost ptrs: nat) returns (hole: Option<nat>)
    requires Shape(s, d, ptrs) && |cut| == d && AllBelow(cut, ptrs) && 0 < k <= d + 1
    ensures hole.Some? ==> hole.value < k && Reaches(s, cut[..hole.value]) && Get(s, cut[..hole.value]).Empty?
    ensures hole.None? ==> Reaches(s, cut[..k-1]) && !Get(s, cut[..k-1]).Empty?
  {
    var l := 0;
    assert cut[..0] == [];
    while l + 1 < k
      invariant 0 <= l < k && Reaches(s, cut[..l])
    {
      if Get(s, cut[..l]).Empty? {
        return Some(l);
      }
      Down(s, cut, l, d, ptrs);
      l := l + 1;
    }
    return if Get(s, cut[..l]).Empty? then Some(l) else None;
  }

  lemma Down(s: Slot, cut: seq<nat>, l: nat, d: nat, ptrs: nat)
    requires Shape(s, d, ptrs) && |cut| == d && AllBelow(cut, ptrs) && l < d && Reaches(s, cut[..l]) &&
               !Get(s, cut[..l]).Empty?
    ensures Get(s, cut[..l]).Ind? && cut[l] < |Get(s, cut[..l]).kids|
    ensures Reaches(s, cut[..l+1]) && Get(s, cut[..l+1]) == Get(s, cut[..l]).kids[cut[l]]
  {
    GetShape(s, d, ptrs, cut[..l]);
    assert cut[..l+1] == cut[..l] + [cut[l]];
    GetSnoc(s, cut[..l], cut[l]);
  }

  /** Nothing of the slot at level l of the path survives. */
  ghost predicate Vanishes(s: Slot, cut: seq<nat>, l: nat)
    requires l <= |cut| && Reaches(s, cut[..l])
  {
    Trunc(Get(s, cut[..l]), cut[l..]) == Empty
  }

  /** Above a slot that vanishes, a block without earlier pointers vanishes too. */
  lemma VanishUp(s: Slot, cut: seq<nat>, l: nat)
    requires 0 < l <= |cut| && Reaches(s, cut[..l]) && Vanishes(s, cut, l)
    ensures Reaches(s, cut[..l-1]) && Get(s, cut[..l-1]).Ind? && cut[l-1] < |Get(s, cut[..l-1]).kids|
    ensures AllEmpty(Get(s, cut[..l-1]).kids[..cut[l-1]]) ==> Vanishes(s, cut, l - 1)
  {
    Above(s, cut, l);
    var x := Get(s, cut[..l-1]);
    assert cut[l-1..][0] == cut[l-1] && cut[l-1..][1..] == cut[l..];
  }

  lemma Above(s: Slot, cut: seq<nat>, l: nat)
    requires 0 < l <= |cut| && Reaches(s, cut[..l])
    ensures Reaches(s, cut[..l-1]) && Get(s, cut[..l-1]).Ind? && cut[l-1] < |Get(s, cut[..l-1]).kids|
    ensures Get(s, cut[..l]) == Get(s, cut[..l-1]).kids[cut[l-1]]
  {
    assert cut[..l] == cut[..l-1] + [cut[l-1]];
    PrefixReaches(s, cut[..l-1], [cut[l-1]]);
    GetSnoc(s, cut[..l-1], cut[l-1]);
  }

  lemma {:induction false} PrefixReaches(s: Slot, p: seq<nat>, q: seq<nat>)
    requires Reaches(s, p + q)
    ensures Reaches(s, p)
    decreases |p|
  {
    if p != [] {
      assert (p + q)[0] == p[0] && (p + q)[1..] == p[1..] + q;
      PrefixReaches(s.kids[p[0]], p[1..], q);
    }
  }

  /** ext4_find_shared: level l is the deepest pointer whose block survives; all is the case in
      which the pointer at that level is cleared with those behind it. */
  method FindShared(s: Slot, cut: seq<nat>, ghost d: nat, ghost ptrs: nat) returns (l: nat, all: bool)
    requires Shape(s, d, ptrs) && |cut| == d && AllBelow(cut, ptrs)
    ensures l <= d && Reaches(s, cut[..l]) && Vanishes(s, cut, l)
    ensures l > 0 ==> Reaches(s, cut[..l-1]) && Get(s, cut[..l-1]).Ind? && cut[l-1] < |Get(s, cut[..l-1]).kids|
    ensures l > 0 ==> !AllEmpty(Get(s, cut[..l-1]).kids[..cut[l-1]])
    ensures all ==> l > 0
  {
    var k := |cut| + 1;
    while k > 1 && cut[k-2] == 0
      invariant 1 <= k <= d + 1
      invariant forall i :: k - 1 <= i < d ==> cut[i] == 0
    {
      k := k - 1;
    }
    var hole := GetBranch(s, cut, k, d, ptrs);
    l := if hole.Some? then hole.value else k - 1;
    assert Vanishes(s, cut, l) by {
      if hole.None? {
        GetShape(s, d, ptrs, cut[..l]);
        TruncZero(Get(s, cut[..l]), d - l, ptrs, cut[l..]);
      }
    }
    while l > 0 && BlockBefore(s, cut, l)
      invariant l <= d && Reaches(s, cut[..l]) && Vanishes(s, cut, l)
    {
      VanishUp(s, cut, l);
      l := l - 1;
    }
    all := l == k - 1 && l > 0;
    if l > 0 { VanishUp(s, cut, l); }
  }

  /** all_zeroes on the pointers of the block at level l that come before the path. */
  predicate BlockBefore(s: Slot, cut: seq<nat>, l: nat)
    requires 0 < l <= |cut| && Reaches(s, cut[..l])
  {
    Above(s, cut, l);
    AllEmpty(Get(s, cut[..l-1]).kids[..cut[l-1]])
  }

  // ---------------------------------------------------------------- truncate

  /** The block at level j of the path looks as truncation wants it, the levels above are as before. */
  ghost predicate Trimmed(s: Slot, cut: seq<nat>, j: nat, cur: Slot)
    requires j <= |cut| && Reaches(s, cut[..j])
  {
    var t := Trunc(Get(s, cut[..j]), cut[j..]);
    t.Ind? && cur == Put(s, cut[..j], t)
  }

  lemma TrimBlock(y: Slot, cut: seq<nat>, x: Slot, kids: seq<Slot>)
    requires y.Ind? && cut != [] && cut[0] < |y.kids| && x == Trunc(y.kids[cut[0]], cut[1..])
    requires kids == y.kids[..cut[0]] + [x] + Empties(|y.kids| - cut[0] - 1)
    requires !AllEmpty(y.kids[..cut[0]]) || !x.Empty?
    ensures Trunc(y, cut) == Ind(y.nr, kids)
  {
    if x.Empty? {
      var i :| 0 <= i < |y.kids[..cut[0]]| && !y.kids[..cut[0]][i].Empty?;
      assert kids[i] == y.kids[..cut[0]][i];
    } else {
      assert kids[cut[0]] == x;
    }
  }

  /** Free the pointers of a block from i on; the top of the shared branch separately unless all is set. */
  method ClearFrom(kids: seq<Slot>, i: nat, all: bool, depth: nat, ghost ptrs: nat, log: seq<Freed>)
    returns (cur: seq<Slot>, log': seq<Freed>)
    requires i < |kids| && Shapes(kids, depth, ptrs)
    ensures cur == kids[..i] + Empties(|kids| - i) && Gained(log, kids[i..], log')
  {
    if all {
      cur, log' := FreeBranches(kids, i, |kids|, depth, ptrs, log);
      assert kids[i..|kids|] == kids[i..] && cur == kids[..i] + Empties(|kids| - i);
      return;
    }
    cur, log' := kids, log;
    if !kids[i].Empty? {
      cur, log' := FreeBranches(kids, i, i + 1, depth, ptrs, log);
    }
    TopCleared(kids, i, cur, depth, ptrs, log, log');
    ghost var kids1, log1 := cur, log';
    cur, log' := FreeBranches(cur, i + 1, |cur|, depth, ptrs, log');
    RestCleared(kids, i, kids1, cur, log, log1, log');
  }

  lemma TopCleared(kids: seq<Slot>, i: nat, cur: seq<Slot>, depth: nat, ptrs: nat, log: seq<Freed>, log': seq<Freed>)
    requires i < |kids| && Shapes(kids, depth, ptrs)
    requires if kids[i].Empty? then cur == kids && log' == log
             else cur == kids[..i] + Empties(1) + kids[i+1..] && Gained(log, kids[i..i+1], log')
    ensures cur == kids[i := Empty] && Shapes(cur, depth, ptrs) && Gained(log, [kids[i]], log')
  {
    assert Empties(1) == [Empty] && kids[i..i+1] == [kids[i]];
    if kids[i].Empty? { GainedNothing(kids[i], log); }
  }

  lemma RestCleared(kids: seq<Slot>, i: nat, kids1: seq<Slot>, cur: seq<Slot>, log: seq<Freed>, log1: seq<Freed>,
                    log2: seq<Freed>)
    requires i < |kids| && kids1 == kids[i := Empty] && Gained(log, [kids[i]], log1)
    requires cur == kids1[..i+1] + Empties(|kids1| - i - 1) + kids1[|kids1|..] &&
               Gained(log1, kids1[i+1..|kids1|], log2)
    ensures cur == kids[..i] + Empties(|kids| - i) && Gained(log, kids[i..], log2)
  {
    var rest := kids[i+1..];
    assert kids1[i+1..|kids1|] == rest && kids[i..] == [kids[i]] + rest;
    EmptiesCons(|kids| - i - 1);
    assert kids1[..i+1] == kids[..i] + [Empty];
    forall p: nat ensures FreedData(log2, p) == FreedData(log, p) + DataOf(kids[i..], p) &&
        FreedMeta(log2, p) == FreedMeta(log, p) + MetaOf(kids[i..], p) {
      DataConcat([kids[i]], rest, p);
      MetaConcat([kids[i]], rest, p);
    }
  }

  /** The deepest surviving block: its pointer on the path and those behind it go. */
  method ClearDeepest(s: Slot, cut: seq<nat>, l: nat, all: bool, ghost d: nat, ghost ptrs: nat, log: seq<Freed>)
    returns (cur: Slot, log': seq<Freed>)
    requires Shape(s, d, ptrs) && |cut| == d && 0 < l <= d && Reaches(s, cut[..l]) && Vanishes(s, cut, l)
    requires Reaches(s, cut[..l-1]) && Get(s, cut[..l-1]).Ind? && cut[l-1] < |Get(s, cut[..l-1]).kids|
    requires !AllEmpty(Get(s, cut[..l-1]).kids[..cut[l-1]])
    ensures Trimmed(s, cut, l - 1, cur) && Kept(s, log, cur, log')
  {
    var path, i := cut[..l-1], cut[l-1];
    var node := Get(s, path);
    GetShape(s, d, ptrs, path);
    Above(s, cut, l);
    var kids;
    kids, log' := ClearFrom(node.kids, i, all, |cut| - l, ptrs, log);
    cur := Put(s, path, Ind(node.nr, kids));
    KeptCleared(s, log, path, i, kids, log');
    DeepestTrim(node, cut[l-1..], kids);
  }

  lemma DeepestTrim(y: Slot, cut: seq<nat>, kids: seq<Slot>)
    requires y.Ind? && cut != [] && cut[0] < |y.kids| && Trunc(y.kids[cut[0]], cut[1..]) == Empty
    requires kids == y.kids[..cut[0]] + Empties(|y.kids| - cut[0]) && !AllEmpty(y.kids[..cut[0]])
    ensures Trunc(y, cut) == Ind(y.nr, kids)
  {
    EmptiesCons(|y.kids| - cut[0] - 1);
    assert kids == y.kids[..cut[0]] + [Empty] + Empties(|y.kids| - cut[0] - 1);
    TrimBlock(y, cut, Empty, kids);
  }

  /** A block further up: the pointers behind the path go. */
  method ClearBehind(s: Slot, cut: seq<nat>, j: nat, cur: Slot, ghost d: nat, ghost ptrs: nat, log: seq<Freed>,
                     ghost log0: seq<Freed>)
    returns (cur': Slot, log': seq<Freed>)
    requires Shape(s, d, ptrs) && |cut| == d && AllBelow(cut, ptrs) && 0 < j <= d && Reaches(s, cut[..j]) &&
               Trimmed(s, cut, j, cur)
    requires Kept(s, log0, cur, log)
    ensures Reaches(s, cut[..j-1]) && Trimmed(s, cut, j - 1, cur') && Kept(s, log0, cur', log')
  {
    var path, i := cut[..j-1], cut[j-1];
    Above(s, cut, j);
    ghost var t := Trunc(Get(s, cut[..j]), cut[j..]);
    ghost var y := Get(s, path);
    assert cut[..j] == path + [i];
    PutSnoc(s, path, i, t);
    PutGet(s, path, Ind(y.nr, y.kids[i := t]));
    var node := Get(cur, path);
    GetShape(s, d, ptrs, path);
    GetShape(s, d, ptrs, cut[..j]);
    TruncShape(Get(s, cut[..j]), d - j, ptrs, cut[j..]);
    var kids;
    kids, log' := FreeBranches(node.kids, i + 1, |node.kids|, |cut| - j, ptrs, log);
    cur' := Put(cur, path, Ind(node.nr, kids));
    KeptAgain(s, log0, cur, log, path, i + 1, kids, log');
    PutPut(s, path, Ind(y.nr, y.kids[i := t]), Ind(node.nr, kids));
    BehindTrim(y, cut[j-1..], t, kids);
  }

  lemma BehindTrim(y: Slot, cut: seq<nat>, t: Slot, kids: seq<Slot>)
    requires y.Ind? && cut != [] && cut[0] < |y.kids| && t == Trunc(y.kids[cut[0]], cut[1..]) && !t.Empty?
    requires var k := y.kids[cut[0] := t]; kids == k[..cut[0]+1] + Empties(|k| - (cut[0] + 1)) + k[|k|..]
    ensures Trunc(y, cut) == Ind(y.nr, kids)
  {
    var k := y.kids[cut[0] := t];
    assert k[..cut[0]+1] == y.kids[..cut[0]] + [t] && k[|k|..] == [];
    assert kids == y.kids[..cut[0]] + [t] + Empties(|y.kids| - cut[0] - 1);
    TrimBlock(y, cut, t, kids);
  }

  /** Truncating the tree below one slot of the inode: the branch part of ext4_ind_truncate. */
  method TruncSlot(s: Slot, cut: seq<nat>, ghost d: nat, ghost ptrs: nat, log: seq<Freed>)
    returns (cur: Slot, log': seq<Freed>)
    requires Shape(s, d, ptrs) && |cut| == d && AllBelow(cut, ptrs)
    ensures cur == Trunc(s, cut) && Kept(s, log, cur, log')
  {
    var l, all := FindShared(s, cut, d, ptrs);
    assert cut[..0] == [] && cut[0..] == cut;
    if l == 0 {
      cur, log' := FreeWhole(s, |cut|, ptrs, log);
      return;
    }
    cur, log' := ClearDeepest(s, cut, l, all, d, ptrs, log);
    var j := l - 1;
    while j > 0
      invariant 0 <= j < d && Reaches(s, cut[..j]) && Trimmed(s, cut, j, cur) && Kept(s, log, cur, log')
    {
      cur, log' := ClearBehind(s, cut, j, cur, d, ptrs, log', log);
      j := j - 1;
    }
  }

  /** A whole tree that hangs off the inode. */
  method FreeWhole(s: Slot, depth: nat, ghost ptrs: nat, log: seq<Freed>) returns (cur: Slot, log': seq<Freed>)
    requires Shape(s, depth, ptrs)
    ensures cur == Empty && Kept(s, log, cur, log')
  {
    cur, log' := Empty, log;
    if !s.Empty? {
      var _, l := FreeBranches([s], 0, 1, depth, ptrs, log);
      log' := l;
      assert [s][0..1] == [s];
      forall p: nat ensures DataOf([s], p) == DataIn(s, p) && MetaOf([s], p) == MetaIn(s, p) { CountOne(s, p); }
    }
  }
}
