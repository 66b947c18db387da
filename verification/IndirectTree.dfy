/**
  The indirect block tree (ext4/indirect.c): pointer slots, what a path leads to,
  truncation as a function, and the loops that free data blocks and branches.
 */
module IndirectTree {
  import opened Blocks
  import opened IndirectPath

  /** A block pointer together with the block it points to: nothing, a data block, or an indirect block. */
  datatype Slot = Empty | Block(nr: nat) | Ind(nr: nat, kids: seq<Slot>)

  /** A slot with d levels of indirection below it. */
  ghost predicate Shape(s: Slot, d: nat, ptrs: nat)
    decreases d, 0
  {
    s.Empty? ||
    (if d == 0 then s.Block? && 0 < s.nr
     else s.Ind? && 0 < s.nr && |s.kids| == ptrs && Shapes(s.kids, d - 1, ptrs))
  }

  ghost predicate Shapes(kids: seq<Slot>, d: nat, ptrs: nat)
    decreases d, 1
  {
    forall i :: 0 <= i < |kids| ==> Shape(kids[i], d, ptrs)
  }

  /** The data block at the end of the path, 0 for a hole. */
  function PathAt(s: Slot, path: seq<nat>): nat
    decreases |path|
  {
    match s
    case Empty => 0
    case Block(nr) => if path == [] then nr else 0
    case Ind(_, kids) => if path != [] && path[0] < |kids| then PathAt(kids[path[0]], path[1..]) else 0
  }

  function Empties(n: nat): (r: seq<Slot>)
    ensures |r| == n && forall i :: 0 <= i < n ==> r[i] == Empty
  {
    if n == 0 then [] else Empties(n - 1) + [Empty]
  }

  predicate AllEmpty(kids: seq<Slot>) {
    forall i :: 0 <= i < |kids| ==> kids[i].Empty?
  }

  /** What is left of s when everything from the path cut on is gone. An indirect block without
      pointers goes too. */
  function Trunc(s: Slot, cut: seq<nat>): Slot
    decreases |cut|
  {
    if s.Ind? && cut != [] && cut[0] < |s.kids| then
      var kids := s.kids[..cut[0]] + [Trunc(s.kids[cut[0]], cut[1..])] + Empties(|s.kids| - cut[0] - 1);
      if AllEmpty(kids) then Empty else Ind(s.nr, kids)
    else Empty
  }

  /** Truncation keeps the paths before cut and nothing else. */
  lemma {:induction false} TruncMap(s: Slot, d: nat, ptrs: nat, cut: seq<nat>, path: seq<nat>)
    requires Shape(s, d, ptrs) && |cut| == d && AllBelow(cut, ptrs) && |path| == d && AllBelow(path, ptrs)
    ensures PathAt(Trunc(s, cut), path) == if Before(path, cut) then PathAt(s, path) else 0
    decreases d
  {
    if s.Ind? && d > 0 {
      var i, j := cut[0], path[0];
      var kids := s.kids[..i] + [Trunc(s.kids[i], cut[1..])] + Empties(|s.kids| - i - 1);
      if j == i { TruncMap(s.kids[i], d - 1, ptrs, cut[1..], path[1..]); }
      assert PathAt(kids[j], path[1..]) == if Before(path, cut) then PathAt(s.kids[j], path[1..]) else 0;
    }
  }

  lemma {:induction false} TruncShape(s: Slot, d: nat, ptrs: nat, cut: seq<nat>)
    requires Shape(s, d, ptrs) && |cut| == d && AllBelow(cut, ptrs)
    ensures Shape(Trunc(s, cut), d, ptrs)
    decreases d
  {
    if s.Ind? && d > 0 {
      var i := cut[0];
      TruncShape(s.kids[i], d - 1, ptrs, cut[1..]);
      var kids := s.kids[..i] + [Trunc(s.kids[i], cut[1..])] + Empties(|s.kids| - i - 1);
      forall j | 0 <= j < |kids| ensures Shape(kids[j], d - 1, ptrs) {
        if j < i { assert kids[j] == s.kids[j]; }
      }
    }
  }

  lemma {:induction false} TruncZero(s: Slot, d: nat, ptrs: nat, cut: seq<nat>)
    requires Shape(s, d, ptrs) && |cut| == d && forall i :: 0 <= i < |cut| ==> cut[i] == 0
    ensures Trunc(s, cut) == Empty
    decreases d
  {
    if s.Ind? && d > 0 && 0 < |s.kids| {
      TruncZero(s.kids[0], d - 1, ptrs, cut[1..]);
      var kids := s.kids[..0] + [Empty] + Empties(|s.kids| - 1);
      assert AllEmpty(kids);
    }
  }

  // ----------------------------------------------------------------- counting

  /** How often p occurs as a data block, and how often as an indirect block. */
  ghost function DataIn(s: Slot, p: nat): nat
    decreases s, 0
  {
    match s
    case Empty => 0
    case Block(nr) => if nr == p then 1 else 0
    case Ind(_, kids) => DataOf(kids, p)
  }

  ghost function DataOf(kids: seq<Slot>, p: nat): nat
    decreases kids, 1
  {
    if kids == [] then 0 else DataIn(kids[0], p) + DataOf(kids[1..], p)
  }

  ghost function MetaIn(s: Slot, p: nat): nat
    decreases s, 0
  {
    match s
    case Ind(nr, kids) => (if nr == p then 1 else 0) + MetaOf(kids, p)
    case _ => 0
  }

  ghost function MetaOf(kids: seq<Slot>, p: nat): nat
    decreases kids, 1
  {
    if kids == [] then 0 else MetaIn(kids[0], p) + MetaOf(kids[1..], p)
  }

  lemma {:induction false} DataConcat(s: seq<Slot>, t: seq<Slot>, p: nat)
    ensures DataOf(s + t, p) == DataOf(s, p) + DataOf(t, p)
  {
    if s == [] {
      assert s + t == t;
    } else {
      assert (s + t)[0] == s[0] && (s + t)[1..] == s[1..] + t;
      DataConcat(s[1..], t, p);
    }
  }

  lemma {:induction false} MetaConcat(s: seq<Slot>, t: seq<Slot>, p: nat)
    ensures MetaOf(s + t, p) == MetaOf(s, p) + MetaOf(t, p)
  {
    if s == [] {
      assert s + t == t;
    } else {
      assert (s + t)[0] == s[0] && (s + t)[1..] == s[1..] + t;
      MetaConcat(s[1..], t, p);
    }
  }

  lemma CountOne(x: Slot, p: nat)
    ensures DataOf([x], p) == DataIn(x, p) && MetaOf([x], p) == MetaIn(x, p)
  {
    assert [x][1..] == [];
  }

  lemma CountMiddle(a: seq<Slot>, x: Slot, c: seq<Slot>, p: nat)
    ensures DataOf(a + [x] + c, p) == DataOf(a, p) + DataIn(x, p) + DataOf(c, p)
    ensures MetaOf(a + [x] + c, p) == MetaOf(a, p) + MetaIn(x, p) + MetaOf(c, p)
  {
    DataConcat(a + [x], c, p);
    DataConcat(a, [x], p);
    MetaConcat(a + [x], c, p);
    MetaConcat(a, [x], p);
    CountOne(x, p);
  }

  lemma {:induction false} CountEmpty(kids: seq<Slot>, p: nat)
    requires AllEmpty(kids)
    ensures DataOf(kids, p) == 0 && MetaOf(kids, p) == 0
  {
    if kids != [] { CountEmpty(kids[1..], p); }
  }

  lemma {:induction false} CountLeaves(kids: seq<Slot>, ptrs: nat, p: nat)
    requires Shapes(kids, 0, ptrs)
    ensures MetaOf(kids, p) == 0
  {
    if kids != [] { CountLeaves(kids[1..], ptrs, p); }
  }

  // -------------------------------------------------------------- freed blocks

  /** The log has gained exactly the blocks of the given slots. */
  ghost predicate Gained(log: seq<Freed>, gone: seq<Slot>, log': seq<Freed>) {
    && (forall p :: FreedData(log', p) == FreedData(log, p) + DataOf(gone, p))
    && (forall p :: FreedMeta(log', p) == FreedMeta(log, p) + MetaOf(gone, p))
  }

  lemma GainedTrans(l0: seq<Freed>, g0: seq<Slot>, l1: seq<Freed>, g1: seq<Slot>, l2: seq<Freed>, g: seq<Slot>)
    requires Gained(l0, g0, l1) && Gained(l1, g1, l2) && g == g1 + g0
    ensures Gained(l0, g, l2)
  {
    forall p: nat ensures FreedData(l2, p) == FreedData(l0, p) + DataOf(g, p) { DataConcat(g1, g0, p); }
    forall p: nat ensures FreedMeta(l2, p) == FreedMeta(l0, p) + MetaOf(g, p) { MetaConcat(g1, g0, p); }
  }

  // --------------------------------------------------------- ext4_free_data

  /** kids == pre + done + pend + rest: done is freed and cleared; pend is the run being collected. */
  ghost predicate Collecting(pre: seq<Slot>, done: seq<Slot>, pend: seq<Slot>, rest: seq<Slot>, kids: seq<Slot>,
                             cur: seq<Slot>, start: nat, count: nat) {
    && kids == pre + done + pend + rest && cur == pre + Empties(|done|) + pend + rest
    && (count == 0 ==> pend == [])
    && forall p: nat :: DataOf(pend, p) == if start <= p < start + count then 1 else 0
  }

  /** ext4_clear_blocks: clear the pointers of the collected run and free it. */
  method ClearBlocks(cur: seq<Slot>, from: nat, to: nat, start: nat, count: nat, log: seq<Freed>, ghost pre: seq<Slot>,
                     ghost done: seq<Slot>, ghost pend: seq<Slot>, ghost rest: seq<Slot>, ghost kids: seq<Slot>,
                     ghost log0: seq<Freed>, ghost ptrs: nat)
    returns (cur': seq<Slot>, log': seq<Freed>)
    requires Collecting(pre, done, pend, rest, kids, cur, start, count) && Gained(log0, done, log) &&
               Shapes(kids, 0, ptrs)
    requires from == |pre| + |done| && to == from + |pend|
    ensures Collecting(pre, done + pend, [], rest, kids, cur', 0, 0) && Gained(log0, done + pend, log')
  {
    cur' := cur[..from] + Empties(to - from) + cur[to..];
    log' := [Data(start, count)] + log;
    SpliceRun(pre, done, Empties(|done|), pend, Empties(to - from), rest, kids, cur, cur');
    EmptiesAdd(|done|, |pend|);
    assert |done + pend| == |done| + |pend|;
    FlushGained(pre, done, pend, rest, kids, start, count, log0, log, log', ptrs);
  }

  lemma {:induction false} EmptiesAdd(m: nat, n: nat)
    ensures Empties(m + n) == Empties(m) + Empties(n)
  {
    if n > 0 { EmptiesAdd(m, n - 1); }
  }

  lemma SpliceRun(pre: seq<Slot>, done: seq<Slot>, e: seq<Slot>, pend: seq<Slot>, e': seq<Slot>, rest: seq<Slot>,
                  kids: seq<Slot>, cur: seq<Slot>, cur': seq<Slot>)
    requires kids == pre + done + pend + rest && cur == pre + e + pend + rest && |e| == |done|
    requires cur' == cur[..|pre| + |done|] + e' + cur[|pre| + |done| + |pend|..]
    ensures kids == pre + (done + pend) + [] + rest && cur' == pre + (e + e') + [] + rest
  {
    assert cur[..|pre| + |done|] == pre + e && cur[|pre| + |done| + |pend|..] == rest;
  }

  lemma MoveHead(a: seq<Slot>, e: seq<Slot>, pend: seq<Slot>, rest: seq<Slot>, s: seq<Slot>, p: nat)
    requires s == a + e + pend + rest && p == |a| + |e| + |pend| && p < |s|
    ensures rest != [] && s[p] == rest[0] && s == a + e + (pend + [rest[0]]) + rest[1..]
  {
    assert rest == [rest[0]] + rest[1..];
  }

  lemma FlushGained(pre: seq<Slot>, done: seq<Slot>, pend: seq<Slot>, rest: seq<Slot>, kids: seq<Slot>, start: nat,
                    count: nat, log0: seq<Freed>, log: seq<Freed>, log': seq<Freed>, ptrs: nat)
    requires kids == pre + done + pend + rest && Shapes(kids, 0, ptrs) && Gained(log0, done, log)
    requires forall p: nat :: DataOf(pend, p) == if start <= p < start + count then 1 else 0
    requires log' == [Data(start, count)] + log
    ensures Gained(log0, done + pend, log')
  {
    forall i | 0 <= i < |pend| ensures Shape(pend[i], 0, ptrs) { assert kids[|pre| + |done| + i] == pend[i]; }
    forall p: nat ensures FreedData(log', p) == FreedData(log0, p) + DataOf(done + pend, p) {
      FreedCons(Data(start, count), log, p);
      DataConcat(done, pend, p);
    }
    forall p: nat ensures FreedMeta(log', p) == FreedMeta(log0, p) + MetaOf(done + pend, p) {
      FreedCons(Data(start, count), log, p);
      MetaConcat(done, pend, p);
      CountLeaves(pend, ptrs, p);
    }
  }

  /** ext4_free_data: free runs of contiguous blocks and clear their pointers. */
  method FreeData(kids: seq<Slot>, first: nat, last: nat, ghost ptrs: nat, log: seq<Freed>)
    returns (cur: seq<Slot>, log': seq<Freed>)
    requires first <= last <= |kids| && Shapes(kids, 0, ptrs)
    ensures cur == kids[..first] + Empties(last - first) + kids[last..]
    ensures Gained(log, kids[first..last], log')
  {
    cur, log' := kids, log;
    var start: nat, count: nat, from: nat, p: nat := 0, 0, first, first;
    ghost var pre, done, pend, rest: seq<Slot> := kids[..first], [], [], kids[first..];
    CollectStart(kids, first);
    while p < last
      invariant first <= from <= p <= last && p == first + |done| + |pend| && from == first + |done| && |pre| == first
      invariant Collecting(pre, done, pend, rest, kids, cur, start, count)
      invariant Gained(log, done, log')
    {
      TakeRest(pre, done, pend, rest, kids, cur, p, ptrs);
      var x := cur[p];
      if x.Block? && count > 0 && x.nr != start + count {
        cur, log' := ClearBlocks(cur, from, p, start, count, log', pre, done, pend, rest, kids, log, ptrs);
        done, pend, from, start, count := done + pend, [], p, 0, 0;
        TakeRest(pre, done, pend, rest, kids, cur, p, ptrs);
      }
      if x.Block? || count > 0 {
        CollectOne(pend, x, start, count);
        if x.Block? {
          start, count := if count == 0 then x.nr else start, count + 1;
        }
        pend := pend + [x];
      } else {
        SkipHole(pre, done, rest, kids, cur, log, log');
        done, from := done + [x], from + 1;
      }
      rest := rest[1..];
      p := p + 1;
    }
    if count > 0 {
      cur, log' := ClearBlocks(cur, from, p, start, count, log', pre, done, pend, rest, kids, log, ptrs);
      done, pend := done + pend, [];
    }
    CollectEnd(pre, done, rest, kids, cur, first, last);
  }

  lemma CollectStart(kids: seq<Slot>, first: nat)
    requires first <= |kids|
    ensures Collecting(kids[..first], [], [], kids[first..], kids, kids, 0, 0)
  {
    assert kids == kids[..first] + kids[first..];
  }

  lemma TakeRest(pre: seq<Slot>, done: seq<Slot>, pend: seq<Slot>, rest: seq<Slot>, kids: seq<Slot>, cur: seq<Slot>,
                 p: nat, ptrs: nat)
    requires kids == pre + done + pend + rest && cur == pre + Empties(|done|) + pend + rest
    requires p == |pre| + |done| + |pend| && p < |kids| && Shapes(kids, 0, ptrs)
    ensures rest != [] && cur[p] == rest[0] && (cur[p].Empty? || (cur[p].Block? && 0 < cur[p].nr))
    ensures kids == pre + done + (pend + [rest[0]]) + rest[1..] &&
              cur == pre + Empties(|done|) + (pend + [rest[0]]) + rest[1..]
  {
    MoveHead(pre, done, pend, rest, kids, p);
    MoveHead(pre, Empties(|done|), pend, rest, cur, p);
    assert Shape(kids[p], 0, ptrs);
  }

  lemma CollectOne(pend: seq<Slot>, x: Slot, start: nat, count: nat)
    requires (count == 0 ==> pend == []) &&
               forall p: nat :: DataOf(pend, p) == if start <= p < start + count then 1 else 0
    requires x.Empty? || (x.Block? && (count == 0 || x.nr == start + count))
    ensures var start', count' := if x.Block? && count == 0 then x.nr else start, if x.Block? then count + 1 else count;
            forall p: nat :: DataOf(pend + [x], p) == if start' <= p < start' + count' then 1 else 0
  {
    forall p: nat ensures DataOf(pend + [x], p) == DataOf(pend, p) + DataIn(x, p) {
      DataConcat(pend, [x], p);
      CountOne(x, p);
    }
  }

  lemma SkipHole(pre: seq<Slot>, done: seq<Slot>, rest: seq<Slot>, kids: seq<Slot>, cur: seq<Slot>, log: seq<Freed>,
                 log': seq<Freed>)
    requires kids == pre + done + [] + rest && cur == pre + Empties(|done|) + [] + rest && rest != [] && rest[0].Empty?
    requires Gained(log, done, log')
    ensures Collecting(pre, done + [rest[0]], [], rest[1..], kids, cur, 0, 0) && Gained(log, done + [rest[0]], log')
  {
    assert Empties(|done + [rest[0]]|) == Empties(|done|) + [Empty];
    HoleMoves(pre, done, rest, kids);
    HoleMoves(pre, Empties(|done|), rest, cur);
    forall p: nat ensures DataOf(done + [rest[0]], p) == DataOf(done, p) &&
        MetaOf(done + [rest[0]], p) == MetaOf(done, p) {
      DataConcat(done, [rest[0]], p);
      MetaConcat(done, [rest[0]], p);
      CountOne(rest[0], p);
    }
  }

  lemma HoleMoves(a: seq<Slot>, e: seq<Slot>, rest: seq<Slot>, s: seq<Slot>)
    requires s == a + e + [] + rest && rest != []
    ensures s == a + (e + [rest[0]]) + [] + rest[1..]
  {
    assert rest == [rest[0]] + rest[1..];
  }

  lemma CollectEnd(pre: seq<Slot>, done: seq<Slot>, rest: seq<Slot>, kids: seq<Slot>, cur: seq<Slot>, first: nat,
                   last: nat)
    requires kids == pre + done + [] + rest && cur == pre + Empties(|done|) + [] + rest && |pre| == first &&
               first + |done| == last
    ensures cur == kids[..first] + Empties(last - first) + kids[last..] && done == kids[first..last]
  {
  }

  // ------------------------------------------------------ ext4_free_branches

  lemma {:induction false} EmptiesCons(n: nat)
    ensures Empties(n + 1) == [Empty] + Empties(n)
  {
    if n > 0 { EmptiesCons(n - 1); }
  }

  /** A branch is gone when everything below it and then its own block has been freed. */
  lemma FreedNode(x: Slot, log: seq<Freed>, mid: seq<Freed>, log': seq<Freed>)
    requires x.Ind? && Gained(log, x.kids, mid) && log' == [Meta(x.nr)] + mid
    ensures Gained(log, [x], log')
  {
    forall p: nat ensures FreedData(log', p) == FreedData(log, p) + DataOf([x], p) &&
        FreedMeta(log', p) == FreedMeta(log, p) + MetaOf([x], p) {
      FreedCons(Meta(x.nr), mid, p);
      CountOne(x, p);
    }
  }

  lemma GainedNothing(x: Slot, log: seq<Freed>)
    requires x.Empty?
    ensures Gained(log, [x], log)
  {
    forall p: nat ensures DataOf([x], p) == 0 && MetaOf([x], p) == 0 { CountOne(x, p); }
  }

  /** ext4_free_branches: from right to left, each subtree bottom up. */
  method FreeBranches(kids: seq<Slot>, first: nat, last: nat, depth: nat, ghost ptrs: nat, log: seq<Freed>)
    returns (cur: seq<Slot>, log': seq<Freed>)
    requires first <= last <= |kids| && Shapes(kids, depth, ptrs)
    ensures cur == kids[..first] + Empties(last - first) + kids[last..]
    ensures Gained(log, kids[first..last], log')
    decreases depth
  {
    if depth == 0 {
      cur, log' := FreeData(kids, first, last, ptrs, log);
      return;
    }
    cur, log' := kids, log;
    var p := last;
    ghost var a, todo, done, c: seq<Slot> := kids[..first], kids[first..last], [], kids[last..];
    BranchStart(kids, first, last, log);
    while p > first
      invariant first <= p <= last && p == first + |todo| && |a| == first
      invariant kids == a + todo + done + c && cur == a + todo + Empties(|done|) + c
      invariant Gained(log, done, log')
    {
      p := p - 1;
      BranchLast(a, todo, done, Empties(|done|), c, kids, cur, p);
      EmptiesCons(|done|);
      var x := cur[p];
      assert Shape(kids[p], depth, ptrs);
      ghost var log0 := log';
      if x.Ind? {
        var _, l := FreeBranches(x.kids, 0, |x.kids|, depth - 1, ptrs, log');
        assert x.kids[0..|x.kids|] == x.kids;
        log' := [Meta(x.nr)] + l;
        FreedNode(x, log0, l, log');
        cur := cur[p := Empty];
      } else {
        GainedNothing(x, log');
      }
      GainedTrans(log, done, log0, [x], log', [x] + done);
      todo, done := todo[..|todo|-1], [x] + done;
    }
    BranchEnd(a, todo, done, c, kids, cur, first, last);
  }

  lemma BranchStart(kids: seq<Slot>, first: nat, last: nat, log: seq<Freed>)
    requires first <= last <= |kids|
    ensures var a, todo, c := kids[..first], kids[first..last], kids[last..];
            kids == a + todo + [] + c && kids == a + todo + Empties(0) + c
  {
  }

  lemma BranchLast(a: seq<Slot>, todo: seq<Slot>, done: seq<Slot>, e: seq<Slot>, c: seq<Slot>, kids: seq<Slot>,
                   cur: seq<Slot>, p: nat)
    requires kids == a + todo + done + c && cur == a + todo + e + c && todo != [] && p == |a| + |todo| - 1
    ensures p < |kids| && p < |cur|
    ensures var x, todo' := todo[|todo|-1], todo[..|todo|-1];
            && kids[p] == x && cur[p] == x && kids == a + todo' + ([x] + done) + c
            && cur == a + todo' + ([x] + e) + c && cur[p := Empty] == a + todo' + ([Empty] + e) + c
  {
    assert todo == todo[..|todo|-1] + [todo[|todo|-1]];
  }

  lemma BranchEnd(a: seq<Slot>, todo: seq<Slot>, done: seq<Slot>, c: seq<Slot>, kids: seq<Slot>, cur: seq<Slot>,
                  first: nat, last: nat)
    requires kids == a + todo + done + c && cur == a + todo + Empties(|done|) + c && todo == [] && |a| == first
    requires |kids| == last + |c|
    ensures cur == kids[..first] + Empties(last - first) + kids[last..] && done == kids[first..last]
  {
  }
}
