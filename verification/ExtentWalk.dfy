/**
  ext4_ext_rm_idx and the facts about trees that the right-to-left walk of
  ext4_ext_remove_space needs: edits below a path leave everything beside the
  path alone.
 */
module ExtentWalk {
  import opened Blocks
  import opened ExtentTree
  import opened ExtentInsert

  // ------------------------------------------------------- beside the path

  /** At every level of pos, the two trees agree on what lies left and right of it. */
  ghost predicate SameAround(t: Tree, t': Tree, pos: seq<nat>) {
    && Reaches(t, pos) && Reaches(t', pos)
    && forall j :: 0 <= j <= |pos| ==> AroundAt(t, t', pos, j)
  }

  ghost predicate AroundAt(t: Tree, t': Tree, pos: seq<nat>, j: nat)
    requires j <= |pos|
  {
    && Reaches(t, pos[..j]) && Reaches(t', pos[..j])
    && Before(t, pos[..j]) == Before(t', pos[..j])
    && After(t, pos[..j]) == After(t', pos[..j])
    && (j < |pos| ==>
          Sub(t, pos[..j]).Node? && Sub(t', pos[..j]).Node? &&
          |Sub(t, pos[..j]).kids| == |Sub(t', pos[..j]).kids|)
  }

  lemma AroundCons(t: Tree, t': Tree, pos: seq<nat>)
    requires pos != [] && t.Node? && t'.Node? && |t.kids| == |t'.kids| && pos[0] < |t.kids|
    requires FlatKids(t.kids[..pos[0]]) == FlatKids(t'.kids[..pos[0]])
    requires FlatKids(t.kids[pos[0]+1..]) == FlatKids(t'.kids[pos[0]+1..])
    requires SameAround(t.kids[pos[0]].sub, t'.kids[pos[0]].sub, pos[1..])
    ensures SameAround(t, t', pos)
  {
    forall j | 0 <= j <= |pos| ensures AroundAt(t, t', pos, j) {
      if j > 0 {
        assert AroundAt(t.kids[pos[0]].sub, t'.kids[pos[0]].sub, pos[1..], j - 1);
        assert pos[..j][0] == pos[0] && pos[..j][1..] == pos[1..][..j-1];
      }
    }
  }

  lemma {:induction false} AroundPut(t: Tree, pos: seq<nat>, s: Tree)
    requires Reaches(t, pos)
    ensures SameAround(t, Put(t, pos, s), pos)
    decreases |pos|
  {
    if pos == [] {
      assert forall j :: 0 <= j <= 0 ==> AroundAt(t, s, [], j);
    } else {
      var t', i := Put(t, pos, s), pos[0];
      AroundPut(t.kids[i].sub, pos[1..], s);
      assert t'.kids[..i] == t.kids[..i] && t'.kids[i+1..] == t.kids[i+1..];
      AroundCons(t, t', pos);
    }
  }

  lemma {:induction false} AroundPutKeyed(t: Tree, pos: seq<nat>, s: Tree)
    requires Reaches(t, pos)
    ensures SameAround(t, PutKeyed(t, pos, s), pos)
    decreases |pos|
  {
    if pos == [] {
      assert forall j :: 0 <= j <= 0 ==> AroundAt(t, s, [], j);
    } else {
      var t', i := PutKeyed(t, pos, s), pos[0];
      AroundPutKeyed(t.kids[i].sub, pos[1..], s);
      assert t'.kids[..i] == t.kids[..i] && t'.kids[i+1..] == t.kids[i+1..];
      AroundCons(t, t', pos);
    }
  }

  lemma AroundTrans(t: Tree, t': Tree, t'': Tree, pos: seq<nat>)
    requires SameAround(t, t', pos) && SameAround(t', t'', pos)
    ensures SameAround(t, t'', pos)
  {
    forall j | 0 <= j <= |pos| ensures AroundAt(t, t'', pos, j) {
      assert AroundAt(t, t', pos, j) && AroundAt(t', t'', pos, j);
    }
  }

  lemma AroundFlip(t: Tree, t': Tree, pos: seq<nat>)
    requires SameAround(t, t', pos)
    ensures SameAround(t', t, pos)
  {
    forall j | 0 <= j <= |pos| ensures AroundAt(t', t, pos, j) { assert AroundAt(t, t', pos, j); }
  }

  lemma AroundPrefix(t: Tree, t': Tree, pos: seq<nat>, i: nat)
    requires SameAround(t, t', pos) && i <= |pos|
    ensures SameAround(t, t', pos[..i])
  {
    assert AroundAt(t, t', pos, i);
    forall j | 0 <= j <= i ensures AroundAt(t, t', pos[..i], j) {
      assert AroundAt(t, t', pos, j);
      assert pos[..i][..j] == pos[..j];
    }
  }

  lemma OneStep(n: Tree, k: nat)
    requires n.Node? && k < |n.kids|
    ensures Reaches(n, [k]) && Sub(n, [k]) == n.kids[k].sub
    ensures Before(n, [k]) == FlatKids(n.kids[..k]) && After(n, [k]) == FlatKids(n.kids[k+1..])
  {
    assert [k][0] == k && [k][1..] == [];
    assert Before(n.kids[k].sub, []) == [] && After(n.kids[k].sub, []) == [];
  }

  /** The two sides of a path in terms of its last step. */
  lemma LastStep(t: Tree, pos: seq<nat>, k: nat)
    requires Reaches(t, pos) && Sub(t, pos).Node? && k < |Sub(t, pos).kids|
    ensures Reaches(t, pos + [k]) && Sub(t, pos + [k]) == Sub(t, pos).kids[k].sub
    ensures Before(t, pos + [k]) == Before(t, pos) + FlatKids(Sub(t, pos).kids[..k])
    ensures After(t, pos + [k]) == FlatKids(Sub(t, pos).kids[k+1..]) + After(t, pos)
  {
    var n := Sub(t, pos);
    OneStep(n, k);
    PathConcat(t, pos, [k]);
    SidesConcat(t, pos, [k]);
  }

  lemma Snoc(pos: seq<nat>)
    requires pos != []
    ensures pos == pos[..|pos|-1] + [pos[|pos|-1]]
  {
  }

  // ------------------------------------------------------------ ext4_ext_rm_idx

  function Without(kids: seq<Kid>, k: nat): seq<Kid>
    requires k < |kids|
  {
    kids[..k] + kids[k+1..]
  }

  /** ext4_ext_rm_idx: the node at pos of tree t has become empty; its index entry
      goes away, its block is freed, and the keys above follow. */
  method RmIdx(ino: Inode, pos: seq<nat>, ghost t: Tree)
    requires Fits(ino.g, t, ino.depth, true) && pos != [] && Reaches(t, pos) && |pos| <= ino.depth
    requires Reaches(ino.root, pos) && ino.root == Put(t, pos, Sub(ino.root, pos)) && Entries(Sub(ino.root, pos)) == 0
    modifies ino
    ensures ino.depth == old(ino.depth) && ino.pool == old(ino.pool) && ino.pendingIo == old(ino.pendingIo)
    ensures forall b :: ino.Held(b) == old(ino.Held(b))
    ensures forall p :: FreedData(ino.freed, p) == FreedData(old(ino.freed), p)
    ensures var q, k := pos[..|pos|-1], pos[|pos|-1];
            && Reaches(t, q) && Sub(t, q).Node? && k < |Sub(t, q).kids|
            && var kids := Without(Sub(t, q).kids, k);
               ino.root == if kids == [] then Put(t, q, Node([])) else PutKeyed(t, q, Node(kids))
  {
    var l := |pos| - 1;
    var q, k := pos[..l], pos[l];
    RmIdxStart(t, pos, ino.root);
    FitsSub(ino.g, t, ino.depth, true, q);
    var node := Sub(ino.root, q);
    var blk := node.kids[k].blk;
    // the key found at the entry's place after the entries behind it moved up
    var border := if k + 1 < |node.kids| then node.kids[k+1].key else node.kids[k].key;
    var rest := Node(Without(node.kids, k));
    ghost var r0 := ino.root;
    ino.root := Put(ino.root, q, rest);
    ino.freed := [Meta(blk)] + ino.freed;
    assert ino.freed[1..] == old(ino.freed);
    RmIdxUses(t, pos, r0);
    if k == 0 {
      if rest.kids == [] {
        // the stale key is written back into the ancestors it came from
        FirstKid(ino.g, Sub(t, q).kids, ino.depth - l - 1);
        assert Sub(t, q) == Node(Sub(t, q).kids);
        StaleKeys(ino, q, border, t);
      } else {
        SecondFirst(ino.g, Sub(t, q).kids, ino.depth - l - 1);
        NewFirstKeys(ino, q, border, t, rest);
      }
    } else {
      RmIdxInner(ino.g, t, ino.depth, q, k);
    }
  }

  lemma SecondFirst(g: Geometry, kids: seq<Kid>, d: nat)
    requires KidsFit(g, kids, d) && 1 < |kids|
    ensures Flat(Node(Without(kids, 0))) != [] && First(Node(Without(kids, 0))) == kids[1].key
  {
    var rest := Without(kids, 0);
    assert rest == kids[1..];
    forall j | 0 <= j < |rest| ensures KidFits(g, rest[j], d) { assert KidFits(g, kids[j+1], d); }
    FirstKid(g, rest, d);
    assert FlatKids(rest) == FlatKid(rest[0]) + FlatKids(rest[1..]);
  }

  lemma RmIdxStart(t: Tree, pos: seq<nat>, cur: Tree)
    requires pos != [] && Reaches(t, pos) && Reaches(cur, pos) && cur == Put(t, pos, Sub(cur, pos))
    ensures var q, k := pos[..|pos|-1], pos[|pos|-1];
            && Reaches(t, q) && Reaches(cur, q) && Sub(t, q).Node? && Sub(cur, q).Node?
            && k < |Sub(t, q).kids|
            && Sub(cur, q).kids == Sub(t, q).kids[k := Sub(t, q).kids[k].(sub := Sub(cur, pos))]
            && Without(Sub(cur, q).kids, k) == Without(Sub(t, q).kids, k)
            && forall s :: Put(cur, q, s) == Put(t, q, s)
  {
    var l := |pos| - 1;
    var q, k := pos[..l], pos[l];
    PathStep(t, pos, l);
    assert pos[..l+1] == pos;
    var z := Sub(cur, pos);
    PutOne(Sub(t, q), k, z);
    PutReaches(t, q, Put(Sub(t, q), [k], z));
    forall s ensures Put(cur, q, s) == Put(t, q, s) { PutPut(t, q, Put(Sub(t, q), [k], z), s); }
  }

  lemma RmIdxUses(t: Tree, pos: seq<nat>, cur: Tree)
    requires pos != [] && Reaches(t, pos) && Reaches(cur, pos) && cur == Put(t, pos, Sub(cur, pos))
    requires Entries(Sub(cur, pos)) == 0
    ensures var q, k := pos[..|pos|-1], pos[|pos|-1];
            && Reaches(t, q) && Sub(t, q).Node? && k < |Sub(t, q).kids|
            && forall b :: Uses(Put(t, q, Node(Without(Sub(t, q).kids, k))), b) +
                 (if Sub(t, q).kids[k].blk == b then 1 else 0) == Uses(cur, b)
  {
    var q, k := pos[..|pos|-1], pos[|pos|-1];
    RmIdxStart(t, pos, cur);
    var n := Sub(cur, q);
    var rest := Without(n.kids, k);
    PutParts(t, q, Node(rest));
    PutParts(t, q, n);
    PutSame(cur, q);
    assert cur == Put(t, q, n);
    forall b ensures Uses(Put(t, q, Node(rest)), b) + (if Sub(t, q).kids[k].blk == b then 1 else 0) == Uses(cur, b) {
      UsesKidsAt(n.kids, k, b);
      UsesKidsConcat(n.kids[..k], n.kids[k+1..], b);
      assert Uses(Sub(cur, pos), b) == 0;
    }
  }

  /** Removing an entry that is not the first changes no key. */
  lemma RmIdxInner(g: Geometry, t: Tree, d: nat, q: seq<nat>, k: nat)
    requires Fits(g, t, d, true) && Reaches(t, q) && |q| < d && Sub(t, q).Node? && 0 < k < |Sub(t, q).kids|
    ensures Put(t, q, Node(Without(Sub(t, q).kids, k))) == PutKeyed(t, q, Node(Without(Sub(t, q).kids, k)))
  {
    var kids, rest := Sub(t, q).kids, Without(Sub(t, q).kids, k);
    FitsSub(g, t, d, true, q);
    FirstKid(g, kids, d - |q| - 1);
    assert rest[0] == kids[0];
    assert FlatKids(rest) == FlatKid(rest[0]) + FlatKids(rest[1..]);
    assert FlatKids(kids) == FlatKid(kids[0]) + FlatKids(kids[1..]);
    PutKeyedSame(g, t, d, true, q, Node(rest));
  }

  /** The key loop of ext4_ext_rm_idx when the first entry was removed and another follows. */
  method NewFirstKeys(ino: Inode, q: seq<nat>, border: nat, ghost t: Tree, ghost rest: Tree)
    requires Fits(ino.g, t, ino.depth, true) && Reaches(t, q) && |q| <= ino.depth
    requires ino.root == Put(t, q, rest) && Flat(rest) != [] && First(rest) == border
    modifies ino`root
    ensures ino.root == PutKeyed(t, q, rest)
    ensures forall b :: Uses(ino.root, b) == old(Uses(ino.root, b))
  {
    assert q[..|q|] == q && q[|q|..] == [];
    PathPrefix(t, q, |q|);
    var k := |q|;
    while k > 0 && (k == |q| || q[k] == 0)
      invariant 0 <= k <= |q| && Reaches(t, q[..k]) && Reaches(Sub(t, q[..k]), q[k..])
      invariant ino.root == Put(t, q[..k], PutKeyed(Sub(t, q[..k]), q[k..], rest))
      invariant k == |q| || q[k] == 0 ==>
                  && Flat(PutKeyed(Sub(t, q[..k]), q[k..], rest)) != []
                  && First(PutKeyed(Sub(t, q[..k]), q[k..], rest)) == border
    {
      k := k - 1;
      CorrectStep(t, q, k, rest, ino.root, border);
      var node := Sub(ino.root, q[..k]);
      ino.root := Put(ino.root, q[..k], Node(node.kids[q[k] := node.kids[q[k]].(key := border)]));
    }
    CorrectDone(ino.g, t, ino.depth, q, k, rest);
    PutKeyedParts(t, q, rest);
  }

  /** The same loop when the node has become empty: every key it writes is already there. */
  method StaleKeys(ino: Inode, q: seq<nat>, border: nat, ghost t: Tree)
    requires Fits(ino.g, t, ino.depth, true) && Reaches(t, q) && |q| < ino.depth
    requires Sub(t, q).Node? && border == First(Sub(t, q))
    requires ino.root == Put(t, q, Node([]))
    modifies ino`root
    ensures ino.root == old(ino.root)
  {
    var k := |q|;
    assert q[..|q|] == q;
    while k > 0 && (k == |q| || q[k] == 0)
      invariant 0 <= k <= |q| && ino.root == old(ino.root) && Reaches(t, q[..k])
      invariant k == |q| || q[k] == 0 ==> First(Sub(t, q[..k])) == border
    {
      k := k - 1;
      StaleStep(ino.g, t, ino.depth, q, k, ino.root, border);
      var node := Sub(ino.root, q[..k]);
      ino.root := Put(ino.root, q[..k], Node(node.kids[q[k] := node.kids[q[k]].(key := border)]));
    }
  }

  lemma StaleStep(g: Geometry, t: Tree, d: nat, q: seq<nat>, k: nat, cur: Tree, border: nat)
    requires Fits(g, t, d, true) && Reaches(t, q) && k < |q| < d
    requires cur == Put(t, q, Node([]))
    requires Reaches(t, q[..k+1]) && First(Sub(t, q[..k+1])) == border
    ensures Reaches(t, q[..k]) && Reaches(cur, q[..k]) && Sub(cur, q[..k]).Node? && q[k] < |Sub(cur, q[..k]).kids|
    ensures var node := Sub(cur, q[..k]);
            Put(cur, q[..k], Node(node.kids[q[k] := node.kids[q[k]].(key := border)])) == cur
    ensures q[k] == 0 ==> First(Sub(t, q[..k])) == border
  {
    PathStep(t, q, k);
    FitsSub(g, t, d, true, q[..k]);
    var c := Sub(t, q[..k]);
    assert KidFits(g, c.kids[q[k]], d - k - 1);
    if q[k] == 0 { FirstKid(g, c.kids, d - k - 1); }
    PathPrefix(t, q, k);
    assert q[k..][0] == q[k];
    var c' := Put(c, q[k..], Node([]));
    assert Reaches(cur, q[..k]) && Sub(cur, q[..k]) == c' by {
      assert q == q[..k] + q[k..];
      PutConcat(t, q[..k], q[k..], Node([]));
      PutReaches(t, q[..k], c');
    }
    assert c'.kids[q[k]].key == c.kids[q[k]].key == border;
    assert c'.kids[q[k] := c'.kids[q[k]].(key := border)] == c'.kids;
    PutSame(cur, q[..k]);
  }
}
