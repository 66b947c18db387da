/**
  Which indirect blocks a truncation frees (ext4/indirect.c): those below which no pointer
  is left.
 */
module IndirectMeta {
  import opened IndirectPath
  import opened IndirectTree

  /** The slot that a sequence of offsets leads to, Empty if there is none. */
  function NodeAt(s: Slot, q: seq<nat>): Slot
    decreases |q|
  {
    if q == [] then s
    else if s.Ind? && q[0] < |s.kids| then NodeAt(s.kids[q[0]], q[1..])
    else Empty
  }

  /** The same from the inode. */
  function NodeIn(data: seq<Slot>, q: seq<nat>): Slot {
    if q == [] || q[0] >= |data| then Empty else NodeAt(data[q[0]], q[1..])
  }

  /** r branches off to the left of the path cut. */
  predicate LeftOf(r: seq<nat>, cut: seq<nat>)
    decreases |r|
  {
    r != [] && cut != [] && (r[0] < cut[0] || (r[0] == cut[0] && LeftOf(r[1..], cut[1..])))
  }

  /** A pointer at r, in or below the block at q, that truncation at cut leaves. */
  ghost predicate Spares(s: Slot, q: seq<nat>, cut: seq<nat>, r: seq<nat>) {
    q <= r && LeftOf(r, cut) && !NodeAt(s, r).Empty?
  }

  ghost predicate Spared(s: Slot, q: seq<nat>, cut: seq<nat>) {
    exists r :: Spares(s, q, cut, r)
  }

  lemma SparesDown(s: Slot, q: seq<nat>, cut: seq<nat>, r: seq<nat>, i: nat)
    requires s.Ind? && r != [] && r[0] == i < |s.kids| && cut != [] && cut[0] == i && (q == [] || q[0] == i) &&
               |q| <= |r|
    ensures Spares(s, q, cut, r) <==> Spares(s.kids[i], if q == [] then [] else q[1..], cut[1..], r[1..])
  {
    assert q != [] && q <= r ==> q[1..] <= r[1..];
    if q != [] && q[1..] <= r[1..] {
      assert q == [q[0]] + q[1..] && r == [r[0]] + r[1..];
    }
  }

  /** Below the cut path: kept from here on means kept from the kid on. */
  lemma SparedDown(s: Slot, q: seq<nat>, cut: seq<nat>)
    requires s.Ind? && cut != [] && cut[0] < |s.kids| && q != [] && q[0] == cut[0]
    ensures Spared(s, q, cut) <==> Spared(s.kids[cut[0]], q[1..], cut[1..])
  {
    var i := cut[0];
    if Spared(s, q, cut) {
      var r :| Spares(s, q, cut, r);
      SparesDown(s, q, cut, r, i);
      assert Spares(s.kids[i], q[1..], cut[1..], r[1..]);
    }
    if Spared(s.kids[i], q[1..], cut[1..]) {
      var t :| Spares(s.kids[i], q[1..], cut[1..], t);
      var r := [i] + t;
      assert r[1..] == t && |q| <= |r|;
      SparesDown(s, q, cut, r, i);
    }
  }

  /** At the block itself: a pointer left of the cut, or one further down. */
  lemma SparedHere(s: Slot, cut: seq<nat>)
    requires s.Ind? && cut != [] && cut[0] < |s.kids|
    ensures Spared(s, [], cut) <==>
              (exists j :: 0 <= j < cut[0] && !s.kids[j].Empty?) || Spared(s.kids[cut[0]], [], cut[1..])
  {
    var i := cut[0];
    if Spared(s, [], cut) {
      var r :| Spares(s, [], cut, r);
      if r[0] == i {
        SparesDown(s, [], cut, r, i);
        assert Spares(s.kids[i], [], cut[1..], r[1..]);
      } else {
        BelowEmpty(s.kids[r[0]], r[1..]);
      }
    }
    if j :| 0 <= j < i && !s.kids[j].Empty? {
      assert NodeAt(s, [j]) == NodeAt(s.kids[j], [j][1..]) && [j][1..] == [];
      assert Spares(s, [], cut, [j]);
    }
    if Spared(s.kids[i], [], cut[1..]) {
      var t :| Spares(s.kids[i], [], cut[1..], t);
      var r := [i] + t;
      assert r[1..] == t;
      SparesDown(s, [], cut, r, i);
    }
  }

  lemma BelowEmpty(s: Slot, q: seq<nat>)
    ensures s.Empty? ==> NodeAt(s, q) == Empty
  {
  }

  lemma SparedEmpty(s: Slot, q: seq<nat>, cut: seq<nat>)
    requires !s.Ind? && cut != []
    ensures !Spared(s, q, cut)
  {
  }

  lemma TruncKids(s: Slot, cut: seq<nat>)
    requires s.Ind? && cut != [] && cut[0] < |s.kids|
    ensures Trunc(s, cut).Ind? <==>
              (exists j :: 0 <= j < cut[0] && !s.kids[j].Empty?) || !Trunc(s.kids[cut[0]], cut[1..]).Empty?
    ensures Trunc(s, cut).Ind? ==> Trunc(s, cut).nr == s.nr && |Trunc(s, cut).kids| == |s.kids|
    ensures Trunc(s, cut).Ind? ==> forall j :: 0 <= j < |s.kids| ==>
              Trunc(s, cut).kids[j] == if j < cut[0] then s.kids[j]
                  else if j == cut[0] then Trunc(s.kids[j], cut[1..]) else Empty
    ensures !Trunc(s, cut).Ind? ==> Trunc(s, cut).Empty?
  {
    var i := cut[0];
    var kids := s.kids[..i] + [Trunc(s.kids[i], cut[1..])] + Empties(|s.kids| - i - 1);
    assert kids[i] == Trunc(s.kids[i], cut[1..]) && forall j :: 0 <= j < i ==> kids[j] == s.kids[j];
  }

  /** A block at the root of a subtree on the cut path is left iff a pointer in or below it is. */
  lemma {:induction false} RootKept(s: Slot, d: nat, ptrs: nat, cut: seq<nat>)
    requires Shape(s, d, ptrs) && |cut| == d && AllBelow(cut, ptrs)
    ensures Trunc(s, cut).Ind? <==> Spared(s, [], cut)
    ensures !Trunc(s, cut).Ind? ==> Trunc(s, cut).Empty?
    ensures Trunc(s, cut).Ind? ==> s.Ind? && Trunc(s, cut).nr == s.nr
    decreases d
  {
    if s.Ind? && d > 0 {
      var i := cut[0];
      RootKept(s.kids[i], d - 1, ptrs, cut[1..]);
      TruncKids(s, cut);
      SparedHere(s, cut);
    } else if d > 0 {
      SparedEmpty(s, [], cut);
    }
  }

  /** Truncation keeps an indirect block exactly when it keeps a pointer in or below it, and makes no new one. */
  lemma {:induction false} NodeKept(s: Slot, d: nat, ptrs: nat, cut: seq<nat>, q: seq<nat>)
    requires Shape(s, d, ptrs) && |cut| == d && AllBelow(cut, ptrs)
    ensures NodeAt(Trunc(s, cut), q).Ind? <==> NodeAt(s, q).Ind? && Spared(s, q, cut)
    ensures NodeAt(Trunc(s, cut), q).Ind? ==> NodeAt(Trunc(s, cut), q).nr == NodeAt(s, q).nr
    decreases d
  {
    RootKept(s, d, ptrs, cut);
    if q != [] && s.Ind? && d > 0 && q[0] < |s.kids| {
      var i, j := cut[0], q[0];
      TruncKids(s, cut);
      if j < i {
        LeftKept(s, cut, q);
      } else if j == i {
        NodeKept(s.kids[i], d - 1, ptrs, cut[1..], q[1..]);
        SparedDown(s, q, cut);
        BelowEmpty(Trunc(s.kids[i], cut[1..]), q[1..]);
      } else {
        RightLost(s, q, cut);
        BelowEmpty(Empty, q[1..]);
      }
    }
  }

  lemma LeftKept(s: Slot, cut: seq<nat>, q: seq<nat>)
    requires s.Ind? && q != [] && cut != [] && q[0] < cut[0] && q[0] < |s.kids|
    ensures !NodeAt(s, q).Empty? ==> Spared(s, q, cut) && !s.kids[q[0]].Empty?
  {
    if !NodeAt(s, q).Empty? {
      assert Spares(s, q, cut, q);
      BelowEmpty(s.kids[q[0]], q[1..]);
    }
  }

  lemma RightLost(s: Slot, q: seq<nat>, cut: seq<nat>)
    requires q != [] && cut != [] && cut[0] < q[0]
    ensures !Spared(s, q, cut)
  {
  }

  // ------------------------------------------------------------ the whole file

  /** A pointer of the file at r, in or below the block at q, that truncation at cut leaves. */
  ghost predicate SparesIn(data: seq<Slot>, q: seq<nat>, cut: seq<nat>, r: seq<nat>) {
    q <= r && LeftOf(r, cut) && !NodeIn(data, r).Empty?
  }

  ghost predicate SparedIn(data: seq<Slot>, q: seq<nat>, cut: seq<nat>) {
    exists r :: SparesIn(data, q, cut, r)
  }

  lemma SparedInDown(data: seq<Slot>, q: seq<nat>, cut: seq<nat>)
    requires q != [] && cut != [] && q[0] == cut[0] < |data|
    ensures SparedIn(data, q, cut) <==> Spared(data[q[0]], q[1..], cut[1..])
  {
    var i := q[0];
    if SparedIn(data, q, cut) {
      var r :| SparesIn(data, q, cut, r);
      assert q[1..] <= r[1..];
      assert Spares(data[i], q[1..], cut[1..], r[1..]);
    }
    if Spared(data[i], q[1..], cut[1..]) {
      var t :| Spares(data[i], q[1..], cut[1..], t);
      var r := [i] + t;
      assert r[1..] == t && q == [i] + q[1..];
      assert SparesIn(data, q, cut, r);
    }
  }

  /** The slots of the inode after truncation at the path cut. */
  ghost predicate TruncData(data: seq<Slot>, cut: seq<nat>, data': seq<Slot>)
    requires cut != []
  {
    && |data'| == |data|
    && forall i :: 0 <= i < |data| ==>
         data'[i] == if i < cut[0] then data[i] else if i == cut[0] then Trunc(data[i], cut[1..]) else Empty
  }

  /** Truncation of the file keeps an indirect block exactly when it keeps a pointer in or below it. */
  lemma FileNodeKept(data: seq<Slot>, ptrs: nat, cut: seq<nat>, data': seq<Slot>, q: seq<nat>)
    requires cut != [] && cut[0] < |data| && TruncData(data, cut, data') && q != []
    requires Shape(data[cut[0]], |cut| - 1, ptrs) && AllBelow(cut[1..], ptrs)
    ensures NodeIn(data', q).Ind? <==> NodeIn(data, q).Ind? && SparedIn(data, q, cut)
    ensures NodeIn(data', q).Ind? ==> NodeIn(data', q).nr == NodeIn(data, q).nr
  {
    var i := cut[0];
    if q[0] == i {
      NodeKept(data[i], |cut| - 1, ptrs, cut[1..], q[1..]);
      SparedInDown(data, q, cut);
    } else if q[0] < i {
      if NodeIn(data, q).Ind? { assert SparesIn(data, q, cut, q); }
    } else if q[0] < |data| {
      BelowEmpty(data'[q[0]], q[1..]);
      assert !SparedIn(data, q, cut);
    }
  }

  // --------------------------------------------------- positions and counting

  ghost predicate MetaAt(s: Slot, q: seq<nat>, p: nat) {
    NodeAt(s, q).Ind? && NodeAt(s, q).nr == p
  }

  ghost predicate MetaPos(data: seq<Slot>, q: seq<nat>, p: nat) {
    NodeIn(data, q).Ind? && NodeIn(data, q).nr == p
  }

  lemma {:induction false} MetaOfAt(kids: seq<Slot>, i: nat, p: nat)
    requires i < |kids|
    ensures MetaOf(kids, p) >= MetaIn(kids[i], p)
    decreases i
  {
    if i > 0 { MetaOfAt(kids[1..], i - 1, p); }
  }

  lemma {:induction false} MetaOfTwo(kids: seq<Slot>, i: nat, j: nat, p: nat)
    requires i < j < |kids|
    ensures MetaOf(kids, p) >= MetaIn(kids[i], p) + MetaIn(kids[j], p)
    decreases i
  {
    if i > 0 { MetaOfTwo(kids[1..], i - 1, j - 1, p); } else { MetaOfAt(kids[1..], j - 1, p); }
  }

  lemma {:induction false} MetaCounts(s: Slot, q: seq<nat>, p: nat)
    requires MetaAt(s, q, p)
    ensures MetaIn(s, p) >= 1
    decreases |q|
  {
    if q != [] {
      MetaCounts(s.kids[q[0]], q[1..], p);
      MetaOfAt(s.kids, q[0], p);
    }
  }

  lemma {:induction false} MetaFind(s: Slot, p: nat) returns (q: seq<nat>)
    requires MetaIn(s, p) >= 1
    ensures MetaAt(s, q, p)
    decreases s, 0
  {
    if s.nr == p {
      q := [];
    } else {
      var i, t := MetaOfFind(s.kids, p);
      q := [i] + t;
      assert q[1..] == t;
    }
  }

  lemma {:induction false} MetaOfFind(kids: seq<Slot>, p: nat) returns (i: nat, q: seq<nat>)
    requires MetaOf(kids, p) >= 1
    ensures i < |kids| && MetaAt(kids[i], q, p)
    decreases kids, 1
  {
    if MetaIn(kids[0], p) >= 1 {
      i := 0;
      q := MetaFind(kids[0], p);
    } else {
      var j, t := MetaOfFind(kids[1..], p);
      i, q := j + 1, t;
    }
  }

  lemma {:induction false} MetaOnce(s: Slot, q: seq<nat>, q': seq<nat>, p: nat)
    requires MetaIn(s, p) <= 1 && MetaAt(s, q, p) && MetaAt(s, q', p)
    ensures q == q'
    decreases |q|
  {
    if q != [] && q' != [] && q[0] == q'[0] {
      MetaOfAt(s.kids, q[0], p);
      MetaOnce(s.kids[q[0]], q[1..], q'[1..], p);
      assert q == [q[0]] + q[1..] && q' == [q'[0]] + q'[1..];
    } else if q != [] && q' != [] {
      MetaCounts(s.kids[q[0]], q[1..], p);
      MetaCounts(s.kids[q'[0]], q'[1..], p);
      MetaOfTwo(s.kids, if q[0] < q'[0] then q[0] else q'[0], if q[0] < q'[0] then q'[0] else q[0], p);
    } else if q != q' {
      var t := if q == [] then q' else q;
      MetaCounts(s.kids[t[0]], t[1..], p);
      MetaOfAt(s.kids, t[0], p);
    }
  }

  lemma PosCounts(data: seq<Slot>, q: seq<nat>, p: nat)
    requires MetaPos(data, q, p)
    ensures MetaOf(data, p) >= 1
  {
    MetaCounts(data[q[0]], q[1..], p);
    MetaOfAt(data, q[0], p);
  }

  lemma PosFind(data: seq<Slot>, p: nat) returns (q: seq<nat>)
    requires MetaOf(data, p) >= 1
    ensures q != [] && MetaPos(data, q, p)
  {
    var i, t := MetaOfFind(data, p);
    q := [i] + t;
    assert q[1..] == t;
  }

  lemma PosOnce(data: seq<Slot>, q: seq<nat>, q': seq<nat>, p: nat)
    requires MetaOf(data, p) <= 1 && MetaPos(data, q, p) && MetaPos(data, q', p)
    ensures q == q'
  {
    if q[0] == q'[0] {
      MetaOfAt(data, q[0], p);
      MetaOnce(data[q[0]], q[1..], q'[1..], p);
      assert q == [q[0]] + q[1..] && q' == [q'[0]] + q'[1..];
    } else {
      MetaCounts(data[q[0]], q[1..], p);
      MetaCounts(data[q'[0]], q'[1..], p);
      MetaOfTwo(data, if q[0] < q'[0] then q[0] else q'[0], if q[0] < q'[0] then q'[0] else q[0], p);
    }
  }

  lemma {:induction false} MetaPointwise(kids: seq<Slot>, kids': seq<Slot>, p: nat)
    requires |kids| == |kids'| && forall i :: 0 <= i < |kids| ==> MetaIn(kids'[i], p) <= MetaIn(kids[i], p)
    ensures MetaOf(kids', p) <= MetaOf(kids, p)
  {
    if kids != [] { MetaPointwise(kids[1..], kids'[1..], p); }
  }

  lemma {:induction false} TruncFewer(s: Slot, cut: seq<nat>, p: nat)
    ensures MetaIn(Trunc(s, cut), p) <= MetaIn(s, p)
    decreases |cut|
  {
    if s.Ind? && cut != [] && cut[0] < |s.kids| {
      TruncKids(s, cut);
      if Trunc(s, cut).Ind? {
        TruncFewer(s.kids[cut[0]], cut[1..], p);
        MetaPointwise(s.kids, Trunc(s, cut).kids, p);
      }
    }
  }

  lemma FewerMeta(data: seq<Slot>, cut: seq<nat>, data': seq<Slot>, p: nat)
    requires cut != [] && cut[0] < |data| && TruncData(data, cut, data')
    ensures MetaOf(data', p) <= MetaOf(data, p)
  {
    TruncFewer(data[cut[0]], cut[1..], p);
    MetaPointwise(data, data', p);
  }

  /** p is the number of an indirect block in or below which truncation leaves no pointer. */
  ghost predicate LosesMeta(data: seq<Slot>, cut: seq<nat>, p: nat) {
    exists q :: MetaPos(data, q, p) && !SparedIn(data, q, cut)
  }

  /** An indirect block that the file uses once is gone after truncation exactly when no pointer is left in or below it.
      */
  lemma MetaExactly(data: seq<Slot>, ptrs: nat, cut: seq<nat>, data': seq<Slot>, p: nat)
    requires cut != [] && cut[0] < |data| && TruncData(data, cut, data')
    requires Shape(data[cut[0]], |cut| - 1, ptrs) && AllBelow(cut[1..], ptrs) && MetaOf(data, p) <= 1
    ensures MetaOf(data, p) == MetaOf(data', p) + if LosesMeta(data, cut, p) then 1 else 0
  {
    FewerMeta(data, cut, data', p);
    if MetaOf(data', p) >= 1 {
      var q := PosFind(data', p);
      FileNodeKept(data, ptrs, cut, data', q);
      if LosesMeta(data, cut, p) {
        var t :| MetaPos(data, t, p) && !SparedIn(data, t, cut);
        PosOnce(data, q, t, p);
      }
    } else if MetaOf(data, p) >= 1 {
      var q := PosFind(data, p);
      FileNodeKept(data, ptrs, cut, data', q);
      if SparedIn(data, q, cut) { PosCounts(data', q, p); }
    } else if LosesMeta(data, cut, p) {
      var t :| MetaPos(data, t, p) && !SparedIn(data, t, cut);
      PosCounts(data, t, p);
    }
  }
}
