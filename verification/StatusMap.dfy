/**
  The entries of the extent status tree (ext4/extents_status.h, ext4/extents_status.c)
  and what a sequence of them, in tree order, records about each logical block.
 */
module StatusMap {
  import opened Wrappers
  import opened Extents

  /** The type bits of an entry. */
  datatype Kind = Kind(written: bool, unwritten: bool, delayed: bool, hole: bool)

  /** Only written and unwritten entries have physical blocks. */
  predicate HasBlocks(k: Kind) {
    k.written || k.unwritten
  }

  /** Combinations for which merging is right: with physical blocks, no hole bit, and a
      delayed bit only together with the unwritten bit. */
  ghost predicate Sane(k: Kind) {
    k.written || k.unwritten ==> !k.hole && (k.delayed ==> k.unwritten)
  }

  /** A tree node; id stands for its address. */
  datatype Entry = Entry(id: nat, lblk: nat, len: nat, pblk: nat, kind: Kind, referenced: bool)

  function Stop(e: Entry): nat {
    e.lblk + e.len
  }

  predicate Holds(e: Entry, b: nat) {
    e.lblk <= b < Stop(e)
  }

  /** What is known about one block. */
  datatype Info = Info(kind: Kind, pblk: Option<nat>)

  ghost function InfoAt(e: Entry, b: nat): Info
    requires Holds(e, b)
  {
    Info(e.kind, if e.kind.written || e.kind.unwritten then Some(e.pblk + (b - e.lblk)) else None)
  }

  /** What the sequence records about block b. */
  ghost function Look(s: seq<Entry>, b: nat): Option<Info> {
    if s == [] then None
    else if Holds(s[0], b) then Some(InfoAt(s[0], b))
    else Look(s[1..], b)
  }

  ghost function LookOne(e: Entry, b: nat): Option<Info> {
    if Holds(e, b) then Some(InfoAt(e, b)) else None
  }

  lemma {:induction false} LookConcat(s: seq<Entry>, t: seq<Entry>, b: nat)
    ensures Look(s + t, b) == if Look(s, b).Some? then Look(s, b) else Look(t, b)
  {
    if s == [] {
      assert s + t == t;
    } else {
      assert (s + t)[0] == s[0] && (s + t)[1..] == s[1..] + t;
      LookConcat(s[1..], t, b);
    }
  }

  lemma LookSingle(e: Entry, b: nat)
    ensures Look([e], b) == LookOne(e, b)
  {
    assert [e][1..] == [];
  }

  lemma LookMiddle(s: seq<Entry>, e: Entry, t: seq<Entry>, b: nat)
    ensures Look(s + [e] + t, b) ==
            if Look(s, b).Some? then Look(s, b) else if Holds(e, b) then Some(InfoAt(e, b)) else Look(t, b)
  {
    LookConcat(s + [e], t, b);
    LookConcat(s, [e], b);
    LookSingle(e, b);
  }

  lemma {:induction false} LookNone(s: seq<Entry>, b: nat)
    requires forall i :: 0 <= i < |s| ==> !Holds(s[i], b)
    ensures Look(s, b) == None
  {
    if s != [] { LookNone(s[1..], b); }
  }

  lemma {:induction false} LookSome(s: seq<Entry>, b: nat) returns (i: nat)
    requires Look(s, b).Some?
    ensures i < |s| && Holds(s[i], b) && Look(s, b) == Some(InfoAt(s[i], b))
  {
    if Holds(s[0], b) {
      i := 0;
    } else {
      var k := LookSome(s[1..], b);
      i := k + 1;
    }
  }

  // ------------------------------------------------------------------- order

  /** ext4_es_can_be_merged */
  predicate CanMerge(a: Entry, b: Entry) {
    && a.kind == b.kind
    && a.len + b.len <= MAX_BLOCKS
    && Stop(a) == b.lblk
    && (|| (HasBlocks(a.kind) && a.pblk + a.len == b.pblk)
        || a.kind.hole
        || (a.kind.delayed && !a.kind.unwritten))
  }

  /** b can follow a in one entry: of the same kind and with the next logical block; with blocks, if it has the next
      physical block too, and otherwise if it is a hole or delayed. */
  ghost predicate Extends(a: Entry, b: Entry) {
    && a.kind == b.kind && a.len + b.len <= 0xffff_ffff && b.lblk == a.lblk + a.len
    && (|| ((a.kind.written || a.kind.unwritten) && b.pblk == a.pblk + a.len)
        || a.kind.hole || (a.kind.delayed && !a.kind.unwritten))
  }

  lemma CanMergeIff(a: Entry, b: Entry)
    ensures CanMerge(a, b) <==> Extends(a, b)
  {
  }

  ghost predicate Good(e: Entry) {
    0 < e.len && Stop(e) <= MAX_BLOCKS && Sane(e.kind)
  }

  /** a lies before b and cannot be merged with it. */
  ghost predicate Precedes(a: Entry, b: Entry) {
    Stop(a) <= b.lblk && !Extends(a, b)
  }

  /** Sorted, disjoint and merged as far as possible. */
  ghost predicate Tidy(s: seq<Entry>) {
    && (forall i :: 0 <= i < |s| ==> Good(s[i]))
    && (forall i, j :: 0 <= i < j < |s| ==> Precedes(s[i], s[j]))
  }

  lemma TidyParts(s: seq<Entry>, t: seq<Entry>)
    requires Tidy(s + t)
    ensures Tidy(s) && Tidy(t)
    ensures forall i, j :: 0 <= i < |s| && 0 <= j < |t| ==> Precedes(s[i], t[j])
  {
    var u := s + t;
    forall i | 0 <= i < |s| ensures Good(s[i]) { assert u[i] == s[i]; }
    forall i | 0 <= i < |t| ensures Good(t[i]) { assert u[|s| + i] == t[i]; }
    forall i, j | 0 <= i < j < |s| ensures Precedes(s[i], s[j]) { assert u[i] == s[i] && u[j] == s[j]; }
    forall i, j | 0 <= i < j < |t| ensures Precedes(t[i], t[j]) { assert u[|s| + i] == t[i] && u[|s| + j] == t[j]; }
    forall i, j | 0 <= i < |s| && 0 <= j < |t|
      ensures Precedes(s[i], t[j])
    {
      assert u[i] == s[i] && u[|s| + j] == t[j];
    }
  }

  lemma TidyJoin(s: seq<Entry>, t: seq<Entry>)
    requires Tidy(s) && Tidy(t)
    requires s != [] && t != [] ==> Precedes(s[|s|-1], t[0])
    ensures Tidy(s + t)
  {
    var u := s + t;
    forall i, j | 0 <= i < j < |u| ensures Precedes(u[i], u[j]) {
      if i < |s| <= j { Across(s, t, i, j - |s|); }
    }
  }

  lemma Across(s: seq<Entry>, t: seq<Entry>, i: nat, j: nat)
    requires Tidy(s) && Tidy(t) && i < |s| && j < |t| && Precedes(s[|s|-1], t[0])
    ensures Precedes(s[i], t[j])
  {
    var k := |s| - 1;
    assert Good(s[i]) && Good(s[k]) && Good(t[0]) && Good(t[j]);
    assert i < k ==> Precedes(s[i], s[k]);
    assert 0 < j ==> Precedes(t[0], t[j]);
  }

  lemma TidyOne(e: Entry)
    requires Good(e)
    ensures Tidy([e])
  {
  }

  /** a + [e] + c with e in its place. */
  lemma TidyMiddle(a: seq<Entry>, e: Entry, c: seq<Entry>)
    requires Tidy(a) && Tidy(c) && Good(e)
    requires a != [] ==> Precedes(a[|a|-1], e)
    requires c != [] ==> Precedes(e, c[0])
    ensures Tidy(a + [e] + c)
  {
    TidyJoin(a, [e]);
    assert (a + [e])[|a + [e]| - 1] == e;
    TidyJoin(a + [e], c);
  }

  /** In a tidy sequence at most one entry holds a block. */
  lemma LookHit(s: seq<Entry>, i: nat, b: nat)
    requires Tidy(s) && i < |s| && Holds(s[i], b)
    ensures Look(s, b) == Some(InfoAt(s[i], b))
  {
    assert s == s[..i] + [s[i]] + s[i+1..];
    forall j | 0 <= j < |s[..i]| ensures !Holds(s[..i][j], b) { assert Precedes(s[j], s[i]); }
    LookNone(s[..i], b);
    LookMiddle(s[..i], s[i], s[i+1..], b);
  }

  // ------------------------------------------------------------------- merge

  /** The node that survives a merge of two neighbours; the first part's place and physical start. */
  function Joined(a: Entry, b: Entry, id: nat, pblk: nat, referenced: bool): Entry {
    Entry(id, a.lblk, a.len + b.len, pblk, a.kind, referenced)
  }

  /** Exactly the sane kinds are safe to merge: for any other kind there are two entries that
      pass the test although one entry cannot stand for both. */
  lemma MergeSoundIffSane(k: Kind)
    ensures Sane(k) <==>
              forall a: Entry, b: Entry, x: nat :: CanMerge(a, b) && a.kind == k && a.len > 0 && b.len > 0 ==>
                           LookOne(Joined(a, b, a.id, a.pblk, false), x) == if Holds(a, x) then Some(InfoAt(a, x))
                               else LookOne(b, x)
  {
    if !Sane(k) {
      var a, b := Entry(0, 0, 1, 100, k, false), Entry(1, 1, 1, 200, k, false);
      assert CanMerge(a, b);
      assert LookOne(Joined(a, b, a.id, a.pblk, false), 1) == Some(Info(k, Some(101)));
      assert LookOne(b, 1) == Some(Info(k, Some(200)));
    }
  }

  // ---------------------------------------------------------------- counting

  /** Entries that may be reclaimed: all but the delayed ones. */
  function Shrinkable(s: seq<Entry>): nat {
    if s == [] then 0 else (if s[0].kind.delayed then 0 else 1) + Shrinkable(s[1..])
  }

  /** How many nodes have address id. */
  ghost function Nodes(s: seq<Entry>, id: nat): nat {
    if s == [] then 0 else (if s[0].id == id then 1 else 0) + Nodes(s[1..], id)
  }

  lemma {:induction false} ShrinkableConcat(s: seq<Entry>, t: seq<Entry>)
    ensures Shrinkable(s + t) == Shrinkable(s) + Shrinkable(t)
  {
    if s == [] {
      assert s + t == t;
    } else {
      assert (s + t)[0] == s[0] && (s + t)[1..] == s[1..] + t;
      ShrinkableConcat(s[1..], t);
    }
  }

  lemma {:induction false} NodesConcat(s: seq<Entry>, t: seq<Entry>, id: nat)
    ensures Nodes(s + t, id) == Nodes(s, id) + Nodes(t, id)
  {
    if s == [] {
      assert s + t == t;
    } else {
      assert (s + t)[0] == s[0] && (s + t)[1..] == s[1..] + t;
      NodesConcat(s[1..], t, id);
    }
  }

  lemma ShrinkableMiddle(a: seq<Entry>, e: Entry, c: seq<Entry>)
    ensures Shrinkable(a + [e] + c) == Shrinkable(a) + Shrinkable(c) + if e.kind.delayed then 0 else 1
  {
    ShrinkableConcat(a + [e], c);
    ShrinkableConcat(a, [e]);
    assert [e][1..] == [];
  }

  lemma NodesMiddle(a: seq<Entry>, e: Entry, c: seq<Entry>, id: nat)
    ensures Nodes(a + [e] + c, id) == Nodes(a, id) + Nodes(c, id) + if e.id == id then 1 else 0
  {
    NodesConcat(a + [e], c, id);
    NodesConcat(a, [e], id);
    assert [e][1..] == [];
  }

  lemma {:induction false} NodesAt(s: seq<Entry>, i: nat)
    requires i < |s|
    ensures Nodes(s, s[i].id) >= 1
  {
    if i > 0 { NodesAt(s[1..], i - 1); }
  }

  lemma {:induction false} NodeIndex(s: seq<Entry>, id: nat) returns (i: nat)
    requires Nodes(s, id) > 0
    ensures i < |s| && s[i].id == id
  {
    if s[0].id == id {
      i := 0;
    } else {
      var k := NodeIndex(s[1..], id);
      i := k + 1;
    }
  }
}
