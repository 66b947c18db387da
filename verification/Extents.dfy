/**
  The on-disk extent (ext4/ext4_extents.h) and the meaning of a sequence of
  extents: a partial map from logical block to physical block and state.
  A stored length above INIT_MAX_LEN means "unwritten, length minus INIT_MAX_LEN".
 */
module Extents {
  import opened Wrappers
  import opened Blocks

  const INIT_MAX_LEN := 0x8000
  const UNWRITTEN_MAX_LEN := 0x7fff
  const MAX_BLOCKS := 0xffff_ffff

  /** ee_block, the raw 16-bit ee_len, and the physical start. */
  datatype Extent = Extent(block: nat, eeLen: nat, pblk: nat)

  function Len(e: Extent): nat {
    if e.eeLen <= INIT_MAX_LEN then e.eeLen else e.eeLen - INIT_MAX_LEN
  }

  predicate Unwritten(e: Extent) {
    e.eeLen > INIT_MAX_LEN
  }

  function End(e: Extent): nat {
    e.block + Len(e)
  }

  predicate ValidExtent(e: Extent) {
    0 < Len(e) && e.eeLen <= 0xffff && End(e) <= MAX_BLOCKS
  }

  /** Store a length and, as ext4_ext_mark_unwritten does, set the top bit. */
  function Make(block: nat, len: nat, pblk: nat, unwritten: bool): (e: Extent)
    requires 0 < len <= if unwritten then UNWRITTEN_MAX_LEN else INIT_MAX_LEN
    ensures Len(e) == len && Unwritten(e) == unwritten
  {
    Extent(block, if unwritten then len + INIT_MAX_LEN else len, pblk)
  }

  /** ext4_ext_mark_unwritten */
  function MarkUnwritten(e: Extent): (r: Extent)
    requires 0 < Len(e) < INIT_MAX_LEN
    ensures Len(r) == Len(e) && Unwritten(r)
  {
    if Unwritten(e) then e else e.(eeLen := e.eeLen + INIT_MAX_LEN)
  }

  /** ext4_ext_mark_initialized */
  function MarkInitialized(e: Extent): (r: Extent)
    requires e.eeLen <= 0xffff
    ensures Len(r) == Len(e) && !Unwritten(r)
  {
    e.(eeLen := Len(e))
  }

  /** What a file offset maps to. */
  datatype Cell = Cell(pblk: nat, unwritten: bool)

  predicate Covers(e: Extent, b: nat) {
    e.block <= b < End(e)
  }

  function CellOf(e: Extent, b: nat): Cell
    requires Covers(e, b)
  {
    Cell(e.pblk + (b - e.block), Unwritten(e))
  }

  /** The flat map: lookup of a logical block in a sequence of extents. */
  ghost function At(s: seq<Extent>, b: nat): Option<Cell> {
    if s == [] then None
    else if Covers(s[0], b) then Some(CellOf(s[0], b))
    else At(s[1..], b)
  }

  ghost predicate SameMap(s: seq<Extent>, s': seq<Extent>) {
    forall b: nat :: At(s, b) == At(s', b)
  }

  ghost predicate Sorted(s: seq<Extent>) {
    && (forall i :: 0 <= i < |s| ==> ValidExtent(s[i]))
    && (forall i, j :: 0 <= i < j < |s| ==> End(s[i]) <= s[j].block)
  }

  /** e overlaps no extent of s. */
  ghost predicate Apart(s: seq<Extent>, e: Extent) {
    forall i :: 0 <= i < |s| ==> End(s[i]) <= e.block || End(e) <= s[i].block
  }

  lemma {:induction false} AtConcat(s: seq<Extent>, t: seq<Extent>, b: nat)
    ensures At(s + t, b) == if At(s, b).Some? then At(s, b) else At(t, b)
  {
    if s == [] {
      assert s + t == t;
    } else {
      assert (s + t)[0] == s[0] && (s + t)[1..] == s[1..] + t;
      AtConcat(s[1..], t, b);
    }
  }

  lemma AtConcat3(s: seq<Extent>, m: seq<Extent>, t: seq<Extent>, b: nat)
    ensures At(s + m + t, b) ==
            if At(s, b).Some? then At(s, b) else if At(m, b).Some? then At(m, b) else At(t, b)
  {
    AtConcat(s + m, t, b);
    AtConcat(s, m, b);
  }

  lemma AtOne(e: Extent, b: nat)
    ensures At([e], b) == if Covers(e, b) then Some(CellOf(e, b)) else None
  {
    assert [e][1..] == [];
  }

  lemma {:induction false} AtNone(s: seq<Extent>, b: nat)
    requires forall i :: 0 <= i < |s| ==> !Covers(s[i], b)
    ensures At(s, b) == None
  {
    if s != [] { AtNone(s[1..], b); }
  }

  lemma {:induction false} AtSome(s: seq<Extent>, b: nat) returns (i: nat)
    requires At(s, b).Some?
    ensures i < |s| && Covers(s[i], b) && At(s, b) == Some(CellOf(s[i], b))
  {
    if Covers(s[0], b) {
      i := 0;
    } else {
      var k := AtSome(s[1..], b);
      i := k + 1;
    }
  }

  lemma AtHit(s: seq<Extent>, i: nat, b: nat)
    requires Sorted(s) && i < |s| && Covers(s[i], b)
    ensures At(s, b) == Some(CellOf(s[i], b))
  {
    assert s == s[..i] + [s[i]] + s[i+1..];
    AtNone(s[..i], b);
    AtConcat3(s[..i], [s[i]], s[i+1..], b);
    AtOne(s[i], b);
  }

  /** Replacing a middle part by one with the same map keeps the map. */
  lemma SameMiddle(s: seq<Extent>, m: seq<Extent>, m': seq<Extent>, t: seq<Extent>)
    requires SameMap(m, m')
    ensures SameMap(s + m + t, s + m' + t)
  {
    forall b: nat ensures At(s + m + t, b) == At(s + m' + t, b) {
      AtConcat3(s, m, t, b);
      AtConcat3(s, m', t, b);
    }
  }

  lemma SortedParts(s: seq<Extent>, t: seq<Extent>)
    requires Sorted(s + t)
    ensures Sorted(s) && Sorted(t)
    ensures forall i, j :: 0 <= i < |s| && 0 <= j < |t| ==> End(s[i]) <= t[j].block
  {
    var u := s + t;
    forall i | 0 <= i < |s| ensures ValidExtent(s[i]) { assert u[i] == s[i]; }
    forall i | 0 <= i < |t| ensures ValidExtent(t[i]) { assert u[|s| + i] == t[i]; }
    forall i, j | 0 <= i < j < |s| ensures End(s[i]) <= s[j].block { assert u[i] == s[i] && u[j] == s[j]; }
    forall i, j | 0 <= i < j < |t| ensures End(t[i]) <= t[j].block { assert u[|s| + i] == t[i] && u[|s| + j] == t[j]; }
    forall i, j | 0 <= i < |s| && 0 <= j < |t|
      ensures End(s[i]) <= t[j].block
    {
      assert u[i] == s[i] && u[|s| + j] == t[j];
    }
  }

  lemma SortedJoin(s: seq<Extent>, t: seq<Extent>)
    requires Sorted(s) && Sorted(t)
    requires s != [] && t != [] ==> End(s[|s|-1]) <= t[0].block
    ensures Sorted(s + t)
  {
    var u := s + t;
    forall i, j | 0 <= i < j < |u| ensures End(u[i]) <= u[j].block {
      if i < |s| <= j {
        assert End(s[i]) <= End(s[|s|-1]);
        assert t[0].block <= t[j - |s|].block;
      }
    }
  }

  /** How often physical block p occurs in a sequence of extents. */
  ghost function Owns(s: seq<Extent>, p: nat): nat {
    if s == [] then 0 else InRun(s[0].pblk, Len(s[0]), p) + Owns(s[1..], p)
  }

  lemma {:induction false} OwnsConcat(s: seq<Extent>, t: seq<Extent>, p: nat)
    ensures Owns(s + t, p) == Owns(s, p) + Owns(t, p)
  {
    if s == [] {
      assert s + t == t;
    } else {
      assert (s + t)[0] == s[0] && (s + t)[1..] == s[1..] + t;
      OwnsConcat(s[1..], t, p);
    }
  }

  lemma OwnsOne(e: Extent, p: nat)
    ensures Owns([e], p) == InRun(e.pblk, Len(e), p)
  {
    assert [e][1..] == [];
  }
}
