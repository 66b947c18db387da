/**
  Removing a block range from a sequence of extents, as ext4_ext_rm_leaf does it:
  extents inside the range disappear, an extent that reaches into it from the
  left is shortened, and no extent may reach beyond the end of the range.
 */
module ExtentCut {
  import opened Wrappers
  import opened Extents

  /** What is left of e when the blocks start..end go away. */
  function Trim(e: Extent, start: nat, end: nat): seq<Extent> {
    if end < e.block || End(e) <= start then [e]
    else if start <= e.block then []
    else [e.(eeLen := if Unwritten(e) then INIT_MAX_LEN + (start - e.block) else start - e.block)]
  }

  ghost function Cut(s: seq<Extent>, start: nat, end: nat): seq<Extent> {
    if s == [] then [] else Trim(s[0], start, end) + Cut(s[1..], start, end)
  }

  /** No extent that begins in or before the range reaches beyond its end. */
  ghost predicate NoStraddle(s: seq<Extent>, end: nat) {
    forall i :: 0 <= i < |s| ==> s[i].block <= end ==> End(s[i]) <= end + 1
  }

  ghost predicate Low(s: seq<Extent>, end: nat) {
    forall i :: 0 <= i < |s| ==> s[i].block <= end
  }

  lemma {:induction false} CutConcat(s: seq<Extent>, t: seq<Extent>, start: nat, end: nat)
    ensures Cut(s + t, start, end) == Cut(s, start, end) + Cut(t, start, end)
  {
    if s == [] {
      assert s + t == t;
    } else {
      assert (s + t)[0] == s[0] && (s + t)[1..] == s[1..] + t;
      CutConcat(s[1..], t, start, end);
      var a, b, c := Trim(s[0], start, end), Cut(s[1..], start, end), Cut(t, start, end);
      assert a + (b + c) == (a + b) + c;
    }
  }

  /** Extents that lie outside the range are untouched. */
  lemma {:induction false} CutOutside(s: seq<Extent>, start: nat, end: nat)
    requires forall i :: 0 <= i < |s| ==> end < s[i].block || End(s[i]) <= start
    ensures Cut(s, start, end) == s
  {
    if s != [] { CutOutside(s[1..], start, end); }
  }

  /** c lies between the start of the first and the end of the last extent of s. */
  ghost predicate Within(c: seq<Extent>, s: seq<Extent>) {
    c != [] ==> s != [] && s[0].block <= c[0].block && End(c[|c|-1]) <= End(s[|s|-1])
  }

  lemma {:induction false} CutSorted(s: seq<Extent>, start: nat, end: nat)
    requires Sorted(s)
    ensures Sorted(Cut(s, start, end)) && Within(Cut(s, start, end), s)
  {
    if s != [] {
      TailSorted(s);
      CutSorted(s[1..], start, end);
      assert ValidExtent(s[0]);
      assert s[1..] != [] ==> End(s[0]) <= s[1..][0].block;
      JoinWithin(Trim(s[0], start, end), Cut(s[1..], start, end), s[0], s[1..]);
      HeadTail(s);
    }
  }

  lemma HeadTail(s: seq<Extent>)
    requires s != []
    ensures s == [s[0]] + s[1..]
  {
  }

  lemma JoinWithin(a: seq<Extent>, c: seq<Extent>, x: Extent, r: seq<Extent>)
    requires Sorted(a) && Sorted(c) && Sorted(r) && ValidExtent(x) && |a| <= 1
    requires a != [] ==> a[0].block == x.block && End(a[0]) <= End(x)
    requires Within(c, r) && (r != [] ==> End(x) <= r[0].block)
    ensures Sorted(a + c) && Within(a + c, [x] + r)
  {
    SortedJoin(a, c);
    var u := [x] + r;
    if r != [] {
      assert u[|u|-1] == r[|r|-1] && ValidExtent(r[|r|-1]);
      assert r[0].block <= r[|r|-1].block;
    }
    if c != [] { assert (a + c)[|a + c| - 1] == c[|c|-1]; }
  }

  lemma TailSorted(s: seq<Extent>)
    requires Sorted(s) && s != []
    ensures Sorted(s[1..])
  {
    HeadTail(s);
    SortedParts([s[0]], s[1..]);
  }

  lemma TrimAt(e: Extent, start: nat, end: nat, b: nat)
    requires ValidExtent(e) && (e.block <= end ==> End(e) <= end + 1)
    ensures At(Trim(e, start, end), b) == if start <= b <= end then None else At([e], b)
  {
    AtOne(e, b);
    if end < e.block || End(e) <= start {
    } else if e.block < start {
      AtOne(Trim(e, start, end)[0], b);
    }
  }

  /** The map loses exactly the blocks of the range. */
  lemma {:induction false} CutMap(s: seq<Extent>, start: nat, end: nat, b: nat)
    requires Sorted(s) && NoStraddle(s, end)
    ensures At(Cut(s, start, end), b) == if start <= b <= end then None else At(s, b)
  {
    if s != [] {
      TailSorted(s);
      assert NoStraddle(s[1..], end) by {
        forall i | 0 <= i < |s[1..]| ensures s[1..][i].block <= end ==> End(s[1..][i]) <= end + 1 {
          assert s[1..][i] == s[i+1];
        }
      }
      CutMap(s[1..], start, end, b);
      TrimAt(s[0], start, end, b);
      AtConcat(Trim(s[0], start, end), Cut(s[1..], start, end), b);
      AtOne(s[0], b);
    }
  }

  /** If something survives of extents that begin no later than end, it begins before
      start, and everything to the left is before start. */
  lemma {:induction false} CutLow(s: seq<Extent>, start: nat, end: nat)
    requires Sorted(s) && NoStraddle(s, end) && Low(s, end) && Cut(s, start, end) != []
    ensures s != [] && s[0].block < start
  {
    if Trim(s[0], start, end) == [] {
      assert ValidExtent(s[0]);
      TailSorted(s);
      var r := s[1..];
      assert NoStraddle(r, end) && Low(r, end) by {
        forall i | 0 <= i < |r| ensures r[i].block <= end && End(r[i]) <= end + 1 { assert r[i] == s[i+1]; }
      }
      assert r != [] ==> End(s[0]) <= r[0].block;
      CutLow(r, start, end);
    } else {
      assert ValidExtent(s[0]);
    }
  }
}
