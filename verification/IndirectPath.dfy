/**
  Block numbers and paths in the indirect block tree (ext4/indirect.c,
  ext4_block_to_path). Here ptrs is the number of pointers in an indirect block.
 */
module IndirectPath {
  import opened Arithmetic

  const NDIR_BLOCKS := 12
  const IND_BLOCK := 12
  const DIND_BLOCK := 13
  const TIND_BLOCK := 14

  // -------------------------------------------------------------- arithmetic

  /** Quotient and remainder: the shifts and masks of the source, for ptrs a power of two. */
  function Quo(v: nat, p: nat): (q: nat)
    requires 0 < p
    ensures q * p <= v < q * p + p
  {
    v / p
  }

  function Rem(v: nat, p: nat): (r: nat)
    requires 0 < p
    ensures r < p && v == Quo(v, p) * p + r
  {
    v % p
  }

  /** a * p + x has quotient a and remainder x. */
  lemma DivParts(a: nat, x: nat, v: nat, p: nat)
    requires x < p && v == a * p + x
    ensures Quo(v, p) == a && Rem(v, p) == x
  {
    QuotientIff(v, a, p);
  }

  /** Numbers written with two digits compare digit by digit. */
  lemma Compare(a: nat, x: nat, b: nat, y: nat, p: nat)
    requires x < p && y < p
    ensures a * p + x < b * p + y <==> a < b || (a == b && x < y)
  {
    Multiples(a, b, p);
    Multiples(b, a, p);
  }

  function Pow(p: nat, d: nat): nat {
    if d == 0 then 1 else Pow(p, d - 1) * p
  }

  lemma PowSmall(p: nat)
    ensures Pow(p, 0) == 1 && Pow(p, 1) == p && Pow(p, 2) == p * p && Pow(p, 3) == p * p * p
  {
    assert Pow(p, 1) == Pow(p, 0) * p;
    assert Pow(p, 2) == Pow(p, 1) * p;
    assert Pow(p, 3) == Pow(p, 2) * p;
  }

  // ------------------------------------------------------------------ digits

  predicate AllBelow(s: seq<nat>, p: nat) {
    forall i :: 0 <= i < |s| ==> s[i] < p
  }

  /** The number whose digits to base p are s. */
  function Val(s: seq<nat>, p: nat): nat {
    if s == [] then 0 else Val(s[..|s|-1], p) * p + s[|s|-1]
  }

  /** The last d digits of v. */
  function Digits(v: nat, d: nat, p: nat): (s: seq<nat>)
    requires 0 < p
    ensures |s| == d
    decreases d
  {
    if d == 0 then [] else Digits(Quo(v, p), d - 1, p) + [Rem(v, p)]
  }

  lemma ValSnoc(s: seq<nat>, x: nat, p: nat)
    ensures Val(s + [x], p) == Val(s, p) * p + x
  {
    assert (s + [x])[..|s|] == s;
  }

  lemma Distribute(a: nat, b: nat, c: nat, p: nat)
    ensures (a * b + c) * p == a * (b * p) + c * p
  {
    assert (a * b + c) * p == a * b * p + c * p;
    assert a * b * p == a * (b * p);
  }

  lemma {:induction false} ValConcat(s: seq<nat>, t: seq<nat>, p: nat)
    ensures Val(s + t, p) == Val(s, p) * Pow(p, |t|) + Val(t, p)
    decreases |t|
  {
    if t == [] {
      assert s + t == s;
    } else {
      var t', x := t[..|t|-1], t[|t|-1];
      assert Val(s + t, p) == Val(s + t', p) * p + x by {
        assert s + t == (s + t') + [x];
        ValSnoc(s + t', x, p);
      }
      ValConcat(s, t', p);
      Distribute(Val(s, p), Pow(p, |t'|), Val(t', p), p);
    }
  }

  lemma {:induction false} ValBound(s: seq<nat>, p: nat)
    requires AllBelow(s, p)
    ensures Val(s, p) < Pow(p, |s|)
  {
    if s != [] {
      var t := s[..|s|-1];
      ValBound(t, p);
      Multiples(Val(t, p), Pow(p, |t|), p);
    }
  }

  lemma {:induction false} DigitsVal(v: nat, d: nat, p: nat)
    requires 0 < p && v < Pow(p, d)
    ensures AllBelow(Digits(v, d, p), p) && Val(Digits(v, d, p), p) == v
    decreases d
  {
    if d > 0 {
      var q := Quo(v, p);
      QuotientBelow(v, Pow(p, d - 1), p);
      DigitsVal(q, d - 1, p);
      ValSnoc(Digits(q, d - 1, p), Rem(v, p), p);
    }
  }

  /** v / q < p exactly for v < p * q. */
  lemma QuotientBelow(v: nat, p: nat, q: nat)
    requires 0 < q
    ensures Quo(v, q) < p <==> v < p * q
  {
    Multiples(Quo(v, q), p, q);
    Multiples(p, Quo(v, q), q);
  }

  lemma {:induction false} ValDigits(s: seq<nat>, p: nat)
    requires 0 < p && AllBelow(s, p)
    ensures Digits(Val(s, p), |s|, p) == s
  {
    if s != [] {
      var t := s[..|s|-1];
      ValDigits(t, p);
      DivParts(Val(t, p), s[|s|-1], Val(s, p), p);
      assert s == t + [s[|s|-1]];
    }
  }

  // ------------------------------------------------------------------- order

  /** Lexicographic order of two paths of the same length. */
  ghost predicate Before(s: seq<nat>, t: seq<nat>)
    requires |s| == |t|
    decreases |s|
  {
    s != [] && (s[0] < t[0] || (s[0] == t[0] && Before(s[1..], t[1..])))
  }

  lemma {:induction false} BeforeSnoc(s: seq<nat>, x: nat, t: seq<nat>, y: nat)
    requires |s| == |t|
    ensures Before(s + [x], t + [y]) <==> Before(s, t) || (s == t && x < y)
    decreases |s|
  {
    if s == [] {
      assert s + [x] == [x] && t + [y] == [y];
      assert [x][1..] == [] && [y][1..] == [];
    } else {
      assert (s + [x])[0] == s[0] && (s + [x])[1..] == s[1..] + [x];
      assert (t + [y])[0] == t[0] && (t + [y])[1..] == t[1..] + [y];
      BeforeSnoc(s[1..], x, t[1..], y);
      assert s == [s[0]] + s[1..] && t == [t[0]] + t[1..];
    }
  }

  /** The order of the paths is the order of the numbers. */
  lemma {:induction false} BeforeVal(s: seq<nat>, t: seq<nat>, p: nat)
    requires |s| == |t| && AllBelow(s, p) && AllBelow(t, p) && 0 < p
    ensures Before(s, t) <==> Val(s, p) < Val(t, p)
    decreases |s|
  {
    if s != [] {
      var s', x, t', y := s[..|s|-1], s[|s|-1], t[..|t|-1], t[|t|-1];
      BeforeVal(s', t', p);
      assert s == s' + [x] && t == t' + [y];
      BeforeSnoc(s', x, t', y);
      Compare(Val(s', p), x, Val(t', p), y, p);
      if Val(s', p) == Val(t', p) {
        ValDigits(s', p);
        ValDigits(t', p);
      }
    }
  }

  // -------------------------------------------------------------- block paths

  /** Number of blocks that the tree can address. */
  function MaxBlocks(ptrs: nat): nat {
    NDIR_BLOCKS + ptrs + ptrs * ptrs + ptrs * ptrs * ptrs
  }

  /** ext4_block_to_path; the empty path for a block that is out of range. */
  function BlockToPath(b: nat, ptrs: nat): seq<nat>
    requires 0 < ptrs
  {
    if b < NDIR_BLOCKS then [b]
    else if b - NDIR_BLOCKS < ptrs then [IND_BLOCK, b - NDIR_BLOCKS]
    else if b - NDIR_BLOCKS - ptrs < ptrs * ptrs then
      var v := b - NDIR_BLOCKS - ptrs;
      [DIND_BLOCK, Quo(v, ptrs), Rem(v, ptrs)]
    else if Quo(b - NDIR_BLOCKS - ptrs - ptrs * ptrs, ptrs * ptrs) < ptrs then
      var v := b - NDIR_BLOCKS - ptrs - ptrs * ptrs;
      [TIND_BLOCK, Quo(v, ptrs * ptrs), Rem(Quo(v, ptrs), ptrs), Rem(v, ptrs)]
    else []
  }

  /** First block of the tree that hangs off slot i of the inode. */
  function Base(i: nat, ptrs: nat): nat {
    if i <= IND_BLOCK then i else if i == DIND_BLOCK then NDIR_BLOCKS + ptrs else NDIR_BLOCKS + ptrs + ptrs * ptrs
  }

  /** Levels of indirection below slot i of the inode. */
  function Levels(i: nat): nat {
    if i < IND_BLOCK then 0 else i - IND_BLOCK + 1
  }

  predicate ValidPath(path: seq<nat>, ptrs: nat) {
    path != [] && path[0] <= TIND_BLOCK && |path| == Levels(path[0]) + 1 && AllBelow(path[1..], ptrs)
  }

  function PathToBlock(path: seq<nat>, ptrs: nat): nat
    requires path != []
  {
    Base(path[0], ptrs) + Val(path[1..], ptrs)
  }

  lemma DivDiv(v: nat, p: nat)
    requires 0 < p && 0 < p * p
    ensures Quo(Quo(v, p), p) == Quo(v, p * p)
  {
    var u := Quo(v, p);
    var q, r, x := Quo(u, p), Rem(u, p), Rem(v, p);
    DivDivSum(q, r, x, p);
    DivParts(q, r * p + x, v, p * p);
  }

  lemma DivDivSum(q: nat, r: nat, x: nat, p: nat)
    requires r < p && x < p
    ensures (q * p + r) * p + x == q * (p * p) + (r * p + x) && r * p + x < p * p
  {
    assert (q * p + r) * p == q * p * p + r * p;
    assert q * p * p == q * (p * p);
    Multiples(r, p, p);
  }

  /** The path is the slot of the inode followed by digits to base ptrs. */
  lemma PathDigits(b: nat, ptrs: nat)
    requires 0 < ptrs && BlockToPath(b, ptrs) != []
    ensures var path := BlockToPath(b, ptrs);
            && path[0] <= TIND_BLOCK && Base(path[0], ptrs) <= b
            && path[1..] == Digits(b - Base(path[0], ptrs), Levels(path[0]), ptrs)
            && b - Base(path[0], ptrs) < Pow(ptrs, Levels(path[0]))
  {
    PowSmall(ptrs);
    var path := BlockToPath(b, ptrs);
    var v := b - Base(path[0], ptrs);
    match |path| {
      case 2 => SmallDigits(v, ptrs);
      case 3 => TwoDigits(v, ptrs);
      case 4 => ThreeDigits(v, ptrs);
      case _ =>
    }
  }

  lemma SmallDigits(v: nat, p: nat)
    requires v < p
    ensures Digits(v, 1, p) == [v]
  {
    DivParts(0, v, v, p);
    assert Digits(Quo(v, p), 0, p) == [];
  }

  lemma TwoDigits(v: nat, p: nat)
    requires 0 < p && v < p * p
    ensures Digits(v, 2, p) == [Quo(v, p), Rem(v, p)]
  {
    QuotientBelow(v, p, p);
    SmallDigits(Quo(v, p), p);
  }

  lemma ThreeDigits(v: nat, p: nat)
    requires 0 < p && 0 < p * p && Quo(v, p * p) < p
    ensures Digits(v, 3, p) == [Quo(v, p * p), Rem(Quo(v, p), p), Rem(v, p)]
    ensures v < p * p * p
  {
    DivDiv(v, p);
    SmallDigits(Quo(v, p * p), p);
    assert Digits(Quo(v, p), 2, p) == Digits(Quo(v, p * p), 1, p) + [Rem(Quo(v, p), p)];
    QuotientBelow(v, p, p * p);
    assert p * (p * p) == p * p * p;
  }

  lemma HasPathIff(b: nat, ptrs: nat)
    requires 0 < ptrs
    ensures BlockToPath(b, ptrs) != [] <==> b < MaxBlocks(ptrs)
  {
    if b >= NDIR_BLOCKS + ptrs + ptrs * ptrs {
      QuotientBelow(b - NDIR_BLOCKS - ptrs - ptrs * ptrs, ptrs, ptrs * ptrs);
      assert ptrs * (ptrs * ptrs) == ptrs * ptrs * ptrs;
    }
  }

  lemma PathLeadsBack(b: nat, ptrs: nat, path: seq<nat>)
    requires 0 < ptrs && path == BlockToPath(b, ptrs) && path != []
    ensures ValidPath(path, ptrs) && PathToBlock(path, ptrs) == b
  {
    PathDigits(b, ptrs);
    DigitsLeadBack(b, ptrs, path);
  }

  lemma DigitsLeadBack(b: nat, ptrs: nat, path: seq<nat>)
    requires 0 < ptrs && path != [] && path[0] <= TIND_BLOCK && Base(path[0], ptrs) <= b
    requires path[1..] == Digits(b - Base(path[0], ptrs), Levels(path[0]), ptrs)
    requires b - Base(path[0], ptrs) < Pow(ptrs, Levels(path[0]))
    ensures ValidPath(path, ptrs) && PathToBlock(path, ptrs) == b
  {
    DigitsVal(b - Base(path[0], ptrs), Levels(path[0]), ptrs);
  }

  /** Every block in range has a valid path, and the path determines the block. */
  lemma BlockPathBlock(b: nat, ptrs: nat)
    requires 0 < ptrs
    ensures BlockToPath(b, ptrs) != [] <==> b < MaxBlocks(ptrs)
    ensures b < MaxBlocks(ptrs) ==>
              ValidPath(BlockToPath(b, ptrs), ptrs) && PathToBlock(BlockToPath(b, ptrs), ptrs) == b
  {
    HasPathIff(b, ptrs);
    if BlockToPath(b, ptrs) != [] { PathLeadsBack(b, ptrs, BlockToPath(b, ptrs)); }
  }

  /** Every valid path is the path of its block. */
  lemma PathBlockPath(path: seq<nat>, ptrs: nat)
    requires 0 < ptrs && ValidPath(path, ptrs)
    ensures PathToBlock(path, ptrs) < MaxBlocks(ptrs)
    ensures BlockToPath(PathToBlock(path, ptrs), ptrs) == path
  {
    ValBound(path[1..], ptrs);
    SameSlot(path[0], Val(path[1..], ptrs), ptrs);
    PathDigits(PathToBlock(path, ptrs), ptrs);
    ValDigits(path[1..], ptrs);
    SameParts(path, BlockToPath(PathToBlock(path, ptrs), ptrs));
  }

  lemma SameParts(s: seq<nat>, t: seq<nat>)
    requires s != [] && t != [] && s[0] == t[0] && s[1..] == t[1..]
    ensures s == t
  {
    assert s == [s[0]] + s[1..] && t == [t[0]] + t[1..];
  }

  /** A block falls into the tree of one slot only. */
  lemma SameSlot(i: nat, v: nat, ptrs: nat)
    requires 0 < ptrs && i <= TIND_BLOCK && v < Pow(ptrs, Levels(i))
    ensures Base(i, ptrs) + v < MaxBlocks(ptrs)
    ensures BlockToPath(Base(i, ptrs) + v, ptrs) != [] && BlockToPath(Base(i, ptrs) + v, ptrs)[0] == i
  {
    PowSmall(ptrs);
    if i == TIND_BLOCK {
      QuotientBelow(v, ptrs, ptrs * ptrs);
      assert ptrs * (ptrs * ptrs) == ptrs * ptrs * ptrs;
    }
  }

  /** Blocks of the same slot are ordered as their paths are. */
  lemma PathOrder(s: seq<nat>, t: seq<nat>, ptrs: nat)
    requires 0 < ptrs && ValidPath(s, ptrs) && ValidPath(t, ptrs)
    ensures s[0] == t[0] ==> (Before(s[1..], t[1..]) <==> PathToBlock(s, ptrs) < PathToBlock(t, ptrs))
    ensures s[0] < t[0] ==> PathToBlock(s, ptrs) < PathToBlock(t, ptrs)
  {
    PowSmall(ptrs);
    ValBound(s[1..], ptrs);
    ValBound(t[1..], ptrs);
    if s[0] == t[0] { BeforeVal(s[1..], t[1..], ptrs); }
  }
}
