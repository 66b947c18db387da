/**
  A bitmap in a byte buffer and the bits that are set in it (ext4/ialloc.c).
 */
module Bitmap {
  predicate Bit(x: bv8, k: nat)
    requires k < 8
  {
    (x >> k) & 1 == 1
  }

  predicate BitAt(s: seq<bv8>, i: nat)
    requires i < 8 * |s|
  {
    Bit(s[i / 8], i % 8)
  }

  ghost function Ones(s: seq<bv8>): set<nat> {
    set i: nat | 0 <= i < 8 * |s| && BitAt(s, i)
  }

  ghost function ZeroBits(s: seq<bv8>): set<nat> {
    set i: nat | 0 <= i < 8 * |s| && !BitAt(s, i)
  }

  /** The numbers from lo on and below hi. */
  ghost function Span(lo: nat, hi: nat): set<nat> {
    set c: nat | 0 <= c < hi && Between(lo, c, hi)
  }

  predicate Between(lo: nat, c: nat, hi: nat) {
    lo <= c < hi
  }

  lemma {:induction false} SpanSize(lo: nat, hi: nat)
    requires lo <= hi
    ensures |Span(lo, hi)| == hi - lo
    decreases hi
  {
    if lo < hi {
      SpanSize(lo, hi - 1);
      SpanNext(lo, hi - 1);
    } else {
      assert Span(lo, hi) == {};
    }
  }

  lemma SpanNext(lo: nat, hi: nat)
    requires lo <= hi
    ensures Span(lo, hi + 1) == Span(lo, hi) + {hi} && hi !in Span(lo, hi)
  {
  }

  lemma BitOr(x: bv8, k: nat, j: nat)
    requires k < 8 && j < 8
    ensures Bit(x | (1 << k), j) <==> j == k || Bit(x, j)
  {
  }

  lemma BitFull(j: nat)
    requires j < 8
    ensures Bit(0xff, j) && !Bit(0, j)
  {
  }

  /** ext4_set_bit */
  method SetBit(buf: array<bv8>, i: nat)
    requires i < 8 * buf.Length
    modifies buf
    ensures Ones(buf[..]) == old(Ones(buf[..])) + {i}
  {
    ghost var s := buf[..];
    buf[i / 8] := buf[i / 8] | (1 << (i % 8));
    forall j: nat | j < 8 * |s| ensures BitAt(buf[..], j) <==> j == i || BitAt(s, j) {
      if j / 8 == i / 8 { BitOr(s[i / 8], i % 8, j % 8); }
    }
  }

  /** memset of whole bytes. */
  method FillBytes(buf: array<bv8>, from: nat, to: nat, x: bv8)
    requires from <= to <= buf.Length
    modifies buf
    ensures forall k :: 0 <= k < buf.Length ==> buf[k] == if from <= k < to then x else old(buf[k])
  {
    var k := from;
    while k < to
      invariant from <= k <= to
      invariant forall j :: 0 <= j < buf.Length ==> buf[j] == if from <= j < k then x else old(buf[j])
    {
      buf[k] := x;
      k := k + 1;
    }
  }

  /** The bits from lo on and below hi, one by one. */
  method SetBits(buf: array<bv8>, lo: nat, hi: nat)
    requires lo <= hi <= 8 * buf.Length
    modifies buf
    ensures Ones(buf[..]) == old(Ones(buf[..])) + Span(lo, hi)
  {
    var i := lo;
    while i < hi
      invariant lo <= i <= hi
      invariant Ones(buf[..]) == old(Ones(buf[..])) + Span(lo, i)
    {
      SetBit(buf, i);
      SpanNext(lo, i);
      i := i + 1;
    }
  }

  lemma RoundUp(n: nat, end: nat)
    requires n < end && end % 8 == 0
    ensures n <= (n + 7) / 8 * 8 <= end && (n + 7) / 8 * 8 % 8 == 0
  {
  }

  /** ext4_mark_bitmap_end: single bits up to the next byte, then whole bytes. */
  method MarkBitmapEnd(buf: array<bv8>, start: nat, end: nat)
    requires end == 8 * buf.Length
    modifies buf
    ensures Ones(buf[..]) == old(Ones(buf[..])) + Span(start, end)
  {
    if start >= end {
      return;
    }
    var i := (start + 7) / 8 * 8;
    RoundUp(start, end);
    SetBits(buf, start, i);
    SpanJoin(start, i, end);
    if i < end {
      FillFrom(buf, i);
    }
  }

  lemma SpanJoin(lo: nat, mid: nat, hi: nat)
    requires lo <= mid <= hi
    ensures Span(lo, hi) == Span(lo, mid) + Span(mid, hi) && Span(hi, hi) == {}
  {
  }

  /** All bytes from bit i on. */
  method FillFrom(buf: array<bv8>, i: nat)
    requires i % 8 == 0 && i <= 8 * buf.Length
    modifies buf
    ensures Ones(buf[..]) == old(Ones(buf[..])) + Span(i, 8 * buf.Length)
  {
    ghost var s := buf[..];
    FillBytes(buf, i / 8, buf.Length, 0xff);
    FilledOnes(s, i, buf[..]);
  }

  lemma FilledOnes(s: seq<bv8>, i: nat, s': seq<bv8>)
    requires |s'| == |s| && i % 8 == 0 && i <= 8 * |s|
    requires forall k :: 0 <= k < |s| ==> s'[k] == if i / 8 <= k then 0xff else s[k]
    ensures Ones(s') == Ones(s) + Span(i, 8 * |s|)
  {
    forall j: nat | j < 8 * |s| ensures BitAt(s', j) <==> i <= j || BitAt(s, j) { BitFull(j % 8); }
  }

  /** memset of the whole buffer to 0. */
  method Clear(buf: array<bv8>)
    modifies buf
    ensures Ones(buf[..]) == {}
  {
    FillBytes(buf, 0, buf.Length, 0);
    forall j: nat | j < 8 * buf.Length ensures !BitAt(buf[..], j) { BitFull(j % 8); }
  }

  lemma ZeroSet(s: seq<bv8>, used: set<nat>, n: nat)
    requires n <= 8 * |s| && used <= Span(0, n) && Ones(s) == used + Span(n, 8 * |s|)
    ensures ZeroBits(s) == Span(0, n) - used
  {
    forall i: nat ensures i in ZeroBits(s) <==> i in Span(0, n) - used {
      if i < 8 * |s| { assert i in Ones(s) <==> BitAt(s, i); }
    }
  }
}
