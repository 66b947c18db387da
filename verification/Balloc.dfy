/**
  The free clusters of a block group in two ways (ext4/balloc.c): computed from the group
  descriptor, and as the zero bits of the bitmap that is built for the group.
 */
module Balloc {
  import opened Arithmetic
  import opened Bitmap
  import opened Wrappers

  /** ratio is the number of blocks in a cluster. */
  datatype Super = Super(firstDataBlock: nat, blocksPerGroup: nat, blocksCount: nat, groups: nat, blockSize: nat,
                         tableBlocks: nat, ratio: nat)

  datatype Desc = Desc(blockBitmap: nat, inodeBitmap: nat, inodeTable: nat)

  /** A group has at most a bit per cluster in its bitmap block, and the last group is not empty. */
  predicate ValidSuper(sb: Super) {
    && 0 < sb.ratio && 0 < sb.blocksPerGroup && NumB2C(sb, sb.blocksPerGroup) <= 8 * sb.blockSize && 0 < sb.groups
    && GroupFirst(sb, sb.groups - 1) < sb.blocksCount <= GroupFirst(sb, sb.groups - 1) + sb.blocksPerGroup
  }

  /** EXT4_B2C and EXT4_NUM_B2C */
  function B2C(sb: Super, offset: nat): nat
    requires 0 < sb.ratio
  {
    offset / sb.ratio
  }

  function NumB2C(sb: Super, blocks: nat): nat
    requires 0 < sb.ratio
  {
    (blocks + sb.ratio - 1) / sb.ratio
  }

  /** ext4_group_first_block_no */
  function GroupFirst(sb: Super, g: nat): nat {
    sb.firstDataBlock + g * sb.blocksPerGroup
  }

  /** ext4_block_in_group */
  predicate InGroup(sb: Super, block: nat, g: nat)
    requires 0 < sb.blocksPerGroup
  {
    sb.firstDataBlock <= block && (block - sb.firstDataBlock) / sb.blocksPerGroup == g
  }

  predicate Inside(sb: Super, block: nat, g: nat) {
    GroupFirst(sb, g) <= block < GroupFirst(sb, g) + sb.blocksPerGroup
  }

  lemma InGroupIff(sb: Super, block: nat, g: nat)
    requires 0 < sb.blocksPerGroup
    ensures InGroup(sb, block, g) <==> Inside(sb, block, g)
  {
    if sb.firstDataBlock <= block {
      QuotientIff(block - sb.firstDataBlock, g, sb.blocksPerGroup);
    } else {
      assert g * sb.blocksPerGroup >= 0;
    }
  }

  /** num_clusters_in_group */
  function NumClusters(sb: Super, g: nat): nat
    requires ValidSuper(sb) && g < sb.groups
  {
    NumB2C(sb, if g == sb.groups - 1 then sb.blocksCount - GroupFirst(sb, g) else sb.blocksPerGroup)
  }

  lemma ClustersFit(sb: Super, g: nat)
    requires ValidSuper(sb) && g < sb.groups
    ensures NumClusters(sb, g) <= NumB2C(sb, sb.blocksPerGroup) <= 8 * sb.blockSize
  {
    var n := if g == sb.groups - 1 then sb.blocksCount - GroupFirst(sb, g) else sb.blocksPerGroup;
    QuotientMono(n + sb.ratio - 1, sb.blocksPerGroup + sb.ratio - 1, sb.ratio);
  }

  // ------------------------------------------------------------ used clusters

  /** The cluster of a block, if it is in the group. */
  ghost function ClusterOf(sb: Super, g: nat, block: nat): set<nat>
    requires 0 < sb.ratio
  {
    if Inside(sb, block, g) then {B2C(sb, block - GroupFirst(sb, g))} else {}
  }

  /** The clusters of the first i blocks of the inode table. */
  ghost function Pieces(sb: Super, d: Desc, g: nat, i: nat): set<nat>
    requires 0 < sb.ratio
  {
    if i == 0 then {} else Pieces(sb, d, g, i - 1) + ClusterOf(sb, g, d.inodeTable + i - 1)
  }

  /** The clusters that hold metadata: the first base ones, and those that the descriptor names. */
  ghost function UsedSet(sb: Super, d: Desc, g: nat, base: nat): set<nat>
    requires 0 < sb.ratio
  {
    Span(0, base) + ClusterOf(sb, g, d.blockBitmap) + ClusterOf(sb, g, d.inodeBitmap) + Pieces(sb, d, g, sb.tableBlocks)
  }

  /** The metadata in the group lies within its clusters. */
  ghost predicate Fits(sb: Super, d: Desc, g: nat, base: nat)
    requires ValidSuper(sb) && g < sb.groups
  {
    UsedSet(sb, d, g, base) <= Span(0, NumClusters(sb, g))
  }

  // -------------------------------------------------------------- block by block

  /** The block holds a bitmap of the group or a part of its inode table. */
  ghost predicate IsMeta(sb: Super, d: Desc, block: nat) {
    block == d.blockBitmap || block == d.inodeBitmap || d.inodeTable <= block < d.inodeTable + sb.tableBlocks
  }

  /** One of the blocks of cluster c of the group is such a block. */
  ghost predicate HasMeta(sb: Super, d: Desc, g: nat, c: nat) {
    var first := sb.firstDataBlock + g * sb.blocksPerGroup;
    exists block: nat :: IsMeta(sb, d, block) && first <= block < first + sb.blocksPerGroup &&
                         first + c * sb.ratio <= block < first + c * sb.ratio + sb.ratio
  }

  /** Cluster c of the group begins inside the file system and holds no metadata. */
  ghost predicate FreeCluster(sb: Super, d: Desc, g: nat, base: nat, c: nat) {
    && base <= c && !HasMeta(sb, d, g, c) && c * sb.ratio < sb.blocksPerGroup
    && sb.firstDataBlock + g * sb.blocksPerGroup + c * sb.ratio < sb.blocksCount
  }

  ghost function FreeSet(sb: Super, d: Desc, g: nat, base: nat): set<nat> {
    set c: nat | c < sb.blocksPerGroup && FreeCluster(sb, d, g, base, c)
  }

  lemma ClusterIff(sb: Super, g: nat, block: nat, c: nat)
    requires 0 < sb.ratio
    ensures c in ClusterOf(sb, g, block) <==>
            Inside(sb, block, g) &&
                GroupFirst(sb, g) + c * sb.ratio <= block < GroupFirst(sb, g) + c * sb.ratio + sb.ratio
  {
    if Inside(sb, block, g) { QuotientIff(block - GroupFirst(sb, g), c, sb.ratio); }
  }

  lemma {:induction false} PiecesIff(sb: Super, d: Desc, g: nat, i: nat, c: nat)
    requires 0 < sb.ratio
    ensures c in Pieces(sb, d, g, i) <==>
            exists block: nat :: d.inodeTable <= block < d.inodeTable + i && c in ClusterOf(sb, g, block)
  {
    if i > 0 {
      PiecesIff(sb, d, g, i - 1, c);
      assert c in ClusterOf(sb, g, d.inodeTable + i - 1) ==> c in Pieces(sb, d, g, i);
    }
  }

  lemma UsedIff(sb: Super, d: Desc, g: nat, base: nat, c: nat)
    requires 0 < sb.ratio
    ensures c in UsedSet(sb, d, g, base) <==> c < base || HasMeta(sb, d, g, c)
  {
    PiecesIff(sb, d, g, sb.tableBlocks, c);
    if c in UsedSet(sb, d, g, base) && base <= c {
      var block: nat :| IsMeta(sb, d, block) && c in ClusterOf(sb, g, block);
      ClusterIff(sb, g, block, c);
    }
    if HasMeta(sb, d, g, c) {
      var first := GroupFirst(sb, g);
      var block: nat :| IsMeta(sb, d, block) && first <= block < first + sb.blocksPerGroup &&
                        first + c * sb.ratio <= block < first + c * sb.ratio + sb.ratio;
      ClusterIff(sb, g, block, c);
    }
  }

  /** EXT4_NUM_B2C rounds up. */
  lemma NumB2CIff(sb: Super, blocks: nat, c: nat)
    requires 0 < sb.ratio
    ensures c < NumB2C(sb, blocks) <==> c * sb.ratio < blocks
  {
    var r := sb.ratio;
    var n := blocks + r - 1;
    QuotientIff(n, n / r, r);
    Multiples(c, n / r, r);
    if n / r <= c { MulGrows(n / r, c, r); }
  }

  /** The clusters of the group are those that begin inside the group and inside the file system. */
  lemma NumClustersIff(sb: Super, g: nat, c: nat)
    requires ValidSuper(sb) && g < sb.groups
    ensures c < NumClusters(sb, g) <==>
            c * sb.ratio < sb.blocksPerGroup &&
                sb.firstDataBlock + g * sb.blocksPerGroup + c * sb.ratio < sb.blocksCount
  {
    if g == sb.groups - 1 {
      NumB2CIff(sb, sb.blocksCount - GroupFirst(sb, g), c);
    } else {
      NumB2CIff(sb, sb.blocksPerGroup, c);
      Multiples(g, sb.groups - 1, sb.blocksPerGroup);
    }
  }

  lemma FreeIff(sb: Super, d: Desc, g: nat, base: nat, c: nat)
    requires ValidSuper(sb) && g < sb.groups
    ensures c in Span(0, NumClusters(sb, g)) - UsedSet(sb, d, g, base) <==> FreeCluster(sb, d, g, base, c)
    ensures FreeCluster(sb, d, g, base, c) ==> c < sb.blocksPerGroup
  {
    UsedIff(sb, d, g, base, c);
    NumClustersIff(sb, g, c);
    if c >= sb.blocksPerGroup { MulGrows(1, sb.ratio, c); }
  }

  lemma FreeSetIs(sb: Super, d: Desc, g: nat, base: nat)
    requires ValidSuper(sb) && g < sb.groups
    ensures FreeSet(sb, d, g, base) == Span(0, NumClusters(sb, g)) - UsedSet(sb, d, g, base)
  {
    forall c: nat
      ensures c in FreeSet(sb, d, g, base) <==> c in Span(0, NumClusters(sb, g)) - UsedSet(sb, d, g, base)
    {
      FreeIff(sb, d, g, base, c);
    }
  }

  /** Both bitmaps are in the same cluster of the group, not among the base clusters or right behind them. */
  predicate Doubled(sb: Super, d: Desc, g: nat, base: nat)
    requires 0 < sb.ratio
  {
    && Inside(sb, d.blockBitmap, g) && Inside(sb, d.inodeBitmap, g)
    && B2C(sb, d.blockBitmap - GroupFirst(sb, g)) == B2C(sb, d.inodeBitmap - GroupFirst(sb, g)) > base
  }

  lemma ClusterInGroup(sb: Super, g: nat, block: nat)
    requires 0 < sb.ratio && Inside(sb, block, g)
    ensures B2C(sb, block - GroupFirst(sb, g)) < NumB2C(sb, sb.blocksPerGroup)
  {
    var off, r := block - GroupFirst(sb, g), sb.ratio;
    QuotientMono(off, sb.blocksPerGroup - 1, r);
    QuotientIff(sb.blocksPerGroup - 1, (sb.blocksPerGroup - 1) / r, r);
    QuotientIff(sb.blocksPerGroup - 1 + r, (sb.blocksPerGroup - 1) / r + 1, r);
    assert ((sb.blocksPerGroup - 1) / r + 1) * r == (sb.blocksPerGroup - 1) / r * r + r;
  }

  /** A piece of the table lies no further right than the next one. */
  lemma {:induction false} PiecesBelow(sb: Super, d: Desc, g: nat, i: nat, block: nat)
    requires 0 < sb.ratio && Inside(sb, block, g) && d.inodeTable + i <= block + 1
    ensures forall c :: c in Pieces(sb, d, g, i) ==> c <= B2C(sb, block - GroupFirst(sb, g))
  {
    if i > 0 {
      PiecesBelow(sb, d, g, i - 1, block);
      var start, last := GroupFirst(sb, g), d.inodeTable + i - 1;
      if Inside(sb, last, g) { QuotientMono(last - start, block - start, sb.ratio); }
    }
  }

  lemma SubsetSize(s: set<nat>, t: set<nat>)
    requires s <= t
    ensures |s| <= |t| && |t - s| == |t| - |s|
  {
    assert t == s + (t - s);
  }

  // ------------------------------------------------------ counted from the descriptor

  /** Either the cluster of the block waits to be counted, or those before n' are those before n and that of the
      block, if it is in the group. */
  predicate BitmapCounted(sb: Super, g: nat, block: nat, n: nat, n': nat, pending: Option<nat>)
    requires 0 < sb.ratio
  {
    if Inside(sb, block, g) then
      var c := B2C(sb, block - GroupFirst(sb, g));
      n' == (if c == n then n + 1 else n) && pending == if c > n then Some(c) else None
    else n' == n && pending == None
  }

  /** A bitmap block of the group: counted with the base clusters if it is in one or right behind them. */
  method CountBitmap(sb: Super, g: nat, block: nat, n: nat) returns (n': nat, pending: Option<nat>)
    requires 0 < sb.blocksPerGroup && 0 < sb.ratio
    ensures BitmapCounted(sb, g, block, n, n', pending)
  {
    n', pending := n, None;
    InGroupIff(sb, block, g);
    if InGroup(sb, block, g) {
      var c := B2C(sb, block - GroupFirst(sb, g));
      if c == n {
        n' := n + 1;
      } else if c > n {
        pending := Some(c);
      }
    }
  }

  ghost function Pending(bc: Option<nat>): set<nat> {
    if bc.Some? then {bc.value} else {}
  }

  /** What the loop over the inode table has counted, where the clusters before n0 were counted before. */
  ghost function Counted(sb: Super, d: Desc, g: nat, n0: nat, bc: Option<nat>, ic: Option<nat>, i: nat): set<nat>
    requires 0 < sb.ratio
  {
    Span(0, n0) + (Pieces(sb, d, g, i) - (Pending(bc) + Pending(ic)))
  }

  /** t is what has been counted. The cluster counted last is the rightmost, and recognised when it comes again. */
  ghost predicate Tallied(n0: nat, n: nat, itbl: Option<nat>, last: Option<nat>, t: set<nat>) {
    && n == |t| && n0 <= n && Span(0, n0) <= t
    && (last.None? ==> t == Span(0, n0))
    && (last.Some? ==> last.value in t && (last.value < n || itbl == last))
    && (forall c :: c in t ==> c < n0 || (last.Some? && c <= last.value))
    && (itbl.Some? ==> itbl.value in t)
  }

  /** Whether the next cluster of the table is counted already shows in its number. */
  lemma TallyKnows(n0: nat, n: nat, itbl: Option<nat>, last: Option<nat>, t: set<nat>, c: nat)
    requires Tallied(n0, n, itbl, last, t) && (last.Some? ==> last.value <= c)
    ensures c in t <==> c < n || itbl == Some(c)
  {
    if c !in t {
      SpanSize(0, c);
      SubsetSize(t, Span(0, c));
    }
  }

  /** The loop of ext4_num_overhead_clusters over the inode table. */
  method CountTable(sb: Super, d: Desc, g: nat, n0: nat, bc: Option<nat>, ic: Option<nat>)
    returns (n: nat, ghost t: set<nat>)
    requires 0 < sb.blocksPerGroup && 0 < sb.ratio
    ensures t == Counted(sb, d, g, n0, bc, ic, sb.tableBlocks) && n == |t|
  {
    n, t := n0, Span(0, n0);
    SpanSize(0, n0);
    var itbl: Option<nat> := None;
    ghost var last: Option<nat> := None;
    var i := 0;
    while i < sb.tableBlocks
      invariant 0 <= i <= sb.tableBlocks && t == Counted(sb, d, g, n0, bc, ic, i)
      invariant Tallied(n0, n, itbl, last, t) && (last.Some? ==> last.value in Pieces(sb, d, g, i))
    {
      n, itbl, t, last := CountPiece(sb, d, g, n0, bc, ic, i, n, itbl, t, last);
      i := i + 1;
    }
  }

  /** Block i of the inode table. */
  method CountPiece(sb: Super, d: Desc, g: nat, ghost n0: nat, bc: Option<nat>, ic: Option<nat>, i: nat, n: nat,
                    itbl: Option<nat>, ghost t: set<nat>, ghost last: Option<nat>)
    returns (n': nat, itbl': Option<nat>, ghost t': set<nat>, ghost last': Option<nat>)
    requires 0 < sb.blocksPerGroup && 0 < sb.ratio && t == Counted(sb, d, g, n0, bc, ic, i)
    requires Tallied(n0, n, itbl, last, t) && (last.Some? ==> last.value in Pieces(sb, d, g, i))
    ensures t' == Counted(sb, d, g, n0, bc, ic, i + 1)
    ensures Tallied(n0, n', itbl', last', t') && (last'.Some? ==> last'.value in Pieces(sb, d, g, i + 1))
  {
    n', itbl', t', last' := n, itbl, t, last;
    var block := d.inodeTable + i;
    InGroupIff(sb, block, g);
    CountedNext(sb, d, g, n0, bc, ic, i, t);
    if InGroup(sb, block, g) {
      PiecesBelow(sb, d, g, i, block);
      n', itbl', t', last' := CountCluster(n0, bc, ic, B2C(sb, block - GroupFirst(sb, g)), n, itbl, t, last);
    }
  }

  /** Count cluster c, which lies behind all clusters of the table before it, unless it has been counted. */
  method CountCluster(ghost n0: nat, bc: Option<nat>, ic: Option<nat>, c: nat, n: nat, itbl: Option<nat>,
                      ghost t: set<nat>, ghost last: Option<nat>)
    returns (n': nat, itbl': Option<nat>, ghost t': set<nat>, ghost last': Option<nat>)
    requires Tallied(n0, n, itbl, last, t) && (last.Some? ==> last.value <= c)
    ensures t' == if bc == Some(c) || ic == Some(c) || c in t then t else t + {c}
    ensures Tallied(n0, n', itbl', last', t') && (last' == last || last' == Some(c))
  {
    n', itbl', t', last' := n, itbl, t, last;
    TallyKnows(n0, n, itbl, last, t, c);
    if !(c < n || ic == Some(c) || bc == Some(c) || itbl == Some(c)) {
      TallyNext(n0, n, itbl, last, t, c);
      if c != n {
        itbl' := Some(c);
      }
      n', t', last' := n + 1, t + {c}, Some(c);
    }
  }

  lemma TallyNext(n0: nat, n: nat, itbl: Option<nat>, last: Option<nat>, t: set<nat>, c: nat)
    requires Tallied(n0, n, itbl, last, t) && (last.Some? ==> last.value <= c) && !(c < n) && itbl != Some(c)
    ensures c !in t && Tallied(n0, n + 1, if c != n then Some(c) else itbl, Some(c), t + {c})
  {
    TallyKnows(n0, n, itbl, last, t, c);
  }

  lemma CountedNext(sb: Super, d: Desc, g: nat, n0: nat, bc: Option<nat>, ic: Option<nat>, i: nat, t: set<nat>)
    requires 0 < sb.ratio && t == Counted(sb, d, g, n0, bc, ic, i)
    ensures Pieces(sb, d, g, i) <= Pieces(sb, d, g, i + 1)
    ensures !Inside(sb, d.inodeTable + i, g) ==> Counted(sb, d, g, n0, bc, ic, i + 1) == t
    ensures Inside(sb, d.inodeTable + i, g) ==>
              var c := B2C(sb, d.inodeTable + i - GroupFirst(sb, g));
              && c in Pieces(sb, d, g, i + 1)
              && Counted(sb, d, g, n0, bc, ic, i + 1) == if bc == Some(c) || ic == Some(c) || c in t then t else t + {c}
  {
    var p, block := Pieces(sb, d, g, i), d.inodeTable + i;
    if Inside(sb, block, g) {
      AddPiece(Span(0, n0), p, Pending(bc) + Pending(ic), B2C(sb, block - GroupFirst(sb, g)), t);
    } else {
      assert p + {} == p;
    }
  }

  /** One more piece of the table, in a cluster that waits or is counted. */
  lemma AddPiece(s: set<nat>, p: set<nat>, w: set<nat>, c: nat, t: set<nat>)
    requires t == s + (p - w)
    ensures c in w || c in t ==> s + ((p + {c}) - w) == t
    ensures c !in w ==> s + ((p + {c}) - w) == t + {c}
  {
  }

  /** ext4_num_overhead_clusters: the number of used clusters, one more if both bitmaps share one that is counted
      by itself. */
  method NumOverheadClusters(sb: Super, d: Desc, g: nat, base: nat) returns (n: nat)
    requires 0 < sb.blocksPerGroup && 0 < sb.ratio
    ensures n == |UsedSet(sb, d, g, base)| + if Doubled(sb, d, g, base) then 1 else 0
  {
    var n1, bc := CountBitmap(sb, g, d.blockBitmap, base);
    var n2, ic := CountBitmap(sb, g, d.inodeBitmap, n1);
    ghost var t;
    n, t := CountTable(sb, d, g, n2, bc, ic);
    OverheadSet(sb, d, g, base, n1, n2, bc, ic, t);
    if bc.Some? {
      n := n + 1;
    }
    if ic.Some? {
      n := n + 1;
    }
  }

  lemma UnionSize(t: set<nat>, bc: Option<nat>, ic: Option<nat>)
    requires (bc.Some? ==> bc.value !in t) && (ic.Some? ==> ic.value !in t)
    ensures |t + Pending(bc) + Pending(ic)| == |t| + (if bc.Some? then 1 else 0) + if ic.Some? && ic != bc then 1 else 0
  {
    var u := t + Pending(bc);
    if ic.Some? && ic == bc { assert u + Pending(ic) == u; }
  }

  /** The bitmaps are counted with the first clusters or wait. */
  lemma BitmapsCounted(sb: Super, d: Desc, g: nat, base: nat, n1: nat, n2: nat, bc: Option<nat>, ic: Option<nat>)
    requires 0 < sb.ratio
    requires BitmapCounted(sb, g, d.blockBitmap, base, n1, bc) && BitmapCounted(sb, g, d.inodeBitmap, n1, n2, ic)
    ensures Span(0, n2) + Pending(bc) + Pending(ic)
         == Span(0, base) + ClusterOf(sb, g, d.blockBitmap) + ClusterOf(sb, g, d.inodeBitmap)
    ensures (bc.Some? ==> n2 <= bc.value) && (ic.Some? ==> n2 <= ic.value)
    ensures Doubled(sb, d, g, base) <==> bc.Some? && ic == bc
  {
    BitmapSet(sb, g, d.blockBitmap, base, n1, bc);
    BitmapSet(sb, g, d.inodeBitmap, n1, n2, ic);
    TwoBitmaps(Span(0, n2), Span(0, n1), Span(0, base), ClusterOf(sb, g, d.blockBitmap),
               ClusterOf(sb, g, d.inodeBitmap), Pending(bc), Pending(ic));
  }

  lemma BitmapSet(sb: Super, g: nat, block: nat, n: nat, n': nat, pending: Option<nat>)
    requires 0 < sb.ratio && BitmapCounted(sb, g, block, n, n', pending)
    ensures Span(0, n') + Pending(pending) == Span(0, n) + ClusterOf(sb, g, block)
  {
    SpanNext(0, n);
  }

  lemma TwoBitmaps(s2: set<nat>, s1: set<nat>, s0: set<nat>, b: set<nat>, i: set<nat>, pb: set<nat>, pi: set<nat>)
    requires s1 + pb == s0 + b && s2 + pi == s1 + i
    ensures s2 + pb + pi == s0 + b + i
  {
    assert s2 + pb + pi == (s2 + pi) + pb;
    assert (s1 + i) + pb == (s1 + pb) + i;
  }

  lemma OverheadSet(sb: Super, d: Desc, g: nat, base: nat, n1: nat, n2: nat, bc: Option<nat>, ic: Option<nat>,
                    t: set<nat>)
    requires 0 < sb.ratio && t == Counted(sb, d, g, n2, bc, ic, sb.tableBlocks)
    requires BitmapCounted(sb, g, d.blockBitmap, base, n1, bc) && BitmapCounted(sb, g, d.inodeBitmap, n1, n2, ic)
    ensures |UsedSet(sb, d, g, base)| + (if Doubled(sb, d, g, base) then 1 else 0)
         == |t| + (if bc.Some? then 1 else 0) + if ic.Some? then 1 else 0
  {
    BitmapsCounted(sb, d, g, base, n1, n2, bc, ic);
    WithPending(Span(0, n2), Pieces(sb, d, g, sb.tableBlocks), Pending(bc), Pending(ic), t);
    UnionSize(t, bc, ic);
  }

  lemma WithPending(s: set<nat>, p: set<nat>, b: set<nat>, i: set<nat>, t: set<nat>)
    requires t == s + (p - (b + i))
    ensures t + b + i == (s + b + i) + p
  {
  }

  /** ext4_free_clusters_after_init, before the result is cut to 32 bits. */
  method FreeClustersAfterInit(sb: Super, d: Desc, g: nat, base: nat) returns (n: int)
    requires ValidSuper(sb) && g < sb.groups && Fits(sb, d, g, base)
    ensures n == |FreeSet(sb, d, g, base)| - if Doubled(sb, d, g, base) then 1 else 0
  {
    FreeSetIs(sb, d, g, base);
    var over := NumOverheadClusters(sb, d, g, base);
    n := NumClusters(sb, g) - over;
    SpanSize(0, NumClusters(sb, g));
    SubsetSize(UsedSet(sb, d, g, base), Span(0, NumClusters(sb, g)));
  }

  // ------------------------------------------------------------------ the bitmap

  /** Set the bit of a metadata block if it is in the group. */
  method MarkBlock(buf: array<bv8>, sb: Super, g: nat, block: nat)
    requires 0 < sb.blocksPerGroup && 0 < sb.ratio && NumB2C(sb, sb.blocksPerGroup) <= 8 * buf.Length
    modifies buf
    ensures Ones(buf[..]) == old(Ones(buf[..])) + ClusterOf(sb, g, block)
  {
    InGroupIff(sb, block, g);
    if InGroup(sb, block, g) {
      ClusterInGroup(sb, g, block);
      SetBit(buf, B2C(sb, block - GroupFirst(sb, g)));
    }
  }

  method MarkTable(buf: array<bv8>, sb: Super, d: Desc, g: nat)
    requires 0 < sb.blocksPerGroup && 0 < sb.ratio && NumB2C(sb, sb.blocksPerGroup) <= 8 * buf.Length
    modifies buf
    ensures Ones(buf[..]) == old(Ones(buf[..])) + Pieces(sb, d, g, sb.tableBlocks)
  {
    var i := 0;
    while i < sb.tableBlocks
      invariant 0 <= i <= sb.tableBlocks
      invariant Ones(buf[..]) == old(Ones(buf[..])) + Pieces(sb, d, g, i)
    {
      MarkBlock(buf, sb, g, d.inodeTable + i);
      i := i + 1;
    }
  }

  datatype Outcome = Done | BadCsum | Corrupted

  /** ext4_init_block_bitmap: the bits of used clusters and of those beyond the group are set, all others are clear. */
  method InitBlockBitmap(buf: array<bv8>, sb: Super, d: Desc, g: nat, base: nat, csumOk: bool) returns (r: Outcome)
    requires ValidSuper(sb) && g < sb.groups && buf.Length == sb.blockSize
    modifies buf
    ensures r == BadCsum <==> !csumOk
    ensures r == BadCsum ==> buf[..] == old(buf[..])
    ensures r == Corrupted <==> csumOk && base / 8 >= buf.Length
    ensures r == Done ==> Ones(buf[..]) == UsedSet(sb, d, g, base) + Span(NumClusters(sb, g), 8 * sb.blockSize)
    ensures r == Done ==>
              forall c: nat :: c < 8 * sb.blockSize ==> (BitAt(buf[..], c) <==> !FreeCluster(sb, d, g, base, c))
  {
    if !csumOk {
      return BadCsum;
    }
    Clear(buf);
    if base / 8 >= buf.Length {
      return Corrupted;
    }
    SetBits(buf, 0, base);
    MarkBlock(buf, sb, g, d.blockBitmap);
    MarkBlock(buf, sb, g, d.inodeBitmap);
    MarkTable(buf, sb, d, g);
    MarkBitmapEnd(buf, NumClusters(sb, g), sb.blockSize * 8);
    forall c: nat | c < 8 * sb.blockSize ensures BitAt(buf[..], c) <==> !FreeCluster(sb, d, g, base, c) {
      assert c in Ones(buf[..]) <==> BitAt(buf[..], c);
      FreeIff(sb, d, g, base, c);
    }
    r := Done;
  }

  // ----------------------------------------------------------------- agreement

  /** The two ways agree: the free count of the descriptor is the number of zero bits of the bitmap, unless both
      bitmaps share a cluster that is counted by itself; then it is one less. */
  method FreeMatchesBitmap(buf: array<bv8>, sb: Super, d: Desc, g: nat, base: nat) returns (r: Outcome, n: int)
    requires ValidSuper(sb) && g < sb.groups && buf.Length == sb.blockSize && Fits(sb, d, g, base)
    modifies buf
    ensures r == if base / 8 < buf.Length then Done else Corrupted
    ensures r == Done ==> ZeroBits(buf[..]) == FreeSet(sb, d, g, base)
    ensures r == Done ==> n == |ZeroBits(buf[..])| - if Doubled(sb, d, g, base) then 1 else 0
    ensures r == Done ==> (n == |ZeroBits(buf[..])| <==> !Doubled(sb, d, g, base))
  {
    r := InitBlockBitmap(buf, sb, d, g, base, true);
    n := FreeClustersAfterInit(sb, d, g, base);
    if r == Done {
      ClustersFit(sb, g);
      FreeSetIs(sb, d, g, base);
      ZeroSet(buf[..], UsedSet(sb, d, g, base), NumClusters(sb, g));
    }
  }

  /** A group in which a cluster is counted twice. */
  ghost predicate CountedTwice(sb: Super, d: Desc, g: nat, base: nat) {
    ValidSuper(sb) && g < sb.groups && Fits(sb, d, g, base) && Doubled(sb, d, g, base)
  }

  /** Clusters of 16 blocks: the two bitmaps are neighbours in one cluster, and the free count is one too small. */
  method SharedCluster(sb: Super, d: Desc, g: nat, base: nat) returns (buf: array<bv8>, r: Outcome, n: int)
    requires sb == Super(0, 32768, 32768, 1, 4096, 512, 16) && d == Desc(160, 161, 162) && g == 0 && base == 3
    ensures CountedTwice(sb, d, g, base)
    ensures fresh(buf) && r == Done && n == |ZeroBits(buf[..])| - 1
  {
    SharedFits(sb, d, g, base);
    buf, r, n := CountDoubled(sb, d, g, base);
  }

  method CountDoubled(sb: Super, d: Desc, g: nat, base: nat) returns (buf: array<bv8>, r: Outcome, n: int)
    requires CountedTwice(sb, d, g, base) && base < sb.blockSize
    ensures fresh(buf) && r == Done && n == |ZeroBits(buf[..])| - 1
  {
    buf := new bv8[sb.blockSize];
    r, n := FreeMatchesBitmap(buf, sb, d, g, base);
  }

  lemma SharedFits(sb: Super, d: Desc, g: nat, base: nat)
    requires sb == Super(0, 32768, 32768, 1, 4096, 512, 16) && d == Desc(160, 161, 162) && g == 0 && base == 3
    ensures CountedTwice(sb, d, g, base)
  {
    assert NumB2C(sb, sb.blocksPerGroup) == 2048 by { QuotientIff(sb.blocksPerGroup + sb.ratio - 1, 2048, sb.ratio); }
    assert B2C(sb, d.blockBitmap) == 10 by { QuotientIff(d.blockBitmap, 10, sb.ratio); }
    assert B2C(sb, d.inodeBitmap) == 10 by { QuotientIff(d.inodeBitmap, 10, sb.ratio); }
    OneGroup(sb, d, g, base);
  }

  /** A file system of one group, with all metadata in it. */
  lemma OneGroup(sb: Super, d: Desc, g: nat, base: nat)
    requires g == 0 && sb.groups == 1 && sb.firstDataBlock == 0 && 0 < sb.ratio
    requires 0 < sb.blocksPerGroup == sb.blocksCount
    requires base <= NumB2C(sb, sb.blocksPerGroup) <= 8 * sb.blockSize
    requires d.blockBitmap < sb.blocksPerGroup && d.inodeBitmap < sb.blocksPerGroup
    requires 0 < sb.tableBlocks && d.inodeTable + sb.tableBlocks <= sb.blocksPerGroup
    ensures ValidSuper(sb) && Fits(sb, d, g, base)
    ensures B2C(sb, d.blockBitmap) == B2C(sb, d.inodeBitmap) > base ==> Doubled(sb, d, g, base)
  {
    assert GroupFirst(sb, g) == 0;
    var last := d.inodeTable + sb.tableBlocks - 1;
    ClusterInGroup(sb, g, d.blockBitmap);
    ClusterInGroup(sb, g, d.inodeBitmap);
    ClusterInGroup(sb, g, last);
    PiecesBelow(sb, d, g, sb.tableBlocks, last);
  }
}
