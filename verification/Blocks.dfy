/**
  Lists of block numbers, and the log of blocks given back to the allocator.
 */
module Blocks {
  /** How often b occurs in a list. */
  function Count(s: seq<nat>, b: nat): nat {
    if s == [] then 0 else (if s[0] == b then 1 else 0) + Count(s[1..], b)
  }

  lemma {:induction false} CountConcat(s: seq<nat>, t: seq<nat>, b: nat)
    ensures Count(s + t, b) == Count(s, b) + Count(t, b)
  {
    if s == [] {
      assert s + t == t;
    } else {
      assert (s + t)[0] == s[0] && (s + t)[1..] == s[1..] + t;
      CountConcat(s[1..], t, b);
    }
  }

  function Zeros(n: nat): (r: seq<nat>)
    ensures |r| == n && forall i :: 0 <= i < n ==> r[i] == 0
  {
    if n == 0 then [] else Zeros(n - 1) + [0]
  }

  /** How often physical block p occurs in a run. */
  function InRun(start: nat, n: nat, p: nat): nat {
    if start <= p < start + n then 1 else 0
  }

  /** What was handed to ext4_free_blocks, newest first: a tree block or a run of data blocks. */
  datatype Freed = Meta(blk: nat) | Data(pblk: nat, len: nat)

  ghost function FreedMeta(log: seq<Freed>, b: nat): nat {
    if log == [] then 0
    else (if log[0].Meta? && log[0].blk == b then 1 else 0) + FreedMeta(log[1..], b)
  }

  ghost function FreedData(log: seq<Freed>, p: nat): nat {
    if log == [] then 0
    else (if log[0].Data? then InRun(log[0].pblk, log[0].len, p) else 0) + FreedData(log[1..], p)
  }

  lemma FreedCons(x: Freed, log: seq<Freed>, p: nat)
    ensures FreedData([x] + log, p) == FreedData(log, p) + if x.Data? then InRun(x.pblk, x.len, p) else 0
    ensures FreedMeta([x] + log, p) == FreedMeta(log, p) + if x == Meta(p) then 1 else 0
  {
    assert ([x] + log)[1..] == log;
  }
}
