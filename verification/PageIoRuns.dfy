/**
  Whole runs of the io_end protocol (ext4/page-io.c): what holds in every interleaving, and
  that every run which submits no more ends with everything released.
 */
module PageIoRuns {
  import opened Wrappers
  import opened PageIo

  /** The state after a sequence of steps; it stops early at a step that is not enabled. */
  ghost function After(s: State, run: seq<Step>): State
    decreases |run|
  {
    if run == [] || !Enabled(s, run[0]) then s else After(Apply(s, run[0]), run[1..])
  }

  /** Every step of the run can be taken. */
  ghost predicate IsRun(s: State, run: seq<Step>)
    decreases |run|
  {
    run == [] || (Enabled(s, run[0]) && IsRun(Apply(s, run[0]), run[1..]))
  }

  /** No flagged io_end of size 0 loses its last reference to ext4_put_io_end_defer. */
  ghost predicate Sized(s: State, run: seq<Step>)
    requires IsRun(s, run)
    decreases |run|
  {
    run != [] ==>
      && !(run[0].Decide? && s.ios[run[0].i].flag && s.ios[run[0].i].size == 0)
      && Sized(Apply(s, run[0]), run[1..])
  }

  lemma StartInv()
    ensures Inv(START)
  {
  }

  /** A run hits a BUG_ON exactly when it breaks the rule about sizes, and keeps the invariant otherwise. */
  lemma {:induction false} RunInv(s: State, run: seq<Step>)
    requires Inv(s) && !s.bug && IsRun(s, run)
    ensures After(s, run).bug <==> !Sized(s, run)
    ensures Sized(s, run) ==> Inv(After(s, run))
    decreases |run|
  {
    if run != [] {
      var s' := Apply(s, run[0]);
      BugIff(s, run[0]);
      if s'.bug {
        BugEnds(s', run[1..]);
      } else {
        StepInv(s, run[0]);
        RunInv(s', run[1..]);
      }
    }
  }

  lemma BugEnds(s: State, run: seq<Step>)
    requires s.bug && IsRun(s, run)
    ensures run == [] && After(s, run) == s
  {
  }

  function Solo(io: IoEnd, unwritten: int): State {
    START.(ios := [io], unwritten := unwritten)
  }

  const FLAGGED := IoEnd(1, 1, true, 0, [], Live, true, 0, 0)
  const DROPPED := IoEnd(0, 0, true, 0, [], Last(true), true, 0, 0)

  lemma DecideHits()
    ensures Enabled(Solo(DROPPED, 1), Decide(0)) && Apply(Solo(DROPPED, 1), Decide(0)).bug
  {
  }

  lemma PutDrops()
    ensures Enabled(Solo(FLAGGED, 1), Put(0, true)) && Apply(Solo(FLAGGED, 1), Put(0, true)) == Solo(DROPPED, 1)
  {
    assert NextIos(Solo(FLAGGED, 1), Put(0, true)) == [DROPPED];
  }

  lemma SetFlags()
    ensures Enabled(Solo(NEW_IO, 0), SetFlag(0)) && Apply(Solo(NEW_IO, 0), SetFlag(0)) == Solo(FLAGGED, 1)
  {
    assert NextIos(Solo(NEW_IO, 0), SetFlag(0)) == [FLAGGED];
  }

  lemma InitNew()
    ensures Enabled(START, Init) && Apply(START, Init) == Solo(NEW_IO, 0)
  {
    assert NextIos(START, Init) == [NEW_IO];
  }

  lemma DroppedRun() returns (run: seq<Step>)
    ensures IsRun(Solo(DROPPED, 1), run) && After(Solo(DROPPED, 1), run).bug
  {
    DecideHits();
    var rest := [];
    run := [Decide(0)] + rest;
    Prepend(Solo(DROPPED, 1), Decide(0), rest);
  }

  lemma FlaggedRun() returns (run: seq<Step>)
    ensures IsRun(Solo(FLAGGED, 1), run) && After(Solo(FLAGGED, 1), run).bug
  {
    PutDrops();
    var rest := DroppedRun();
    run := [Put(0, true)] + rest;
    Prepend(Solo(FLAGGED, 1), Put(0, true), rest);
  }

  lemma NewRun() returns (run: seq<Step>)
    ensures IsRun(Solo(NEW_IO, 0), run) && After(Solo(NEW_IO, 0), run).bug
  {
    SetFlags();
    var rest := FlaggedRun();
    run := [SetFlag(0)] + rest;
    Prepend(Solo(NEW_IO, 0), SetFlag(0), rest);
  }

  /** The rule can be broken: an io_end that is flagged and dropped before any page is added. */
  lemma UnsizedRun() returns (run: seq<Step>)
    ensures IsRun(START, run) && After(START, run).bug
  {
    InitNew();
    var rest := NewRun();
    run := [Init] + rest;
    Prepend(START, Init, rest);
  }

  lemma Prepend(s: State, st: Step, run: seq<Step>)
    requires Enabled(s, st) && IsRun(Apply(s, st), run)
    ensures IsRun(s, [st] + run) && After(s, [st] + run) == After(Apply(s, st), run)
  {
    assert ([st] + run)[1..] == run;
  }

  lemma {:induction false} RunParts(s: State, pre: seq<Step>, post: seq<Step>)
    requires IsRun(s, pre + post)
    ensures IsRun(s, pre) && IsRun(After(s, pre), post) && After(s, pre + post) == After(After(s, pre), post)
    ensures Sized(s, pre + post) ==> Sized(s, pre) && Sized(After(s, pre), post)
    decreases |pre|
  {
    if pre == [] {
      assert pre + post == post;
    } else {
      assert (pre + post)[0] == pre[0] && (pre + post)[1..] == pre[1..] + post;
      RunParts(Apply(s, pre[0]), pre[1..], post);
    }
  }

  // ----------------------------------------------------------------- history

  /** How often the run takes a step. */
  function Times(run: seq<Step>, st: Step): nat {
    if run == [] then 0 else Times(run[..|run|-1], st) + if run[|run|-1] == st then 1 else 0
  }

  /** By how much the run makes an io_end larger. */
  function Grown(run: seq<Step>, i: nat): nat {
    if run == [] then 0
    else Grown(run[..|run|-1], i) + if run[|run|-1].Grow? && run[|run|-1].i == i then run[|run|-1].n else 0
  }

  /** The fields of io_end i say what the run did. */
  ghost predicate Recorded(io: IoEnd, run: seq<Step>, i: nat) {
    && (io.everFlagged <==> Times(run, SetFlag(i)) > 0) && io.size == Grown(run, i)
    && io.conversions == Times(run, Convert(i)) && io.releases == Times(run, Free(i))
  }

  /** A run has no step of an io_end that does not exist. */
  lemma {:induction false} NoneBefore(run: seq<Step>, i: nat)
    requires IsRun(START, run) && i >= |After(START, run).ios|
    ensures Times(run, SetFlag(i)) == 0 && Grown(run, i) == 0 && Times(run, Convert(i)) == 0 && Times(run, Free(i)) == 0
    decreases |run|
  {
    if run != [] {
      LastOne(run);
      NoneBefore(run[..|run|-1], i);
    }
  }

  lemma LastOne(run: seq<Step>)
    requires IsRun(START, run) && run != []
    ensures var pre, st := run[..|run|-1], run[|run|-1];
            && IsRun(START, pre) && Enabled(After(START, pre), st)
            && After(START, run) == Apply(After(START, pre), st)
            && |After(START, pre).ios| <= |After(START, run).ios|
  {
    var pre, st := run[..|run|-1], run[|run|-1];
    assert run == pre + [st];
    RunParts(START, pre, [st]);
  }

  lemma {:induction false} RunHistory(run: seq<Step>, i: nat)
    requires IsRun(START, run) && i < |After(START, run).ios|
    ensures Recorded(After(START, run).ios[i], run, i)
    decreases |run|
  {
    if run != [] {
      var pre, st := run[..|run|-1], run[|run|-1];
      LastOne(run);
      var s := After(START, pre);
      if i < |s.ios| {
        RunHistory(pre, i);
        StepHistory(s, st, i);
      } else {
        NoneBefore(pre, i);
        NewOne(s, st, i);
      }
    }
  }

  /** Only ext4_put_io_end leaves the conversion to the thread that drops the last reference. */
  lemma {:induction false} NotInPlace(run: seq<Step>, i: nat)
    requires IsRun(START, run) && i < |After(START, run).ios| && Put(i, false) !in run
    ensures After(START, run).ios[i].phase != Last(false)
    decreases |run|
  {
    if run != [] {
      var pre, st := run[..|run|-1], run[|run|-1];
      LastOne(run);
      assert st in run && Put(i, false) !in pre;
      if i < |After(START, pre).ios| { NotInPlace(pre, i); }
      StepInPlace(After(START, pre), st, i);
    }
  }

  lemma StepInPlace(s: State, st: Step, i: nat)
    requires Enabled(s, st) && i < |NextIos(s, st)| && st != Put(i, false)
    requires i < |s.ios| ==> s.ios[i].phase != Last(false)
    ensures NextIos(s, st)[i].phase != Last(false)
  {
  }

  /** The completion of a bio never converts extents: in every run, an io_end that is not put by ext4_put_io_end is
      converted by the worker. */
  lemma ConvertedByWorker(run: seq<Step>, i: nat)
    requires IsRun(START, run) && Sized(START, run) && Put(i, false) !in run && Enabled(After(START, run), Convert(i))
    ensures var w := After(START, run).worker; w.Draining? && w.cur == Some(i)
  {
    StartInv();
    RunInv(START, run);
    NotInPlace(run, i);
  }

  lemma NewOne(s: State, st: Step, i: nat)
    requires Enabled(s, st) && |s.ios| <= i < |NextIos(s, st)|
    ensures st.Init? && NextIos(s, st)[i] == NEW_IO
  {
  }

  lemma StepHistory(s: State, st: Step, i: nat)
    requires Enabled(s, st) && i < |s.ios|
    ensures var io, io' := s.ios[i], NextIos(s, st)[i];
            && (io'.everFlagged <==> io.everFlagged || st == SetFlag(i))
            && io'.size == io.size + (if st.Grow? && st.i == i then st.n else 0)
            && io'.conversions == io.conversions + (if st == Convert(i) then 1 else 0)
            && io'.releases == io.releases + (if st == Free(i) then 1 else 0)
  {
  }

  // ------------------------------------------------------------ exactly once

  /** What has become of an io_end and of the bios submitted with it. */
  ghost predicate Accounted(s: State, i: nat)
    requires i < |s.ios|
  {
    var io := s.ios[i];
    && io.releases <= 1 && io.conversions <= 1
    && (io.releases == 1 <==> io.phase.Freed?)
    && (io.releases == 1 ==> io.conversions == (if io.everFlagged then 1 else 0) && io.count == 0 && io.chain == [])
    && (forall b :: 0 <= b < |s.bios| && s.bios[b].io == i ==>
          && s.bios[b].finishes <= 1
          && (io.releases == 1 ==> !Holds(s.bios[b].phase) && !Chained(s.bios[b].phase)))
  }

  /** In every run from the start each io_end is released at most once and, if flagged, only after exactly one
      conversion; by then no bio holds it or waits on its chain. i_unwritten is the number of flagged io_ends,
      and a conversion list with something on it has work queued or a worker about to take it. */
  lemma RunSafe(run: seq<Step>)
    requires IsRun(START, run) && Sized(START, run)
    ensures var s := After(START, run);
            && !s.bug && Woken(s) && s.unwritten == FlaggedCount(s.ios)
            && forall i :: 0 <= i < |s.ios| ==> Accounted(s, i)
  {
    StartInv();
    RunInv(START, run);
    var s := After(START, run);
    forall i | 0 <= i < |s.ios| ensures Accounted(s, i) { AccountedAt(s, i); }
  }

  lemma AccountedAt(s: State, i: nat)
    requires Inv(s) && i < |s.ios|
    ensures Accounted(s, i)
  {
    var io := s.ios[i];
    assert IoOk(io);
    forall b | 0 <= b < |s.bios| && s.bios[b].io == i
      ensures s.bios[b].finishes <= 1
      ensures io.phase.Freed? ==> !Holds(s.bios[b].phase) && !Chained(s.bios[b].phase)
    {
      if Holds(s.bios[b].phase) { HolderLive(s, b); }
      assert b in io.chain <==> OnChain(s, i, b);
    }
  }

  /** A bio on a chain is finished only after the conversion, by the release of its io_end. */
  lemma FinishedAfterConversion(s: State, st: Step, b: nat)
    requires Inv(s) && Enabled(s, st) && b < |s.bios| && Chained(s.bios[b].phase)
    requires NextBios(s, st)[b].phase.Done?
    ensures s.ios[s.bios[b].io].conversions == 1 && !s.ios[s.bios[b].io].flag && s.ios[s.bios[b].io].phase.Releasing?
  {
    if st.FinishHead? {
      HeadParked(s, st.i);
      assert IoOk(s.ios[st.i]);
    }
  }

  /** What is known of bio b, submitted with io_end i when that one was flagged. */
  ghost predicate Guarded(s: State, i: nat, b: nat) {
    && i < |s.ios| && b < |s.bios| && s.bios[b].io == i && s.ios[i].everFlagged
    && !s.bios[b].phase.Loose? && !s.bios[b].phase.Finishing?
    && (s.bios[b].phase.Done? ==> s.ios[i].phase.Releasing? || s.ios[i].phase.Freed?)
  }

  lemma GuardedStep(s: State, st: Step, i: nat, b: nat)
    requires Inv(s) && Enabled(s, st) && Guarded(s, i, b)
    ensures Guarded(Apply(s, st), i, b)
  {
    EverFlaggedKept(s, st, i);
    BioStays(s, st, i, b);
    if s.ios[i].phase.Releasing? || s.ios[i].phase.Freed? { ReleasingStays(s, st, i); }
  }

  lemma ReleasingStays(s: State, st: Step, i: nat)
    requires Inv(s) && Enabled(s, st) && i < |s.ios| && (s.ios[i].phase.Releasing? || s.ios[i].phase.Freed?)
    ensures NextIos(s, st)[i].phase.Releasing? || NextIos(s, st)[i].phase.Freed?
  {
    assert IoOk(s.ios[i]);
    assert s.ios[i].count == s.ios[i].owners + Holders(s.bios, i);
    if IoOf(s, st) == Some(i) { Found(s, st); }
  }

  lemma BioStays(s: State, st: Step, i: nat, b: nat)
    requires Inv(s) && Enabled(s, st) && Guarded(s, i, b)
    ensures var x := NextBios(s, st)[b];
            && x.io == i && !x.phase.Loose? && !x.phase.Finishing?
            && (x.phase.Done? && !s.bios[b].phase.Done? ==> s.ios[i].phase.Releasing?)
  {
    if BioOf(s, st) == Some(b) {
      if st.Look? {
        HolderLive(s, b);
        assert IoOk(s.ios[i]);
      } else if st.FinishHead? {
        HeadParked(s, st.i);
      }
    }
  }

  lemma {:induction false} GuardedRun(s: State, run: seq<Step>, i: nat, b: nat)
    requires Inv(s) && !s.bug && IsRun(s, run) && Sized(s, run) && Guarded(s, i, b)
    ensures Inv(After(s, run)) && Guarded(After(s, run), i, b)
    decreases |run|
  {
    if run != [] {
      BugIff(s, run[0]);
      StepInv(s, run[0]);
      GuardedStep(s, run[0], i, b);
      GuardedRun(Apply(s, run[0]), run[1..], i, b);
    }
  }

  /** In every run, a bio that was submitted with a flagged io_end is finished only after the conversion. */
  lemma ConvertedBeforeFinished(pre: seq<Step>, i: nat, post: seq<Step>)
    requires IsRun(START, pre + ([Submit(i)] + post)) && Sized(START, pre + ([Submit(i)] + post))
    requires i < |After(START, pre).ios| && After(START, pre).ios[i].flag
    ensures var b, s := |After(START, pre).bios|, After(START, pre + ([Submit(i)] + post));
            && i < |s.ios| && b < |s.bios| && s.bios[b].io == i
            && (s.bios[b].finishes > 0 ==> s.ios[i].conversions == 1 && !s.ios[i].flag)
  {
    var s0, tail := After(START, pre), [Submit(i)] + post;
    StartInv();
    RunParts(START, pre, tail);
    RunInv(START, pre);
    assert tail[0] == Submit(i) && tail[1..] == post;
    var s1, b := Apply(s0, Submit(i)), |s0.bios|;
    BugIff(s0, Submit(i));
    StepInv(s0, Submit(i));
    assert IoOk(s0.ios[i]);
    assert Guarded(s1, i, b);
    GuardedRun(s1, post, i, b);
    assert IoOk(After(s1, post).ios[i]);
  }

  /** A freed io_end is never touched again. */
  lemma FreedUntouched(s: State, st: Step, i: nat)
    requires Inv(s) && Enabled(s, st) && i < |s.ios| && s.ios[i].phase.Freed?
    ensures IoOf(s, st) != Some(i) && NextIos(s, st)[i] == s.ios[i]
  {
    assert IoOk(s.ios[i]);
    assert s.ios[i].count == s.ios[i].owners + Holders(s.bios, i);
    if IoOf(s, st).Some? { Found(s, st); }
  }

  /** Who waits for i_unwritten to become 0 finds every flagged io_end converted. */
  lemma WaiterSeesConverted(s: State)
    requires Inv(s) && s.unwritten == 0
    ensures forall i :: 0 <= i < |s.ios| && s.ios[i].everFlagged ==> s.ios[i].conversions == 1
  {
    forall i | 0 <= i < |s.ios| && s.ios[i].everFlagged ensures s.ios[i].conversions == 1 {
      assert IoOk(s.ios[i]);
      if s.ios[i].flag { FlagCounts(s.ios, i); }
    }
  }

  lemma {:induction false} FlagCounts(ios: seq<IoEnd>, i: nat)
    requires i < |ios| && ios[i].flag
    ensures FlaggedCount(ios) > 0
  {
    if i < |ios| - 1 { FlagCounts(ios[..|ios|-1], i); }
  }

  // ----------------------------------------------------------------- draining

  /** Steps that only carry on with what has been submitted. */
  predicate Drains(st: Step) {
    !st.Init? && !st.SetFlag? && !st.Grow? && !st.Get? && !st.Submit?
  }

  function PhaseWork(p: Phase): nat {
    match p
    case Live => 20
    case Last(_) => 19
    case Queued => 10
    case Picked => 6
    case Converted => 5
    case Releasing => 4
    case Freed => 0
  }

  function BioWork(p: BioPhase): nat {
    match p
    case InFlight => 5
    case Seen => 4
    case Linked => 3
    case Loose => 3
    case Parked => 1
    case Finishing => 1
    case Done => 0
  }

  function IoWork(io: IoEnd): nat {
    io.owners + PhaseWork(io.phase)
  }

  function IosWork(ios: seq<IoEnd>): nat {
    if ios == [] then 0 else IosWork(ios[..|ios|-1]) + IoWork(ios[|ios|-1])
  }

  function BiosWork(bios: seq<Bio>): nat {
    if bios == [] then 0 else BiosWork(bios[..|bios|-1]) + BioWork(bios[|bios|-1].phase)
  }

  function QueueWork(queued: bool, w: Worker): nat {
    (if queued then 4 else 0) + if w.Starting? then 2 else if w.Draining? then 1 else 0
  }

  /** An upper bound for the steps that are left. */
  function Work(s: State): nat {
    IosWork(s.ios) + BiosWork(s.bios) + QueueWork(s.queued, s.worker)
  }

  lemma {:induction false} IosWorkUpdate(ios: seq<IoEnd>, i: nat, x: IoEnd)
    requires i < |ios|
    ensures IosWork(ios[i := x]) + IoWork(ios[i]) == IosWork(ios) + IoWork(x)
    decreases |ios|
  {
    var t, t' := ios[..|ios|-1], ios[i := x][..|ios|-1];
    if i == |ios| - 1 {
      assert t' == t;
    } else {
      assert t' == t[i := x];
      IosWorkUpdate(t, i, x);
    }
  }

  lemma {:induction false} BiosWorkUpdate(bios: seq<Bio>, b: nat, x: Bio)
    requires b < |bios|
    ensures BiosWork(bios[b := x]) + BioWork(bios[b].phase) == BiosWork(bios) + BioWork(x.phase)
    decreases |bios|
  {
    var t, t' := bios[..|bios|-1], bios[b := x][..|bios|-1];
    if b == |bios| - 1 {
      assert t' == t;
    } else {
      assert t' == t[b := x];
      BiosWorkUpdate(t, b, x);
    }
  }

  lemma NextIoWork(io: IoEnd, st: Step)
    requires IoReady(io, st) && Drains(st) && (st.Pick? ==> io.phase.Queued?) &&
               (st.Put? || st.BioPut? ==> io.phase.Live?)
    ensures IoWork(NextIo(io, st)) <= IoWork(io)
    ensures st.Put? || st.Convert? || st.Clear? || st.Free? || st.Pick? ==> IoWork(NextIo(io, st)) < IoWork(io)
    ensures st.Decide? ==> IoWork(NextIo(io, st)) + 5 <= IoWork(io)
  {
  }

  lemma IosWorkNext(s: State, st: Step)
    requires Inv(s) && Enabled(s, st) && Drains(st)
    ensures IosWork(NextIos(s, st)) <= IosWork(s.ios)
    ensures st.Put? || st.Convert? || st.Clear? || st.Free? || st.Pick? ==> IosWork(NextIos(s, st)) < IosWork(s.ios)
    ensures st.Decide? ==> IosWork(NextIos(s, st)) + 5 <= IosWork(s.ios)
  {
    if IoOf(s, st).Some? {
      var i := IoOf(s, st).value;
      Found(s, st);
      assert s.ios[i].count == s.ios[i].owners + Holders(s.bios, i);
      NextIoWork(s.ios[i], st);
      IosWorkUpdate(s.ios, i, NextIo(s.ios[i], st));
    }
  }

  lemma BiosWorkNext(s: State, st: Step)
    requires Inv(s) && Enabled(s, st) && Drains(st)
    ensures BiosWork(NextBios(s, st)) <= BiosWork(s.bios)
    ensures BioOf(s, st).Some? ==> BiosWork(NextBios(s, st)) < BiosWork(s.bios)
  {
    if st.FinishHead? { HeadParked(s, st.i); }
    if BioOf(s, st).Some? {
      var b := BioOf(s, st).value;
      var flag := s.ios[s.bios[b].io].flag;
      NextBioWork(s.bios[b], flag, st);
      BiosWorkUpdate(s.bios, b, NextBio(s.bios[b], flag, st));
    }
  }

  lemma NextBioWork(x: Bio, flag: bool, st: Step)
    requires BioReady(x.phase, st) && (st.FinishHead? ==> x.phase.Parked?)
    requires st.Look? || st.Link? || st.BioPut? || st.FinishLoose? || st.FinishHead?
    ensures BioWork(NextBio(x, flag, st).phase) < BioWork(x.phase)
  {
  }

  /** Every such step leaves less to do. */
  lemma DrainStep(s: State, st: Step)
    requires Inv(s) && Enabled(s, st) && Drains(st)
    ensures Work(Apply(s, st)) < Work(s)
  {
    IosWorkNext(s, st);
    BiosWorkNext(s, st);
  }

  ghost predicate DrainRun(run: seq<Step>) {
    forall k :: 0 <= k < |run| ==> Drains(run[k])
  }

  /** Without new submissions a run is no longer than the work at its start. */
  lemma {:induction false} DrainBound(s: State, run: seq<Step>)
    requires Inv(s) && !s.bug && IsRun(s, run) && Sized(s, run) && DrainRun(run)
    ensures |run| + Work(After(s, run)) <= Work(s)
    decreases |run|
  {
    if run != [] {
      var st, rest := run[0], run[1..];
      assert Drains(st) && DrainRun(rest);
      BugIff(s, st);
      StepInv(s, st);
      DrainStep(s, st);
      DrainBound(Apply(s, st), rest);
    }
  }

  predicate AllDone(s: State) {
    && (forall i :: 0 <= i < |s.ios| ==> s.ios[i].phase.Freed?)
    && (forall b :: 0 <= b < |s.bios| ==> s.bios[b].phase.Done?)
    && s.list == [] && !s.queued && s.worker.Idle?
  }

  lemma {:induction false} SomeHolder(bios: seq<Bio>, i: nat) returns (b: nat)
    requires Holders(bios, i) > 0
    ensures b < |bios| && bios[b].io == i && Holds(bios[b].phase)
  {
    if bios[|bios|-1].io == i && Holds(bios[|bios|-1].phase) {
      b := |bios| - 1;
    } else {
      b := SomeHolder(bios[..|bios|-1], i);
    }
  }

  /** A bio that holds a reference can go on. */
  lemma HolderMoves(s: State, b: nat) returns (st: Step)
    requires Inv(s) && !s.bug && b < |s.bios| && Holds(s.bios[b].phase)
    ensures Drains(st) && Enabled(s, st)
  {
    assert s.bios[b].io < |s.ios|;
    var p := s.bios[b].phase;
    st := if p.InFlight? then Look(b) else if p.Seen? then Link(b) else BioPut(b);
  }

  /** So can an io_end that somebody works on. */
  lemma InWorkMoves(s: State, i: nat) returns (st: Step)
    requires Inv(s) && !s.bug && i < |s.ios| && InWork(s.ios[i].phase)
    ensures Drains(st) && Enabled(s, st)
  {
    var io := s.ios[i];
    st := if io.phase.Picked? then Convert(i) else if io.phase.Converted? then Clear(i)
        else if io.chain == [] then Free(i) else FinishHead(i);
    if st.FinishHead? { HeadParked(s, i); }
  }

  /** And the worker, while something waits for conversion or the work is under way. */
  lemma WorkerMoves(s: State) returns (st: Step)
    requires Inv(s) && !s.bug && (Waiting(s) != [] || s.queued || !s.worker.Idle?)
    ensures Drains(st) && Enabled(s, st)
  {
    if s.worker.Idle? {
      st := WorkStart;
    } else if s.worker.Starting? {
      st := WorkTake;
    } else if s.worker.cur.Some? {
      st := InWorkMoves(s, s.worker.cur.value);
    } else if s.worker.rest == [] {
      st := WorkDone;
    } else {
      st := PickMoves(s);
    }
  }

  lemma PickMoves(s: State) returns (st: Step)
    requires Inv(s) && !s.bug && s.worker.Draining? && s.worker.cur.None? && s.worker.rest != []
    ensures Drains(st) && Enabled(s, st)
  {
    assert Waiting(s)[0] == s.worker.rest[0];
    assert s.worker.rest[0] in Waiting(s);
    st := Pick;
  }

  lemma IoMoves(s: State, i: nat) returns (st: Step)
    requires Inv(s) && !s.bug && i < |s.ios| && !s.ios[i].phase.Freed?
    ensures Drains(st) && Enabled(s, st)
  {
    var io := s.ios[i];
    assert IoOk(io) && (i in Waiting(s) <==> io.phase.Queued?);
    if io.phase.Live? {
      st := LiveMoves(s, i);
    } else if io.phase.Last? {
      st := if io.phase.deferred || !io.flag then Decide(i) else Convert(i);
    } else if io.phase.Queued? {
      st := WorkerMoves(s);
    } else {
      st := InWorkMoves(s, i);
    }
  }

  lemma LiveMoves(s: State, i: nat) returns (st: Step)
    requires Inv(s) && !s.bug && i < |s.ios| && s.ios[i].phase.Live?
    ensures Drains(st) && Enabled(s, st)
  {
    assert IoOk(s.ios[i]) && s.ios[i].count == s.ios[i].owners + Holders(s.bios, i);
    if s.ios[i].owners > 0 {
      st := Put(i, true);
    } else {
      var b := SomeHolder(s.bios, i);
      st := HolderMoves(s, b);
    }
  }

  /** Nothing gets stuck: until all is done some thread can take a step. */
  lemma Progress(s: State) returns (st: Step)
    requires Inv(s) && !s.bug && !AllDone(s)
    ensures Drains(st) && Enabled(s, st)
  {
    if i :| 0 <= i < |s.ios| && !s.ios[i].phase.Freed? {
      st := IoMoves(s, i);
    } else if b :| 0 <= b < |s.bios| && !s.bios[b].phase.Done? {
      var i := s.bios[b].io;
      assert i < |s.ios| && IoOk(s.ios[i]);
      assert b in s.ios[i].chain <==> OnChain(s, i, b);
      if Holds(s.bios[b].phase) { st := HolderMoves(s, b); } else { st := FinishLoose(b); }
    } else {
      st := WorkerMoves(s);
    }
  }

  /** A run from the start that cannot go on without new submissions has released every io_end exactly once, after
      exactly one conversion if it was flagged, and finished every bio exactly once. */
  lemma DrainedOnce(run: seq<Step>)
    requires IsRun(START, run) && Sized(START, run)
    requires forall st: Step :: Drains(st) ==> !Enabled(After(START, run), st)
    ensures var s := After(START, run);
            && s.unwritten == 0 && s.list == []
            && (forall i :: 0 <= i < |s.ios| ==>
                    s.ios[i].releases == 1 && s.ios[i].conversions == if s.ios[i].everFlagged then 1 else 0)
            && (forall b :: 0 <= b < |s.bios| ==> s.bios[b].finishes == 1)
  {
    StartInv();
    RunInv(START, run);
    var s := After(START, run);
    if !AllDone(s) { var st := Progress(s); }
    forall i | 0 <= i < |s.ios| ensures IoOk(s.ios[i]) && !s.ios[i].flag {}
    NoneFlagged(s.ios);
  }

  lemma {:induction false} NoneFlagged(ios: seq<IoEnd>)
    requires forall i :: 0 <= i < |ios| ==> !ios[i].flag
    ensures FlaggedCount(ios) == 0
  {
    if ios != [] { NoneFlagged(ios[..|ios|-1]); }
  }
}
