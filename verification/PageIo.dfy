/**
  The io_end protocol of page writeback (ext4/page-io.c): reference counts, the flag for
  unwritten extents, the chain of completed bios and the conversion list with its worker.
  Each step is what one thread does atomically; a run is any interleaving of steps.
 */
module PageIo {
  import opened Wrappers

  /** Where an io_end is on its way. */
  datatype Phase =
    | Live                  // somebody holds a reference
    | Last(deferred: bool)  // the last reference is gone, its thread looks at the flag next
    | Queued                // on the conversion list or on the worker's own list
    | Picked                // taken off that list by the worker
    | Converted             // extents converted, flag still set
    | Releasing             // finishing the chained bios
    | Freed

  /** owners are the references that no bio holds. everFlagged, conversions and releases record history. */
  datatype IoEnd = IoEnd(count: nat, owners: nat, flag: bool, size: nat, chain: seq<nat>, phase: Phase,
                         everFlagged: bool, conversions: nat, releases: nat)

  datatype BioPhase =
    | InFlight
    | Seen       // saw the flag, not yet linked
    | Linked     // on the chain, reference still held
    | Parked     // on the chain, reference dropped
    | Loose      // did not see the flag, reference still held
    | Finishing  // reference dropped, finishes itself
    | Done

  datatype Bio = Bio(io: nat, phase: BioPhase, finishes: nat)

  datatype Worker = Idle | Starting | Draining(cur: Option<nat>, rest: seq<nat>)

  /** unwritten is i_unwritten, list is i_rsv_conversion_list, queued says that the work item is pending,
      bug that a BUG_ON was hit. */
  datatype State = State(ios: seq<IoEnd>, bios: seq<Bio>, unwritten: int, list: seq<nat>, queued: bool, worker: Worker,
                         bug: bool)

  datatype Step =
    | Init
    | SetFlag(i: nat)
    | Grow(i: nat, n: nat)
    | Get(i: nat)
    | Submit(i: nat)
    | Look(b: nat)
    | Link(b: nat)
    | BioPut(b: nat)
    | FinishLoose(b: nat)
    | Put(i: nat, deferred: bool)
    | Decide(i: nat)
    | Convert(i: nat)
    | Clear(i: nat)
    | FinishHead(i: nat)
    | Free(i: nat)
    | WorkStart
    | WorkTake
    | Pick
    | WorkDone

  const START := State([], [], 0, [], false, Idle, false)

  const NEW_IO := IoEnd(1, 1, false, 0, [], Live, false, 0, 0)

  predicate Holds(p: BioPhase) {
    p.InFlight? || p.Seen? || p.Linked? || p.Loose?
  }

  predicate Chained(p: BioPhase) {
    p.Linked? || p.Parked?
  }

  /** The io_end that a step reads or writes. */
  function IoOf(s: State, st: Step): Option<nat> {
    match st
    case SetFlag(i) => Some(i)
    case Grow(i, _) => Some(i)
    case Get(i) => Some(i)
    case Submit(i) => Some(i)
    case Look(b) => if b < |s.bios| then Some(s.bios[b].io) else None
    case Link(b) => if b < |s.bios| then Some(s.bios[b].io) else None
    case BioPut(b) => if b < |s.bios| then Some(s.bios[b].io) else None
    case Put(i, _) => Some(i)
    case Decide(i) => Some(i)
    case Convert(i) => Some(i)
    case Clear(i) => Some(i)
    case FinishHead(i) => Some(i)
    case Free(i) => Some(i)
    case Pick => if s.worker.Draining? && s.worker.rest != [] then Some(s.worker.rest[0]) else None
    case _ => None
  }

  /** The bio that a step works on. */
  function BioOf(s: State, st: Step): Option<nat> {
    match st
    case Look(b) => Some(b)
    case Link(b) => Some(b)
    case BioPut(b) => Some(b)
    case FinishLoose(b) => Some(b)
    case FinishHead(i) => if i < |s.ios| && s.ios[i].chain != [] then Some(s.ios[i].chain[0]) else None
    case _ => None
  }

  predicate IoReady(io: IoEnd, st: Step) {
    match st
    case SetFlag(_) => io.owners > 0
    case Grow(_, _) => io.owners > 0
    case Get(_) => io.owners > 0
    case Submit(_) => io.owners > 0
    case Put(_, _) => io.owners > 0
    case Decide(_) => io.phase.Last? && (io.phase.deferred || !io.flag)
    case Convert(_) => io.phase.Picked? || (io.phase == Last(false) && io.flag)
    case Clear(_) => io.phase.Converted?
    case FinishHead(_) => io.phase.Releasing? && io.chain != []
    case Free(_) => io.phase.Releasing? && io.chain == []
    case _ => true
  }

  predicate BioReady(p: BioPhase, st: Step) {
    match st
    case Look(_) => p.InFlight?
    case Link(_) => p.Seen?
    case BioPut(_) => p.Linked? || p.Loose?
    case FinishLoose(_) => p.Finishing?
    case _ => true
  }

  predicate WorkReady(s: State, st: Step) {
    match st
    case WorkStart => s.queued && s.worker.Idle?
    case WorkTake => s.worker.Starting?
    case Pick => s.worker.Draining? && s.worker.cur.None? && s.worker.rest != []
    case WorkDone => s.worker.Draining? && s.worker.cur.None? && s.worker.rest == []
    case _ => true
  }

  predicate Enabled(s: State, st: Step) {
    && !s.bug && WorkReady(s, st)
    && (IoOf(s, st).Some? ==> IoOf(s, st).value < |s.ios| && IoReady(s.ios[IoOf(s, st).value], st))
    && (BioOf(s, st).Some? ==>
        BioOf(s, st).value < |s.bios| && s.bios[BioOf(s, st).value].io < |s.ios| &&
            BioReady(s.bios[BioOf(s, st).value].phase, st))
    && (st.Look? || st.Link? || st.BioPut? || st.FinishLoose? ==> st.b < |s.bios|)
  }

  /** atomic_dec_and_test on the reference count. */
  function Drop(io: IoEnd, deferred: bool): IoEnd {
    if io.count <= 1 then io.(count := 0, phase := Last(deferred)) else io.(count := io.count - 1)
  }

  /** What a step does to its io_end. */
  function NextIo(io: IoEnd, st: Step): IoEnd
    requires IoReady(io, st)
  {
    match st
    case SetFlag(_) => io.(flag := true, everFlagged := true)
    case Grow(_, n) => io.(size := io.size + n)
    case Get(_) => io.(count := io.count + 1, owners := io.owners + 1)
    case Submit(_) => io.(count := io.count + 1)
    case Link(b) => io.(chain := [b] + io.chain)
    case BioPut(_) => Drop(io, true)
    case Put(_, deferred) => Drop(io.(owners := io.owners - 1), deferred)
    case Decide(_) => io.(phase := if io.flag && io.size != 0 then Queued else Releasing)
    case Convert(_) => io.(phase := Converted, conversions := io.conversions + 1)
    case Clear(_) => io.(phase := Releasing, flag := false)
    case FinishHead(_) => io.(chain := io.chain[1..])
    case Free(_) => io.(phase := Freed, releases := io.releases + 1)
    case Pick => io.(phase := Picked)
    case _ => io
  }

  /** What a step does to its bio. flag is that of the io_end. */
  function NextPhase(p: BioPhase, flag: bool, st: Step): BioPhase {
    match st
    case Look(_) => if flag then Seen else Loose
    case Link(_) => Linked
    case BioPut(_) => if p.Linked? then Parked else Finishing
    case _ => Done
  }

  function NextBio(x: Bio, flag: bool, st: Step): Bio {
    var p := NextPhase(x.phase, flag, st);
    Bio(x.io, p, if p.Done? then x.finishes + 1 else x.finishes)
  }

  function NextIos(s: State, st: Step): seq<IoEnd>
    requires Enabled(s, st)
  {
    if st.Init? then s.ios + [NEW_IO]
    else match IoOf(s, st)
      case Some(i) => s.ios[i := NextIo(s.ios[i], st)]
      case None => s.ios
  }

  function NextBios(s: State, st: Step): seq<Bio>
    requires Enabled(s, st)
  {
    if st.Submit? then s.bios + [Bio(st.i, InFlight, 0)]
    else match BioOf(s, st)
      case Some(b) => s.bios[b := NextBio(s.bios[b], s.ios[s.bios[b].io].flag, st)]
      case None => s.bios
  }

  function NextUnwritten(s: State, st: Step): int
    requires Enabled(s, st)
  {
    if st.SetFlag? && !s.ios[st.i].flag then s.unwritten + 1
    else if st.Clear? && s.ios[st.i].flag then s.unwritten - 1
    else s.unwritten
  }

  /** ext4_put_io_end_defer hands the io_end to ext4_add_complete_io. */
  predicate Adds(s: State, st: Step)
    requires Enabled(s, st)
  {
    st.Decide? && s.ios[st.i].flag && s.ios[st.i].size != 0
  }

  function NextList(s: State, st: Step): seq<nat>
    requires Enabled(s, st)
  {
    if st.WorkTake? then [] else if Adds(s, st) then s.list + [st.i] else s.list
  }

  predicate NextQueued(s: State, st: Step)
    requires Enabled(s, st)
  {
    !st.WorkStart? && (s.queued || (Adds(s, st) && s.list == []))
  }

  function NextWorker(s: State, st: Step): Worker
    requires Enabled(s, st)
  {
    match st
    case WorkStart => Starting
    case WorkTake => Draining(None, s.list)
    case Pick => Draining(Some(s.worker.rest[0]), s.worker.rest[1..])
    case WorkDone => Idle
    case Free(i) => if s.worker.Draining? && s.worker.cur == Some(i) then Draining(None, s.worker.rest) else s.worker
    case _ => s.worker
  }

  /** The BUG_ONs of ext4_release_io_end and of the worker's loop. */
  predicate Bug(s: State, st: Step)
    requires Enabled(s, st)
  {
    || (st.Decide? && !Adds(s, st) && (s.ios[st.i].flag || st.i in Waiting(s)))
    || (st.Clear? && st.i in Waiting(s))
    || (st.Pick? && !s.ios[s.worker.rest[0]].flag)
  }

  function Apply(s: State, st: Step): State
    requires Enabled(s, st)
  {
    State(NextIos(s, st), NextBios(s, st), NextUnwritten(s, st), NextList(s, st), NextQueued(s, st), NextWorker(s, st),
          Bug(s, st))
  }

  // --------------------------------------------------------------- invariant

  function Holders(bios: seq<Bio>, i: nat): nat {
    if bios == [] then 0
    else Holders(bios[..|bios|-1], i) + if bios[|bios|-1].io == i && Holds(bios[|bios|-1].phase) then 1 else 0
  }

  function FlaggedCount(ios: seq<IoEnd>): nat {
    if ios == [] then 0 else FlaggedCount(ios[..|ios|-1]) + if ios[|ios|-1].flag then 1 else 0
  }

  /** The history of one io_end fits its phase. */
  predicate IoOk(io: IoEnd) {
    && (io.flag <==> io.everFlagged && !io.phase.Releasing? && !io.phase.Freed?)
    && io.conversions ==
         (if io.everFlagged && (io.phase.Converted? || io.phase.Releasing? || io.phase.Freed?) then 1 else 0)
    && io.releases == (if io.phase.Freed? then 1 else 0)
    && (io.phase.Queued? || io.phase.Picked? || io.phase.Converted? ==> io.everFlagged)
    && (io.chain != [] ==> io.everFlagged && !io.phase.Freed?)
    && (io.phase.Live? <==> io.count > 0)
  }

  ghost predicate Histories(s: State) {
    && (forall i :: 0 <= i < |s.ios| ==> IoOk(s.ios[i]))
    && (forall b :: 0 <= b < |s.bios| ==> s.bios[b].finishes == if s.bios[b].phase.Done? then 1 else 0)
  }

  /** The reference count is the number of holders. */
  ghost predicate Refs(s: State) {
    && (forall b :: 0 <= b < |s.bios| ==> s.bios[b].io < |s.ios|)
    && (forall i :: 0 <= i < |s.ios| ==> s.ios[i].count == s.ios[i].owners + Holders(s.bios, i))
  }

  ghost predicate SeenFlag(s: State) {
    forall b :: 0 <= b < |s.bios| && s.bios[b].phase.Seen? && s.bios[b].io < |s.ios| ==> s.ios[s.bios[b].io].everFlagged
  }

  ghost predicate Distinct(s: seq<nat>) {
    forall j, k :: 0 <= j < k < |s| ==> s[j] != s[k]
  }

  predicate OnChain(s: State, i: nat, b: nat) {
    b < |s.bios| && s.bios[b].io == i && Chained(s.bios[b].phase)
  }

  /** The chain of an io_end holds each of its linked bios once. */
  ghost predicate Chains(s: State) {
    && (forall i :: 0 <= i < |s.ios| ==> Distinct(s.ios[i].chain))
    && (forall i: nat, b: nat :: i < |s.ios| ==> (b in s.ios[i].chain <==> OnChain(s, i, b)))
  }

  /** The io_ends that wait for conversion. */
  function Waiting(s: State): seq<nat> {
    (if s.worker.Draining? then s.worker.rest else []) + s.list
  }

  predicate InWork(p: Phase) {
    p.Picked? || p.Converted? || p.Releasing?
  }

  ghost predicate Lists(s: State) {
    && Distinct(Waiting(s))
    && (forall i: nat :: i in Waiting(s) <==> i < |s.ios| && s.ios[i].phase.Queued?)
    && (forall i: nat :: i < |s.ios| && s.ios[i].phase.Picked? ==> s.worker.Draining? && s.worker.cur == Some(i))
    && (s.worker.Draining? && s.worker.cur.Some? ==>
        s.worker.cur.value < |s.ios| && InWork(s.ios[s.worker.cur.value].phase))
  }

  /** A conversion list with something on it has its work queued or a worker about to take it. */
  predicate Woken(s: State) {
    s.list != [] ==> s.queued || s.worker.Starting?
  }

  ghost predicate Inv(s: State) {
    Histories(s) && Refs(s) && SeenFlag(s) && Chains(s) && Lists(s) && Woken(s) && s.unwritten == FlaggedCount(s.ios)
  }

  // -------------------------------------------------------------- counting

  lemma {:induction false} HoldersUpdate(bios: seq<Bio>, b: nat, x: Bio, i: nat)
    requires b < |bios|
    ensures Holders(bios[b := x], i) + (if bios[b].io == i && Holds(bios[b].phase) then 1 else 0)
         == Holders(bios, i) + if x.io == i && Holds(x.phase) then 1 else 0
    decreases |bios|
  {
    var t, t' := bios[..|bios|-1], bios[b := x][..|bios|-1];
    if b == |bios| - 1 {
      assert t' == t;
    } else {
      assert t' == t[b := x];
      HoldersUpdate(t, b, x, i);
    }
  }

  lemma HoldersSnoc(bios: seq<Bio>, x: Bio, i: nat)
    ensures Holders(bios + [x], i) == Holders(bios, i) + if x.io == i && Holds(x.phase) then 1 else 0
  {
    assert (bios + [x])[..|bios|] == bios;
  }

  lemma {:induction false} HoldersZero(bios: seq<Bio>, i: nat)
    requires forall b :: 0 <= b < |bios| ==> bios[b].io != i
    ensures Holders(bios, i) == 0
  {
    if bios != [] { HoldersZero(bios[..|bios|-1], i); }
  }

  lemma {:induction false} HolderCounts(bios: seq<Bio>, b: nat)
    requires b < |bios| && Holds(bios[b].phase)
    ensures Holders(bios, bios[b].io) > 0
  {
    if b < |bios| - 1 { HolderCounts(bios[..|bios|-1], b); }
  }

  lemma {:induction false} FlaggedUpdate(ios: seq<IoEnd>, i: nat, x: IoEnd)
    requires i < |ios|
    ensures FlaggedCount(ios[i := x]) + (if ios[i].flag then 1 else 0) == FlaggedCount(ios) + if x.flag then 1 else 0
    decreases |ios|
  {
    var t, t' := ios[..|ios|-1], ios[i := x][..|ios|-1];
    if i == |ios| - 1 {
      assert t' == t;
    } else {
      assert t' == t[i := x];
      FlaggedUpdate(t, i, x);
    }
  }

  lemma FlaggedSnoc(ios: seq<IoEnd>, x: IoEnd)
    ensures FlaggedCount(ios + [x]) == FlaggedCount(ios) + if x.flag then 1 else 0
  {
    assert (ios + [x])[..|ios|] == ios;
  }

  // ------------------------------------------------------- steps keep the invariant

  /** A thread that holds a reference finds the io_end live. */
  lemma HolderLive(s: State, b: nat)
    requires Inv(s) && b < |s.bios| && Holds(s.bios[b].phase)
    ensures s.bios[b].io < |s.ios| && s.ios[s.bios[b].io].phase.Live? && s.ios[s.bios[b].io].count > 0
  {
    HolderCounts(s.bios, b);
    assert IoOk(s.ios[s.bios[b].io]);
  }

  /** What a step finds of its io_end. */
  lemma Found(s: State, st: Step)
    requires Inv(s) && Enabled(s, st) && IoOf(s, st).Some?
    ensures IoOk(s.ios[IoOf(s, st).value])
    ensures st.Look? || st.Link? || st.BioPut? ==> s.ios[IoOf(s, st).value].phase.Live?
    ensures st.Link? ==> s.ios[IoOf(s, st).value].everFlagged
    ensures st.Pick? ==> s.ios[IoOf(s, st).value].phase.Queued?
    ensures IoReady(s.ios[IoOf(s, st).value], st)
  {
    if st.Look? || st.Link? || st.BioPut? { HolderLive(s, st.b); }
    if st.Pick? {
      assert Waiting(s)[0] == s.worker.rest[0];
      assert s.worker.rest[0] in Waiting(s);
    }
  }

  /** The BUG_ONs: the only one that can be hit is the release of a flagged io_end of size 0. */
  lemma BugIff(s: State, st: Step)
    requires Inv(s) && Enabled(s, st)
    ensures Apply(s, st).bug <==> st.Decide? && s.ios[st.i].flag && s.ios[st.i].size == 0
  {
    if IoOf(s, st).Some? { Found(s, st); }
  }

  lemma NextIoOk(io: IoEnd, st: Step)
    requires IoOk(io) && IoReady(io, st)
    requires st.Link? || st.BioPut? || io.owners > 0 ==> io.phase.Live?
    requires st.Link? ==> io.everFlagged
    requires st.Pick? ==> io.phase.Queued?
    requires !(st.Decide? && io.flag && io.size == 0)
    ensures IoOk(NextIo(io, st))
  {
  }

  lemma StepHistories(s: State, st: Step)
    requires Inv(s) && Enabled(s, st) && !Apply(s, st).bug
    ensures Histories(Apply(s, st))
  {
    if IoOf(s, st).Some? {
      Found(s, st);
      NextIoOk(s.ios[IoOf(s, st).value], st);
    }
    NextFinishes(s, st);
  }

  lemma NextFinishes(s: State, st: Step)
    requires Inv(s) && Enabled(s, st)
    ensures forall b :: 0 <= b < |NextBios(s, st)| ==>
              NextBios(s, st)[b].finishes == if NextBios(s, st)[b].phase.Done? then 1 else 0
  {
    if st.FinishHead? { HeadParked(s, st.i); }
  }

  /** A released io_end has only parked bios on its chain. */
  lemma HeadParked(s: State, i: nat)
    requires Inv(s) && i < |s.ios| && s.ios[i].chain != [] && !s.ios[i].phase.Live?
    ensures var b := s.ios[i].chain[0]; b < |s.bios| && s.bios[b].io == i && s.bios[b].phase.Parked?
  {
    var b := s.ios[i].chain[0];
    assert b in s.ios[i].chain && OnChain(s, i, b);
    if s.bios[b].phase.Linked? { HolderLive(s, b); }
  }

  /** Only dropping the reference of a bio ends its holding. */
  lemma NextHolds(x: Bio, flag: bool, st: Step)
    requires BioReady(x.phase, st) && (st.FinishHead? ==> x.phase.Parked?)
    requires st.Look? || st.Link? || st.BioPut? || st.FinishLoose? || st.FinishHead?
    ensures NextBio(x, flag, st).io == x.io
    ensures Holds(NextBio(x, flag, st).phase) <==> Holds(x.phase) && !st.BioPut?
    ensures st.BioPut? ==> Holds(x.phase)
    ensures Chained(NextBio(x, flag, st).phase) <==> st.Link? || (Chained(x.phase) && !st.FinishHead?)
  {
  }

  lemma NextHolders(s: State, st: Step, i: nat)
    requires Inv(s) && Enabled(s, st)
    ensures Holders(NextBios(s, st), i) == Holders(s.bios, i)
            + (if st.Submit? && st.i == i then 1 else 0) - if st.BioPut? && s.bios[st.b].io == i then 1 else 0
  {
    if st.Submit? { HoldersSnoc(s.bios, Bio(st.i, InFlight, 0), i); }
    if st.FinishHead? { HeadParked(s, st.i); }
    if BioOf(s, st).Some? {
      var b := BioOf(s, st).value;
      NextHolds(s.bios[b], s.ios[s.bios[b].io].flag, st);
      HoldersUpdate(s.bios, b, NextBio(s.bios[b], s.ios[s.bios[b].io].flag, st), i);
    }
  }

  lemma NextCount(io: IoEnd, st: Step)
    requires IoReady(io, st) && (st.BioPut? || st.Put? ==> io.count > 0)
    ensures NextIo(io, st).count - NextIo(io, st).owners == io.count - io.owners +
              (if st.Submit? then 1 else 0) - if st.BioPut? then 1 else 0
  {
  }

  lemma NextRefs(s: State, st: Step, i: nat)
    requires Inv(s) && Enabled(s, st) && i < |NextIos(s, st)|
    ensures NextIos(s, st)[i].count == NextIos(s, st)[i].owners + Holders(NextBios(s, st), i)
  {
    NextHolders(s, st, i);
    if i == |s.ios| {
      HoldersZero(s.bios, i);
    } else if IoOf(s, st) == Some(i) {
      Found(s, st);
      NextCount(s.ios[i], st);
    }
  }

  lemma StepRefs(s: State, st: Step)
    requires Inv(s) && Enabled(s, st)
    ensures Refs(Apply(s, st))
  {
    forall i | 0 <= i < |NextIos(s, st)| ensures NextIos(s, st)[i].count ==
        NextIos(s, st)[i].owners + Holders(NextBios(s, st), i) {
      NextRefs(s, st, i);
    }
  }

  lemma StepUnwritten(s: State, st: Step)
    requires Inv(s) && Enabled(s, st)
    ensures NextUnwritten(s, st) == FlaggedCount(NextIos(s, st))
  {
    if st.Init? {
      FlaggedSnoc(s.ios, NEW_IO);
    } else if IoOf(s, st).Some? {
      var i := IoOf(s, st).value;
      var io := NextIo(s.ios[i], st);
      assert NextIos(s, st) == s.ios[i := io];
      assert io.flag <==> st.SetFlag? || (s.ios[i].flag && !st.Clear?) by { NextFlag(s.ios[i], st); }
      FlaggedUpdate(s.ios, i, io);
      assert s.unwritten == FlaggedCount(s.ios);
    }
  }

  lemma NextFlag(io: IoEnd, st: Step)
    requires IoReady(io, st)
    ensures NextIo(io, st).flag <==> st.SetFlag? || (io.flag && !st.Clear?)
    ensures NextIo(io, st).chain == if st.Link? then [st.b] + io.chain else if st.FinishHead? then io.chain[1..]
              else io.chain
  {
  }

  lemma EverFlaggedKept(s: State, st: Step, i: nat)
    requires Enabled(s, st) && i < |s.ios| && s.ios[i].everFlagged
    ensures NextIos(s, st)[i].everFlagged
  {
  }

  lemma StepSeenFlag(s: State, st: Step)
    requires Inv(s) && Enabled(s, st)
    ensures SeenFlag(Apply(s, st))
  {
    var bios := NextBios(s, st);
    forall b | 0 <= b < |bios| && bios[b].phase.Seen? ensures bios[b].io < |s.ios| &&
        NextIos(s, st)[bios[b].io].everFlagged {
      assert b < |s.bios|;
      var i := s.bios[b].io;
      assert i < |s.ios| && IoOk(s.ios[i]);
      EverFlaggedKept(s, st, i);
    }
  }

  lemma NextOnChain(s: State, st: Step, i: nat, b: nat)
    requires Inv(s) && Enabled(s, st)
    ensures OnChain(Apply(s, st), i, b) <==>
            || (st.Link? && st.b == b && s.bios[b].io == i)
            || (OnChain(s, i, b) && !(st.FinishHead? && s.ios[st.i].chain[0] == b))
  {
    if st.FinishHead? { HeadParked(s, st.i); }
    BioOnChain(s, st, i, b);
  }

  lemma BioOnChain(s: State, st: Step, i: nat, b: nat)
    requires Enabled(s, st) && (st.FinishHead? ==> s.bios[s.ios[st.i].chain[0]].phase.Parked?)
    ensures OnChain(Apply(s, st), i, b) <==>
            || (st.Link? && st.b == b && s.bios[b].io == i)
            || (OnChain(s, i, b) && !(st.FinishHead? && s.ios[st.i].chain[0] == b))
  {
    if BioOf(s, st) == Some(b) { NextHolds(s.bios[b], s.ios[s.bios[b].io].flag, st); }
  }

  lemma NextChained(s: State, st: Step, i: nat, b: nat)
    requires Inv(s) && Enabled(s, st) && i < |NextIos(s, st)|
    ensures b in NextIos(s, st)[i].chain <==> OnChain(Apply(s, st), i, b)
  {
    NextOnChain(s, st, i, b);
    if i < |s.ios| { assert b in s.ios[i].chain <==> OnChain(s, i, b); }
    if IoOf(s, st) == Some(i) { NextFlag(s.ios[i], st); }
    if st.FinishHead? {
      HeadParked(s, st.i);
      if i == st.i { TailHas(s.ios[i].chain, b); }
    }
    if i == |s.ios| { assert b < |s.bios| ==> s.bios[b].io < |s.ios|; }
  }

  lemma TailHas(c: seq<nat>, b: nat)
    requires c != [] && Distinct(c)
    ensures b in c[1..] <==> b in c && b != c[0]
  {
    if b in c[1..] {
      var j :| 0 <= j < |c[1..]| && c[1..][j] == b;
      assert c[j + 1] == b;
    }
  }

  lemma StepChains(s: State, st: Step)
    requires Inv(s) && Enabled(s, st)
    ensures Chains(Apply(s, st))
  {
    var s' := Apply(s, st);
    forall i: nat, b: nat | i < |s'.ios|
      ensures b in s'.ios[i].chain <==> OnChain(s', i, b)
    {
      NextChained(s, st, i, b);
    }
    forall i | 0 <= i < |s'.ios| ensures Distinct(s'.ios[i].chain) {
      if st.Link? && IoOf(s, st) == Some(i) { assert !OnChain(s, i, st.b); }
    }
  }

  lemma {:induction false} Appended(w: seq<nat>, x: nat)
    requires Distinct(w) && x !in w
    ensures Distinct(w + [x]) && forall i: nat :: i in w + [x] <==> i in w || i == x
  {
  }

  lemma WaitingNext(s: State, st: Step)
    requires Enabled(s, st)
    ensures Waiting(Apply(s, st)) ==
            if Adds(s, st) then Waiting(s) + [st.i] else if st.Pick? then Waiting(s)[1..] else Waiting(s)
  {
    var rest := if s.worker.Draining? then s.worker.rest else [];
    if Adds(s, st) {
      assert rest + (s.list + [st.i]) == (rest + s.list) + [st.i];
    } else if st.Pick? {
      assert rest[1..] + s.list == (rest + s.list)[1..];
    } else if st.WorkTake? {
      assert s.list + [] == [] + s.list;
    } else {
      assert NextList(s, st) == s.list;
    }
  }

  lemma NextQueuedPhase(io: IoEnd, st: Step)
    requires IoOk(io) && IoReady(io, st) && (st.Pick? ==> io.phase.Queued?) &&
               (st.BioPut? || st.Put? ==> io.phase.Live?)
    ensures NextIo(io, st).phase.Queued? <==> (st.Decide? && io.flag && io.size != 0) || (io.phase.Queued? && !st.Pick?)
    ensures NextIo(io, st).phase.Picked? <==> st.Pick? || (io.phase.Picked? && !st.Convert?)
    ensures InWork(io.phase) ==> st.Free? || InWork(NextIo(io, st).phase)
  {
  }

  lemma WaitingDistinct(s: State, st: Step)
    requires Inv(s) && Enabled(s, st)
    ensures Distinct(Waiting(Apply(s, st)))
    ensures forall i: nat :: i in Waiting(Apply(s, st)) <==>
              (Adds(s, st) && i == st.i) || (i in Waiting(s) && !(st.Pick? && i == Waiting(s)[0]))
  {
    WaitingNext(s, st);
    if Adds(s, st) {
      assert st.i !in Waiting(s);
      Appended(Waiting(s), st.i);
    } else if st.Pick? {
      forall i: nat ensures i in Waiting(s)[1..] <==> i in Waiting(s) && i != Waiting(s)[0] { TailHas(Waiting(s), i); }
    }
  }

  lemma StepWaiting(s: State, st: Step)
    requires Inv(s) && Enabled(s, st)
    ensures Distinct(Waiting(Apply(s, st)))
    ensures forall i: nat :: i in Waiting(Apply(s, st)) <==> i < |NextIos(s, st)| && NextIos(s, st)[i].phase.Queued?
  {
    WaitingDistinct(s, st);
    forall i: nat ensures i in Waiting(Apply(s, st)) <==> i < |NextIos(s, st)| && NextIos(s, st)[i].phase.Queued? {
      NextWaits(s, st, i);
    }
  }

  lemma NextWaits(s: State, st: Step, i: nat)
    requires Inv(s) && Enabled(s, st)
    ensures i < |NextIos(s, st)| && NextIos(s, st)[i].phase.Queued? <==>
            (Adds(s, st) && i == st.i) || (i in Waiting(s) && !(st.Pick? && i == Waiting(s)[0]))
  {
    assert i in Waiting(s) <==> i < |s.ios| && s.ios[i].phase.Queued?;
    if IoOf(s, st) == Some(i) {
      Found(s, st);
      NextQueuedPhase(s.ios[i], st);
    }
  }

  lemma StepWorker(s: State, st: Step)
    requires Inv(s) && Enabled(s, st)
    ensures var s' := Apply(s, st);
            && (forall i: nat :: i < |s'.ios| && s'.ios[i].phase.Picked? ==>
                    s'.worker.Draining? && s'.worker.cur == Some(i))
            && (s'.worker.Draining? && s'.worker.cur.Some? ==>
                s'.worker.cur.value < |s'.ios| && InWork(s'.ios[s'.worker.cur.value].phase))
  {
    var s' := Apply(s, st);
    if IoOf(s, st).Some? {
      Found(s, st);
      NextQueuedPhase(s.ios[IoOf(s, st).value], st);
    }
  }

  /** Every step keeps the invariant unless it hits the BUG_ON. */
  lemma StepInv(s: State, st: Step)
    requires Inv(s) && Enabled(s, st) && !Apply(s, st).bug
    ensures Inv(Apply(s, st))
  {
    StepHistories(s, st);
    StepRefs(s, st);
    StepSeenFlag(s, st);
    StepChains(s, st);
    StepWaiting(s, st);
    StepWorker(s, st);
    StepUnwritten(s, st);
  }
}
