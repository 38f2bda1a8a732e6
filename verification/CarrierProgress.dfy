/**
 What the carrier's runs amount to: the memory bound, when permits come back,
 what a closed writer has delivered, and that the queue never wedges.
 */
module CarrierProgress {
  import opened Wrappers
  import opened CarrierQueue

  // ── Memory ─────────────────────────────────────────────────────────────────

  /** Payload bytes of a list of frames. */
  function Bytes(qs: seq<Queued>): nat {
    if qs == [] then 0
    else (if qs[0].frame.Binary? then |qs[0].frame.payload| else 0) + Bytes(qs[1..])
  }

  /** The frames past the permit stage: waiting for a slot, queued, or in the writer's hands. */
  function Resident(s: State): seq<Queued> {
    s.holders + s.queue + InFlight(s.writer)
  }

  predicate Oversized(q: Queued) {
    q.frame.Binary? && |q.frame.payload| > CARRIER_QUEUE_BYTES
  }

  lemma {:induction false} BytesAppend(a: seq<Queued>, b: seq<Queued>)
    ensures Bytes(a + b) == Bytes(a) + Bytes(b)
  {
    if a == [] {
      assert a + b == b;
    } else {
      assert (a + b)[1..] == a[1..] + b;
      BytesAppend(a[1..], b);
    }
  }

  lemma {:induction false} BytesWithinPermits(qs: seq<Queued>)
    requires FullyCharged(qs) && forall i :: 0 <= i < |qs| ==> !Oversized(qs[i])
    ensures Bytes(qs) <= Total(qs)
  {
    if qs != [] {
      assert !Oversized(qs[0]);
      BytesWithinPermits(qs[1..]);
    }
  }

  lemma {:induction false} NoPermitsNoBytes(qs: seq<Queued>)
    requires FullyCharged(qs) && Total(qs) == 0
    ensures Bytes(qs) == 0
  {
    if qs != [] { NoPermitsNoBytes(qs[1..]); }
  }

  lemma BytesWithout(qs: seq<Queued>, i: nat)
    requires i < |qs|
    ensures Bytes(qs) == Bytes(Without(qs, i)) + Bytes([qs[i]])
  {
    hide Bytes;
    assert qs == qs[..i] + ([qs[i]] + qs[i + 1..]);
    BytesAppend(qs[..i], [qs[i]] + qs[i + 1..]);
    BytesAppend([qs[i]], qs[i + 1..]);
    BytesAppend(qs[..i], qs[i + 1..]);
  }

  /** Resident bytes stay within the budget, or are those of one single oversized frame. */
  lemma ResidentBytesBounded(s: State)
    requires Reachable(s)
    ensures Bytes(Resident(s)) <= CARRIER_QUEUE_BYTES
            || exists i :: 0 <= i < |Resident(s)| && Oversized(Resident(s)[i])
                 && Bytes(Resident(s)) == |Resident(s)[i].frame.payload|
  {
    ReachableInv(s);
    var qs := Resident(s);
    ResidentWithinBudget(s);
    if i :| 0 <= i < |qs| && Oversized(qs[i]) {
      TotalWithout(qs, i);
      NoPermitsNoBytes(Without(qs, i));
      BytesWithout(qs, i);
      assert [qs[i]][1..] == [];
    } else {
      BytesWithinPermits(qs);
    }
  }

  lemma ResidentWithinBudget(s: State)
    requires Conserved(s) && Charged(s)
    ensures FullyCharged(Resident(s)) && Total(Resident(s)) <= CARRIER_QUEUE_BYTES
  {
    hide Total;
    TotalAppend(s.holders + s.queue, InFlight(s.writer));
    TotalAppend(s.holders, s.queue);
  }

  /** While the writer runs, the consumer gives permits back only for the frame it wrote last. */
  lemma ReleaseOnlyAfterWrite(s: State, step: Step)
    requires Reachable(s) && Enabled(s, step)
    requires Do(s, step).free > s.free && Running(Do(s, step))
    ensures step.CancelWaiter? || step.CancelHolder?
            || (step == Release && s.writer.Written? && |DataOf(s.wire)| > 0
                && DataOf(s.wire)[|DataOf(s.wire)| - 1] == s.writer.q.frame
                && Do(s, step).free == s.free + Charge(s.writer.q.frame))
  {
    hide Inv, DataOf, Charge;
    ReachableInv(s);
    FreesOnlyThese(s, step);
    if step == Release { WrittenInFull(s); }
  }

  lemma FreesOnlyThese(s: State, step: Step)
    requires Enabled(s, step) && Do(s, step).free > s.free && Running(Do(s, step))
    ensures step.CancelWaiter? || step.CancelHolder? || step == Release
  {
    hide Total, DataOf, PermitsFor;
  }

  lemma WrittenInFull(s: State)
    requires Inv(s) && s.writer.Written?
    ensures s.writer.q.permits == Charge(s.writer.q.frame)
    ensures |DataOf(s.wire)| > 0 && DataOf(s.wire)[|DataOf(s.wire)| - 1] == s.writer.q.frame
  {
    hide Total, DataOf, PermitsFor, Conserved, Ordered, CloseIsLast;
    assert InFlight(s.writer)[0] == s.writer.q;
  }

  // ── What a closed writer has delivered ─────────────────────────────────────

  /**
   In every run: the data on the wire is a prefix of what was enqueued; a Close
   ends the wire; it was written after every frame queued ahead of it, which is
   every frame when the writer ended because the senders were dropped.
   */
  lemma WireIsFaithful(s: State)
    requires Reachable(s)
    ensures DataOf(s.wire) <= s.sent
    ensures forall i :: 0 <= i < |s.wire| && s.wire[i].CloseFrame? ==>
              && i == |s.wire| - 1 && s.writer.Exited?
              && (DataOf(s.wire) == s.sent || DataOf(s.wire) + [Close] <= s.sent)
    ensures s.writer == Exited(QueueEnded) ==> DataOf(s.wire) == s.sent
  {
    hide DataOf, Conserved, Charged;
    ReachableInv(s);
    if Running(s) { assert DataOf(s.wire) <= DataOf(s.wire) + Pending(s); }
    if s.writer == Exited(CloseTaken) { assert DataOf(s.wire) <= DataOf(s.wire) + [Close]; }
  }

  // ── Frames in the carrier ──────────────────────────────────────────────────

  /** Everything enqueued, then everything being sent in the order the permits were asked for. */
  function Pipeline(s: State): seq<Frame> {
    s.sent + Frames(s.holders) + Frames(s.waiters)
  }

  lemma FramesSplit(qs: seq<Queued>)
    requires qs != []
    ensures Frames(qs) == [qs[0].frame] + Frames(qs[1..])
  {
  }

  lemma FramesSnoc(qs: seq<Queued>, q: Queued)
    ensures Frames(qs + [q]) == Frames(qs) + [q.frame]
  {
  }

  lemma FramesWithout(qs: seq<Queued>, i: nat)
    requires i < |qs|
    ensures Frames(qs) == Frames(qs)[..i] + [qs[i].frame] + Frames(qs)[i + 1..]
    ensures Frames(Without(qs, i)) == Frames(qs)[..i] + Frames(qs)[i + 1..]
  {
    assert Frames(qs) == Frames(qs)[..i] + [qs[i].frame] + Frames(qs)[i + 1..];
  }

  /** Frames without their order. */
  function Bag(qs: seq<Queued>): multiset<Frame> { multiset(Frames(qs)) }

  lemma BagSnoc(qs: seq<Queued>, q: Queued)
    ensures Bag(qs + [q]) == Bag(qs) + multiset{q.frame}
  {
    FramesSnoc(qs, q);
  }

  lemma BagWithout(qs: seq<Queued>, i: nat)
    requires i < |qs|
    ensures Bag(qs) == Bag(Without(qs, i)) + multiset{qs[i].frame}
  {
    hide Frames;
    FramesWithout(qs, i);
    FramesAt(qs);
    var fs := Frames(qs);
    assert multiset(fs[..i] + [qs[i].frame] + fs[i + 1..]) == multiset(fs[..i] + fs[i + 1..]) + multiset{qs[i].frame};
  }

  lemma BagHead(qs: seq<Queued>)
    requires qs != []
    ensures Bag(qs) == multiset{qs[0].frame} + Bag(qs[1..])
  {
    hide Frames;
    FramesSplit(qs);
  }

  function Everything(s: State): multiset<Frame> {
    multiset(s.sent) + Bag(s.holders) + Bag(s.waiters)
  }

  lemma PipelineBag(s: State)
    ensures multiset(Pipeline(s)) == Everything(s)
  {
    hide Frames;
    var a, b, c := s.sent, Frames(s.holders), Frames(s.waiters);
    assert multiset(a + b) == multiset(a) + multiset(b);
    assert multiset((a + b) + c) == multiset(a + b) + multiset(c);
  }

  lemma SentSnoc(sent: seq<Frame>, f: Frame)
    ensures multiset(sent + [f]) == multiset(sent) + multiset{f} && sent <= sent + [f]
  {
  }

  lemma GrantKeepsFrames(s: State, k: nat)
    requires Enabled(s, Grant(k))
    ensures Frames(Do(s, Grant(k)).waiters) == Frames(s.waiters)
  {
  }

  lemma AcquiredKeepsPipeline(s: State)
    requires Enabled(s, Acquired)
    ensures Pipeline(Do(s, Acquired)) == Pipeline(s)
  {
    hide PermitsFor, Frames;
    FramesSplit(s.waiters);
    FramesSnoc(s.holders, s.waiters[0]);
    assert s.sent + Frames(s.holders) + ([s.waiters[0].frame] + Frames(s.waiters[1..]))
        == s.sent + (Frames(s.holders) + [s.waiters[0].frame]) + Frames(s.waiters[1..]);
  }

  lemma FrontKeepsPipeline(s: State)
    requires Enabled(s, Enqueue(0))
    ensures Pipeline(Do(s, Enqueue(0))) == Pipeline(s)
  {
    hide PermitsFor, Frames;
    FramesSplit(s.holders);
    assert Without(s.holders, 0) == s.holders[1..];
    assert (s.sent + [s.holders[0].frame]) + Frames(s.holders[1..]) == s.sent + Frames(s.holders);
  }

  /** The frame a step brings into the carrier. */
  function Adds(step: Step): multiset<Frame> {
    if step.Send? then multiset{Binary(step.payload)} else if step.SendControl? then multiset{Close} else multiset{}
  }

  /** The frame a step takes out again: its producer gave up, or found the writer gone. */
  function Drops(s: State, step: Step): multiset<Frame>
    requires Enabled(s, step)
  {
    if step.CancelWaiter? then multiset{s.waiters[step.i].frame}
    else if step.CancelHolder? || step.Reject? then multiset{s.holders[step.i].frame}
    else multiset{}
  }

  /** A sum of bags with a frame more, a frame less, and a frame moved along. */
  lemma BagSums(a: multiset<Frame>, b: multiset<Frame>, c: multiset<Frame>, f: Frame)
    ensures a + b + (c + multiset{f}) + multiset{} == a + b + c + multiset{f}
    ensures a + (b + multiset{f}) + c + multiset{} == a + b + c + multiset{f}
    ensures a + b + c + multiset{f} == a + b + (c + multiset{f}) + multiset{}
    ensures a + b + c + multiset{f} == a + (b + multiset{f}) + c + multiset{}
    ensures a + (b + multiset{f}) + c == a + b + (multiset{f} + c)
    ensures a + b + c + multiset{} == a + b + c
  {
  }

  lemma SendAccounts(s: State, step: Step)
    requires Enabled(s, step) && (step.Send? || step.SendControl?)
    ensures Everything(Do(s, step)) + Drops(s, step) == Everything(s) + Adds(step) && Do(s, step).sent == s.sent
  {
    hide Bag;
    var f := if step.Send? then Binary(step.payload) else Close;
    BagSums(multiset(s.sent), Bag(s.holders), Bag(s.waiters), f);
    BagSnoc(s.waiters, Queued(f, 0));
    BagSnoc(s.holders, Queued(f, 0));
  }

  lemma CancelAccounts(s: State, step: Step)
    requires Enabled(s, step) && (step.CancelWaiter? || step.CancelHolder? || step.Reject?)
    ensures Everything(Do(s, step)) + Drops(s, step) == Everything(s) + Adds(step) && Do(s, step).sent == s.sent
  {
    hide Bag, PermitsFor;
    var a, b, c := multiset(s.sent), Bag(s.holders), Bag(s.waiters);
    if step.CancelWaiter? {
      BagWithout(s.waiters, step.i);
      BagSums(a, b, Bag(Without(s.waiters, step.i)), s.waiters[step.i].frame);
    } else {
      BagWithout(s.holders, step.i);
      BagSums(a, Bag(Without(s.holders, step.i)), c, s.holders[step.i].frame);
    }
  }

  lemma AcquireAccounts(s: State, step: Step)
    requires Enabled(s, step) && (step.Grant? || step.Acquired?)
    ensures Everything(Do(s, step)) + Drops(s, step) == Everything(s) + Adds(step) && Do(s, step).sent == s.sent
  {
    hide Bag, PermitsFor;
    var a, b, f := multiset(s.sent), Bag(s.holders), s.waiters[0].frame;
    if step.Grant? {
      GrantKeepsBag(s, step.k);
    } else {
      BagHead(s.waiters);
      BagSnoc(s.holders, s.waiters[0]);
      BagSums(a, b, Bag(s.waiters[1..]), f);
    }
  }

  lemma GrantKeepsBag(s: State, k: nat)
    requires Enabled(s, Grant(k))
    ensures Bag(Do(s, Grant(k)).waiters) == Bag(s.waiters)
  {
    hide Frames;
    GrantKeepsFrames(s, k);
  }

  lemma EnqueueAccounts(s: State, i: nat)
    requires Enabled(s, Enqueue(i))
    ensures Everything(Do(s, Enqueue(i))) == Everything(s) && s.sent <= Do(s, Enqueue(i)).sent
  {
    hide Bag;
    BagWithout(s.holders, i);
    SentSnoc(s.sent, s.holders[i].frame);
  }

  lemma WriterAccounts(s: State, step: Step)
    requires Enabled(s, step)
    requires !(step.Send? || step.SendControl? || step.Grant? || step.Acquired? || step.CancelWaiter? || step.CancelHolder? || step.Reject?)
    requires !step.Enqueue?
    ensures var t := Do(s, step); t.waiters == s.waiters && t.holders == s.holders && t.sent == s.sent
    ensures Drops(s, step) == multiset{} == Adds(step)
  {
    hide PermitsFor, Total;
  }

  /** Every step accounts for every frame, and what is enqueued stays enqueued, in order. */
  lemma StepAccounts(s: State, step: Step)
    requires Enabled(s, step)
    ensures var t := Do(s, step);
            && multiset(Pipeline(t)) + Drops(s, step) == multiset(Pipeline(s)) + Adds(step)
            && s.sent <= t.sent
  {
    hide Enabled, Do, Bag, Pipeline, Drops, Adds;
    PipelineBag(s);
    PipelineBag(Do(s, step));
    if step.Send? || step.SendControl? {
      SendAccounts(s, step);
    } else if step.CancelWaiter? || step.CancelHolder? || step.Reject? {
      CancelAccounts(s, step);
    } else if step.Grant? || step.Acquired? {
      AcquireAccounts(s, step);
    } else if step.Enqueue? {
      EnqueueAccounts(s, step.i);
      NoneDropped(s, step.i);
    } else {
      WriterAccounts(s, step);
    }
  }

  lemma NoneDropped(s: State, i: nat)
    requires Enabled(s, Enqueue(i))
    ensures Drops(s, Enqueue(i)) == multiset{} == Adds(Enqueue(i))
  {
  }

  function Asked(steps: seq<Step>): multiset<Frame> {
    if steps == [] then multiset{} else Adds(steps[0]) + Asked(steps[1..])
  }

  function GivenUp(s: State, steps: seq<Step>): multiset<Frame>
    requires Run(s, steps).Some?
    decreases |steps|
  {
    if steps == [] then multiset{} else Drops(s, steps[0]) + GivenUp(Do(s, steps[0]), steps[1..])
  }

  lemma Balance(end: multiset<Frame>, gone: multiset<Frame>, mid: multiset<Frame>, asked: multiset<Frame>,
                drop: multiset<Frame>, start: multiset<Frame>, add: multiset<Frame>)
    requires end + gone == mid + asked && mid + drop == start + add
    ensures end + (drop + gone) == start + (add + asked)
  {
    forall f: Frame
      ensures (end + (drop + gone))[f] == (start + (add + asked))[f]
    {
      assert (end + gone)[f] == (mid + asked)[f] && (mid + drop)[f] == (start + add)[f];
    }
  }

  /** Over every run, failures included, no frame appears or vanishes but those asked for and those given up. */
  lemma {:induction false} RunAccounts(s: State, steps: seq<Step>)
    requires Run(s, steps).Some?
    ensures var end := Run(s, steps).value;
            && multiset(Pipeline(end)) + GivenUp(s, steps) == multiset(Pipeline(s)) + Asked(steps)
            && s.sent <= end.sent
    decreases |steps|
  {
    hide Enabled, Do, Pipeline, Adds, Drops;
    if steps != [] {
      var t := Do(s, steps[0]);
      StepAccounts(s, steps[0]);
      RunAccounts(t, steps[1..]);
      Balance(multiset(Pipeline(Run(t, steps[1..]).value)), GivenUp(t, steps[1..]), multiset(Pipeline(t)), Asked(steps[1..]),
              Drops(s, steps[0]), multiset(Pipeline(s)), Adds(steps[0]));
    }
  }

  // ── Overtaking ─────────────────────────────────────────────────────────────

  lemma {:induction false} Neighbours(fs: seq<Frame>, i: nat, j: nat)
    requires j <= i < |fs| && forall k :: 1 <= k <= i ==> fs[k] == fs[k - 1]
    ensures fs[j] == fs[i]
    decreases i - j
  {
    if j < i {
      Neighbours(fs, i, j + 1);
      assert fs[j + 1] == fs[j];
    }
  }

  /** Moving one element to the front changes a list exactly when it passes a different one. */
  lemma MovedToFront(fs: seq<Frame>, i: nat)
    requires i < |fs|
    ensures [fs[i]] + fs[..i] + fs[i + 1..] == fs <==> forall j :: 0 <= j < i ==> fs[j] == fs[i]
  {
    var moved := [fs[i]] + fs[..i] + fs[i + 1..];
    if moved == fs {
      forall k | 1 <= k <= i ensures fs[k] == fs[k - 1] { assert moved[k] == fs[k - 1]; }
      forall j | 0 <= j < i ensures fs[j] == fs[i] { Neighbours(fs, i, j); }
    }
  }

  lemma SameBetween(a: seq<Frame>, x: seq<Frame>, y: seq<Frame>, b: seq<Frame>)
    ensures a + x + b == a + y + b <==> x == y
  {
    var p, q := a + x + b, a + y + b;
    if p == q {
      assert x == p[|a|..|a| + |x|] && y == q[|a|..|a| + |y|];
    }
  }

  /**
   Among producers that have their permits, any one may take the next slot. The
   order in which permits were asked for survives exactly when it passes no
   different frame.
   */
  lemma OvertakingReordersIff(s: State, i: nat)
    requires Enabled(s, Enqueue(i))
    ensures Pipeline(Do(s, Enqueue(i))) == Pipeline(s) <==> forall j :: 0 <= j < i ==> s.holders[j].frame == s.holders[i].frame
  {
    hide PermitsFor, Frames;
    FramesWithout(s.holders, i);
    FramesSame(s.holders, i);
    var fs := Frames(s.holders);
    var moved := [fs[i]] + fs[..i] + fs[i + 1..];
    MovedToFront(fs, i);
    SameBetween(s.sent, moved, fs, Frames(s.waiters));
    Regroup(s.sent, [fs[i]], fs[..i], fs[i + 1..]);
  }

  lemma Regroup(a: seq<Frame>, b: seq<Frame>, c: seq<Frame>, d: seq<Frame>)
    ensures (a + b) + (c + d) == a + (b + c + d)
  {
  }

  lemma FramesSame(qs: seq<Queued>, i: nat)
    requires i < |qs|
    ensures |Frames(qs)| == |qs| && Frames(qs)[i] == qs[i].frame
    ensures (forall j :: 0 <= j < i ==> qs[j].frame == qs[i].frame) <==> forall j :: 0 <= j < i ==> Frames(qs)[j] == Frames(qs)[i]
  {
    if forall j :: 0 <= j < i ==> Frames(qs)[j] == Frames(qs)[i] {
      forall j | 0 <= j < i ensures qs[j].frame == qs[i].frame { assert Frames(qs)[j] == qs[j].frame; }
    }
  }

  lemma FramesAt(qs: seq<Queued>)
    ensures |Frames(qs)| == |qs| && forall i :: 0 <= i < |qs| ==> Frames(qs)[i] == qs[i].frame
  {
  }

  lemma {:induction false} RunSnoc(s: State, steps: seq<Step>, step: Step)
    requires Run(s, steps).Some? && Enabled(Run(s, steps).value, step)
    ensures Run(s, steps + [step]) == Some(Do(Run(s, steps).value, step))
    decreases |steps|
  {
    hide Enabled, Do;
    if steps == [] {
      assert [] + [step] == [step];
      assert [step][1..] == [];
    } else {
      assert (steps + [step])[0] == steps[0] && (steps + [step])[1..] == steps[1..] + [step];
      RunSnoc(Do(s, steps[0]), steps[1..], step);
    }
  }

  lemma ReachableStep(s: State, step: Step)
    requires Reachable(s) && Enabled(s, step)
    ensures Reachable(Do(s, step))
  {
    hide Enabled, Do;
    var steps: seq<Step> :| Run(Init, steps) == Some(s);
    RunSnoc(Init, steps, step);
  }

  /** Two producers hold their permits, in the order they asked. */
  lemma TwoHolders() returns (s: State)
    ensures Reachable(s) && s.sent == [] && s.queue == [] && Running(s)
    ensures s.holders == [Queued(Binary([1]), 1), Queued(Binary([2]), 1)]
  {
    hide Run, Reachable;
    s := Init;
    StartReachable();
    var a, b := Queued(Binary([1]), 1), Queued(Binary([2]), 1);
    ReachableStep(s, Send([1]));
    s := Do(s, Send([1]));
    ReachableStep(s, Send([2]));
    s := Do(s, Send([2]));
    assert s.waiters == [a.(permits := 0), b.(permits := 0)];
    ReachableStep(s, Grant(1));
    s := Do(s, Grant(1));
    ReachableStep(s, Acquired);
    s := Do(s, Acquired);
    assert s.waiters == [b.(permits := 0)] && s.holders == [a];
    ReachableStep(s, Grant(1));
    s := Do(s, Grant(1));
    ReachableStep(s, Acquired);
    s := Do(s, Acquired);
  }

  /** Of two producers the one that asked later may enqueue first. */
  lemma OvertakingHappens() returns (s: State)
    ensures Reachable(s) && s.sent == [Binary([2]), Binary([1])]
  {
    hide Run, Reachable;
    s := TwoHolders();
    ReachableStep(s, Enqueue(1));
    s := Do(s, Enqueue(1));
    assert s.holders == [Queued(Binary([1]), 1)];
    ReachableStep(s, Enqueue(0));
    s := Do(s, Enqueue(0));
  }

  lemma StartReachable()
    ensures Reachable(Init)
  {
    assert Run(Init, []) == Some(Init);
  }

  // ── Progress ───────────────────────────────────────────────────────────────

  function Demand(ws: seq<Queued>): nat {
    if ws == [] then 0
    else 5 + (if ws[0].permits < Charge(ws[0].frame) then Charge(ws[0].frame) - ws[0].permits else 0) + Demand(ws[1..])
  }

  /** Steps left before everything in the carrier is on the wire. */
  function Work(s: State): nat {
    Demand(s.waiters) + 4 * |s.holders| + 3 * |s.queue| + |s.ctrl| + (if s.ctrlOpen then 1 else 0)
    + (if s.writer.Writing? then 2 else if s.writer.Written? then 1 else 0)
  }

  /** The carrier's own steps, writes succeeding, that keep it running. */
  predicate MovesOn(step: Step) {
    || step.Grant? || step.Acquired? || step.Enqueue? || step.CtrlEnds? || step.Take? || step.Release?
    || ((step.WriteCtrl? || step.Write?) && step.ok)
  }

  /** Its own steps that end it cleanly. */
  predicate Finishes(step: Step) {
    (step.TakeClose? || step.QueueEnds?) && step.ok
  }

  /** A write that fails, or an abort. */
  predicate Fails(step: Step) {
    step.Abort? || ((step.WriteCtrl? || step.Write? || step.WriteCover? || step.TakeClose? || step.QueueEnds?) && !step.ok)
  }

  /** The work a step brings in. */
  function NewWork(step: Step): nat {
    match step
    case Send(p) => 5 + Charge(Binary(p))
    case SendControl => 4
    case Ping(_) => 1
    case _ => 0
  }

  lemma {:induction false} DemandAppend(a: seq<Queued>, b: seq<Queued>)
    ensures Demand(a + b) == Demand(a) + Demand(b)
  {
    hide PermitsFor;
    if a == [] {
      assert a + b == b;
    } else {
      assert (a + b)[1..] == a[1..] + b;
      DemandAppend(a[1..], b);
    }
  }

  lemma DemandWithout(ws: seq<Queued>, i: nat)
    requires i < |ws|
    ensures Demand(Without(ws, i)) <= Demand(ws)
  {
    hide Demand;
    assert ws == ws[..i] + ([ws[i]] + ws[i + 1..]);
    DemandAppend(ws[..i], [ws[i]] + ws[i + 1..]);
    DemandAppend([ws[i]], ws[i + 1..]);
    DemandAppend(ws[..i], ws[i + 1..]);
  }

  lemma DemandHead(ws: seq<Queued>)
    requires ws != []
    ensures Demand(ws) == 5 + (if ws[0].permits < Charge(ws[0].frame) then Charge(ws[0].frame) - ws[0].permits else 0) + Demand(ws[1..])
  {
  }

  lemma DemandOf(q: Queued)
    ensures Demand([q]) == 5 + if q.permits < Charge(q.frame) then Charge(q.frame) - q.permits else 0
  {
    assert [q][1..] == [];
  }

  lemma GrantDemand(s: State, k: nat)
    requires Enabled(s, Grant(k))
    ensures Demand(Do(s, Grant(k)).waiters) < Demand(s.waiters)
  {
    hide Demand, PermitsFor;
    var w := s.waiters[0].(permits := s.waiters[0].permits + k);
    DemandHead(s.waiters);
    DemandHead([w] + s.waiters[1..]);
    assert ([w] + s.waiters[1..])[1..] == s.waiters[1..];
  }

  lemma PermitWork(s: State, step: Step)
    requires Enabled(s, step) && (step.Send? || step.Grant? || step.Acquired? || step.CancelWaiter?)
    ensures var t := Do(s, step);
            t.writer == s.writer && Work(t) + (if MovesOn(step) then 1 else 0) <= Work(s) + NewWork(step)
  {
    hide PermitsFor, Demand;
    match step {
      case Send(p) => DemandAppend(s.waiters, [Queued(Binary(p), 0)]); DemandOf(Queued(Binary(p), 0));
      case Grant(k) => GrantDemand(s, k);
      case Acquired => DemandHead(s.waiters);
      case CancelWaiter(i) => DemandWithout(s.waiters, i);
    }
  }

  lemma OtherWork(s: State, step: Step)
    requires Running(s) && Enabled(s, step) && !Fails(step) && !Finishes(step)
    requires !(step.Send? || step.Grant? || step.Acquired? || step.CancelWaiter?)
    ensures var t := Do(s, step);
            Running(t) && Work(t) + (if MovesOn(step) then 1 else 0) <= Work(s) + NewWork(step)
  {
    hide PermitsFor, Total, Demand, Charge;
  }

  /** Own steps shrink the work; no other step adds more than it brings. */
  lemma StepWork(s: State, step: Step)
    requires Running(s) && Enabled(s, step) && !Fails(step) && !Finishes(step)
    ensures var t := Do(s, step);
            Running(t) && Work(t) + (if MovesOn(step) then 1 else 0) <= Work(s) + NewWork(step)
  {
    hide Enabled, Do, Work, MovesOn, NewWork;
    if step.Send? || step.Grant? || step.Acquired? || step.CancelWaiter? {
      PermitWork(s, step);
    } else {
      OtherWork(s, step);
    }
  }

  /** Whichever of its own steps comes next, the work shrinks and no frame is lost; only overtaking changes their order. */
  lemma MovingOnWorks(s: State, step: Step)
    requires Running(s) && Enabled(s, step) && MovesOn(step)
    ensures var t := Do(s, step);
            && Running(t) && Work(t) < Work(s) && t.senders == s.senders
            && multiset(Pipeline(t)) == multiset(Pipeline(s))
            && (Pipeline(t) == Pipeline(s) || (step.Enqueue? && step.i > 0))
  {
    hide Enabled, Do, Work, Pipeline, NewWork, Adds, Drops;
    StepWork(s, step);
    StepAccounts(s, step);
    OwnAddsNothing(s, step);
    NothingMore(multiset(Pipeline(s)));
    NothingMore(multiset(Pipeline(Do(s, step))));
    if !(step.Enqueue? && step.i > 0) { OwnKeepsOrder(s, step); }
  }

  lemma NothingMore(m: multiset<Frame>)
    ensures m + multiset{} == m
  {
  }

  lemma OwnAddsNothing(s: State, step: Step)
    requires Enabled(s, step) && MovesOn(step)
    ensures NewWork(step) == 0 && Adds(step) == multiset{} == Drops(s, step) && Do(s, step).senders == s.senders
  {
    hide Enabled, Do;
    OwnKeepsSenders(s, step);
  }

  lemma OwnKeepsSenders(s: State, step: Step)
    requires Enabled(s, step) && MovesOn(step)
    ensures Do(s, step).senders == s.senders
  {
    hide PermitsFor, Total;
  }

  lemma OwnKeepsOrder(s: State, step: Step)
    requires Enabled(s, step) && MovesOn(step) && !(step.Enqueue? && step.i > 0)
    ensures Pipeline(Do(s, step)) == Pipeline(s)
  {
    hide PermitsFor, Total, Frames;
    match step {
      case Enqueue(_) => FrontKeepsPipeline(s);
      case Acquired => AcquiredKeepsPipeline(s);
      case Grant(k) => GrantKeepsFrames(s, k);
      case _ =>
    }
  }

  function OwnSteps(steps: seq<Step>): nat {
    if steps == [] then 0 else (if MovesOn(steps[0]) then 1 else 0) + OwnSteps(steps[1..])
  }

  function AllNewWork(steps: seq<Step>): nat {
    if steps == [] then 0 else NewWork(steps[0]) + AllNewWork(steps[1..])
  }

  /** In every schedule the carrier's own steps are bounded by the work there was and the work brought in. */
  lemma {:induction false} SchedulesEnd(s: State, steps: seq<Step>)
    requires Running(s) && Run(s, steps).Some? && forall i :: 0 <= i < |steps| ==> !Fails(steps[i]) && !Finishes(steps[i])
    ensures OwnSteps(steps) + Work(Run(s, steps).value) <= Work(s) + AllNewWork(steps)
    decreases |steps|
  {
    hide Work, Enabled, Do, NewWork, MovesOn, Fails, Finishes;
    if steps != [] {
      StepWork(s, steps[0]);
      SchedulesEnd(Do(s, steps[0]), steps[1..]);
    }
  }

  lemma {:induction false} OnlyFrontHoldsPermits(ws: seq<Queued>)
    requires forall i :: 0 <= i < |ws| ==> ws[i].permits == 0
    ensures Total(ws) == 0
  {
    if ws != [] { OnlyFrontHoldsPermits(ws[1..]); }
  }

  /** No producer waits for permits that will not come: with the queue drained, all that is missing is free. */
  lemma FrontCanBeGranted(s: State)
    requires Conserved(s) && Charged(s) && s.waiters != [] && s.holders == [] && s.queue == [] && InFlight(s.writer) == []
    ensures Charge(s.waiters[0].frame) - s.waiters[0].permits <= s.free
  {
    OnlyFrontHoldsPermits(s.waiters[1..]);
  }

  /** The step that moves the frame furthest along, writes succeeding. */
  function NextStep(s: State): Option<Step> {
    if s.writer.Writing? then Some(Write(true))
    else if s.writer.Written? then Some(Release)
    else if s.ctrlOpen && s.ctrl != [] then Some(WriteCtrl(true))
    else if s.ctrlOpen && !s.ctrlSenders then Some(CtrlEnds)
    else if s.queue != [] then Some(if s.queue[0].frame.Binary? then Take else TakeClose(true))
    else if s.holders != [] then Some(Enqueue(0))
    else if s.waiters != [] then
      var missing := Charge(s.waiters[0].frame) - s.waiters[0].permits;
      Some(if missing <= 0 then Acquired else Grant(missing))
    else if !s.senders then Some(QueueEnds(true))
    else None
  }

  /** A running carrier can always move on until everything sent has been written. */
  lemma NeverWedges(s: State)
    requires Inv(s) && Running(s)
    ensures NextStep(s).Some? ==> Enabled(s, NextStep(s).value)
    ensures NextStep(s).None? ==> s.waiters == [] && s.holders == [] && DataOf(s.wire) == s.sent
  {
    hide DataOf, PermitsFor, CloseIsLast, WrittenIsOnWire, Total;
    if s.writer.Idle? && s.holders == [] && s.queue == [] && s.waiters != [] {
      FrontCanBeGranted(s);
    }
    if NextStep(s).None? { assert Pending(s) == []; }
  }

  lemma NextStepIsOwn(s: State)
    ensures NextStep(s).Some? ==>
              var step := NextStep(s).value; (MovesOn(step) || Finishes(step)) && !(step.Enqueue? && step.i > 0)
    ensures NextStep(s).None? ==> s.senders
  {
  }

  // ── Delivery ───────────────────────────────────────────────────────────────

  lemma DrainedPipeline(s: State)
    requires s.waiters == [] && s.holders == []
    ensures Pipeline(s) == s.sent
  {
  }

  lemma RunOne(s: State, step: Step)
    requires Enabled(s, step)
    ensures Run(s, [step]) == Some(Do(s, step))
  {
    assert [step][1..] == [];
  }

  lemma RunCons(s: State, step: Step, rest: seq<Step>)
    requires Enabled(s, step)
    ensures Run(s, [step] + rest) == Run(Do(s, step), rest)
  {
    assert ([step] + rest)[1..] == rest;
  }

  predicate EndsInClose(wire: seq<Wire>) { |wire| > 0 && wire[|wire| - 1] == CloseFrame }

  lemma EndsWithClose(s: State, step: Step)
    requires Inv(s) && Enabled(s, step) && Finishes(step)
    requires Inv(Do(s, step))
    ensures var end := Do(s, step);
            && end.writer.Exited? && Clean(end.writer.why) && EndsInClose(end.wire)
            && (end.writer == Exited(CloseTaken) || DataOf(end.wire) == Pipeline(s))
  {
    hide DataOf, Total, Conserved, Charged, CloseIsLast, WrittenIsOnWire;
    if step.QueueEnds? { DrainedPipeline(s); }
  }

  /**
   From every running state some continuation writes out everything sent or being
   sent, in order, or stops at a Close on the way; once the senders are gone it
   ends with a Close on the wire.
   */
  lemma {:induction false} Drains(s: State) returns (steps: seq<Step>, end: State)
    requires Inv(s) && Running(s)
    ensures Run(s, steps) == Some(end)
    ensures end.writer == Exited(CloseTaken) || DataOf(end.wire) == Pipeline(s)
    ensures end.writer.Exited? ==> EndsInClose(end.wire)
    ensures !s.senders ==> end.writer.Exited?
    decreases Work(s)
  {
    hide DataOf, Inv, Work, Enabled, Do, Pipeline, MovesOn, Finishes, NextStep;
    NeverWedges(s);
    NextStepIsOwn(s);
    if NextStep(s).None? {
      steps, end := [], s;
      DrainedPipeline(s);
    } else {
      var step := NextStep(s).value;
      StepKeeps(s, step);
      if Finishes(step) {
        end := Do(s, step);
        steps := [step];
        RunOne(s, step);
        EndsWithClose(s, step);
      } else {
        MovingOnWorks(s, step);
        var rest;
        rest, end := Drains(Do(s, step));
        steps := [step] + rest;
        RunCons(s, step, rest);
      }
    }
  }

  lemma ExitedStays(s: State, step: Step)
    requires s.writer.Exited? && Enabled(s, step)
    ensures Do(s, step).writer == s.writer && Do(s, step).wire == s.wire
  {
    hide PermitsFor, Total;
  }

  /** Nothing is written after the writer has ended, and it stays ended. */
  lemma {:induction false} NothingAfterTheEnd(s: State, steps: seq<Step>)
    requires s.writer.Exited? && Run(s, steps).Some?
    ensures Run(s, steps).value.writer == s.writer && Run(s, steps).value.wire == s.wire
    decreases |steps|
  {
    hide Enabled, Do;
    if steps != [] {
      ExitedStays(s, steps[0]);
      NothingAfterTheEnd(Do(s, steps[0]), steps[1..]);
    }
  }

  /** Without a failing write or an abort the writer still runs, or has ended cleanly with a Close. */
  lemma {:induction false} NoFailureEndsCleanly(s: State, steps: seq<Step>)
    requires Inv(s) && Running(s) && Run(s, steps).Some? && forall i :: 0 <= i < |steps| ==> !Fails(steps[i])
    ensures var end := Run(s, steps).value; end.writer.Exited? ==> Clean(end.writer.why) && EndsInClose(end.wire)
    decreases |steps|
  {
    hide DataOf, Inv, Work, Enabled, Do, Pipeline, Fails, Finishes;
    if steps != [] {
      StepKeeps(s, steps[0]);
      if Finishes(steps[0]) {
        EndsWithClose(s, steps[0]);
        NothingAfterTheEnd(Do(s, steps[0]), steps[1..]);
      } else {
        StepWork(s, steps[0]);
        NoFailureEndsCleanly(Do(s, steps[0]), steps[1..]);
      }
    }
  }

  /** None of the carrier's own steps is possible. */
  ghost predicate Stuck(s: State) {
    forall step :: MovesOn(step) || Finishes(step) ==> !Enabled(s, step)
  }

  /** Nothing is under way and everything enqueued is on the wire. */
  predicate Delivered(s: State) {
    s.waiters == [] && s.holders == [] && DataOf(s.wire) == s.sent
  }

  lemma StuckIsDelivered(s: State)
    requires Inv(s) && Running(s) && Stuck(s)
    ensures s.senders && Delivered(s)
  {
    hide Inv, DataOf, Enabled;
    NeverWedges(s);
    NextStepIsOwn(s);
  }

  lemma QueueEndIsDelivered(s: State)
    requires Inv(s) && s.writer == Exited(QueueEnded)
    ensures Delivered(s)
  {
    hide DataOf, Total, Conserved, Charged, CloseIsLast, WrittenIsOnWire;
  }

  /**
   Every schedule of every step, sends, cancellations, pings and covers included,
   in which no write fails and nobody aborts: when the carrier has no step of its
   own left, the wire holds what was enqueued before, in order, and exactly the
   frames in the carrier and asked for since, but those given up; or it stopped at
   a Close and wrote everything enqueued ahead of it. With the senders gone it has
   ended with a Close.
   */
  lemma EveryScheduleDelivers(s: State, steps: seq<Step>, end: State)
    requires Inv(s) && Running(s) && Run(s, steps) == Some(end) && Stuck(end)
    requires forall i :: 0 <= i < |steps| ==> !Fails(steps[i])
    ensures if end.writer == Exited(CloseTaken) then DataOf(end.wire) + [Close] <= end.sent
            else s.sent <= DataOf(end.wire)
                 && multiset(DataOf(end.wire)) + GivenUp(s, steps) == multiset(Pipeline(s)) + Asked(steps)
    ensures end.writer.Exited? ==> EndsInClose(end.wire)
    ensures !end.senders ==> end.writer.Exited?
  {
    hide DataOf, Inv, Run, Stuck, Pipeline, GivenUp, Asked;
    RunKeeps(s, steps);
    RunAccounts(s, steps);
    NoFailureEndsCleanly(s, steps);
    if Running(end) {
      StuckIsDelivered(end);
      DrainedPipeline(end);
    } else if end.writer == Exited(QueueEnded) {
      QueueEndIsDelivered(end);
      DrainedPipeline(end);
    } else {
      ClosedBehindData(end);
    }
  }

  lemma ClosedBehindData(s: State)
    requires Inv(s) && s.writer == Exited(CloseTaken)
    ensures DataOf(s.wire) + [Close] <= s.sent
  {
    hide DataOf, Total, Conserved, Charged, CloseIsLast, WrittenIsOnWire;
  }
}
