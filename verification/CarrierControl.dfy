/**
 Control frames in the carrier's runs: every one accepted is written, in order, and
 before any data frame the writer has not already taken; and the slots that make
 room for frames.
 */
module CarrierControl {
  import opened Wrappers
  import opened CarrierQueue
  import opened CarrierProgress

  // ── Nothing is lost or reordered ───────────────────────────────────────────

  /** The control frames on the wire. */
  function CtrlOf(wire: seq<Wire>): seq<nat> {
    if wire == [] then []
    else CtrlOf(wire[..|wire| - 1]) + if wire[|wire| - 1].Ctrl? then [wire[|wire| - 1].id] else []
  }

  lemma CtrlOfSnoc(wire: seq<Wire>, w: Wire)
    ensures CtrlOf(wire + [w]) == CtrlOf(wire) + if w.Ctrl? then [w.id] else []
  {
    assert (wire + [w])[..|wire|] == wire;
  }

  function AsksFor(step: Step): seq<nat> {
    if step.Ping? then [step.id] else []
  }

  function Pinged(steps: seq<Step>): seq<nat> {
    if steps == [] then [] else AsksFor(steps[0]) + Pinged(steps[1..])
  }

  /** Written and still waiting, in order. */
  function Controls(s: State): seq<nat> { CtrlOf(s.wire) + s.ctrl }

  lemma AsideAsks(s: State, step: Step)
    requires Enabled(s, step) && Aside(step)
    ensures Do(s, step).wire == s.wire && Do(s, step).ctrl == s.ctrl + AsksFor(step)
  {
    hide PermitsFor, Total;
  }

  /** A step of the writer, or an enqueue: the wire grows by at most one element, a control frame only from the front of those waiting. */
  predicate Grows(s: State, t: State) {
    || (t.wire == s.wire && t.ctrl == s.ctrl)
    || (|t.wire| == |s.wire| + 1 && t.wire == s.wire + [t.wire[|s.wire|]] && !t.wire[|s.wire|].Ctrl? && t.ctrl == s.ctrl)
    || (s.ctrl != [] && t.wire == s.wire + [Ctrl(s.ctrl[0])] && t.ctrl == s.ctrl[1..])
  }

  lemma ExitGrows(s: State, step: Step)
    requires Enabled(s, step) && (step.TakeClose? || step.QueueEnds? || step.Abort? || step.WriteCtrl? || step.WriteCover?)
    ensures Grows(s, Do(s, step)) && AsksFor(step) == []
  {
    hide PermitsFor, Total;
  }

  lemma WriterGrows(s: State, step: Step)
    requires Enabled(s, step) && (step.Enqueue? || step.Take? || step.Write? || step.Release?)
    ensures Grows(s, Do(s, step)) && AsksFor(step) == []
  {
    hide PermitsFor, Total;
  }

  lemma StepControls(s: State, step: Step)
    requires Enabled(s, step)
    ensures Controls(Do(s, step)) == Controls(s) + AsksFor(step)
    ensures CtrlOf(s.wire) <= CtrlOf(Do(s, step).wire)
  {
    hide Enabled, Do, CtrlOf, AsksFor, Grows;
    if Aside(step) {
      AsideAsks(s, step);
    } else {
      if step.Enqueue? || step.Take? || step.Write? || step.Release? { WriterGrows(s, step); } else { ExitGrows(s, step); }
      GrowsControls(s, Do(s, step));
      assert Controls(s) + [] == Controls(s);
    }
  }

  lemma GrowsControls(s: State, t: State)
    requires Grows(s, t)
    ensures Controls(t) == Controls(s) && CtrlOf(s.wire) <= CtrlOf(t.wire)
  {
    hide CtrlOf;
    if t.wire != s.wire {
      CtrlOfSnoc(s.wire, t.wire[|s.wire|]);
      assert s.ctrl != [] ==> s.ctrl == [s.ctrl[0]] + s.ctrl[1..];
    }
  }

  /** Over every run, failures included: the control frames written and waiting are those there were and those asked for, in order. */
  lemma {:induction false} RunControls(s: State, steps: seq<Step>)
    requires Run(s, steps).Some?
    ensures Controls(Run(s, steps).value) == Controls(s) + Pinged(steps)
    ensures CtrlOf(s.wire) <= CtrlOf(Run(s, steps).value.wire)
    decreases |steps|
  {
    hide Enabled, Do, Controls, CtrlOf, AsksFor;
    if steps == [] {
      assert Controls(s) + [] == Controls(s);
    } else {
      StepControls(s, steps[0]);
      RunControls(Do(s, steps[0]), steps[1..]);
      assert (Controls(s) + AsksFor(steps[0])) + Pinged(steps[1..]) == Controls(s) + (AsksFor(steps[0]) + Pinged(steps[1..]));
    }
  }

  // ── All of them are written ────────────────────────────────────────────────

  /** The control channel is let go only when it is empty and nobody can send to it. */
  predicate LetGoEmpty(s: State) {
    !s.ctrlOpen ==> s.ctrl == [] && !s.ctrlSenders
  }

  lemma StepLetsGo(s: State, step: Step)
    requires LetGoEmpty(s) && Enabled(s, step)
    ensures LetGoEmpty(Do(s, step))
  {
    hide PermitsFor, Total;
  }

  lemma {:induction false} RunLetsGo(s: State, steps: seq<Step>)
    requires LetGoEmpty(s) && Run(s, steps).Some?
    ensures LetGoEmpty(Run(s, steps).value)
    decreases |steps|
  {
    hide LetGoEmpty, Enabled, Do;
    if steps != [] {
      StepLetsGo(s, steps[0]);
      RunLetsGo(Do(s, steps[0]), steps[1..]);
    }
  }

  lemma StuckIsQuiet(s: State)
    requires Inv(s) && Running(s) && Stuck(s) && LetGoEmpty(s)
    ensures s.ctrl == []
  {
    hide Inv;
    assert MovesOn(Write(true)) && MovesOn(Release) && MovesOn(WriteCtrl(true));
    assert !Enabled(s, Write(true)) && !Enabled(s, Release) && !Enabled(s, WriteCtrl(true));
  }

  /** A running carrier with no step of its own left has written every control frame it accepted, in order. */
  lemma ControlDelivered(steps: seq<Step>, end: State)
    requires Run(Init, steps) == Some(end) && Running(end) && Stuck(end)
    ensures CtrlOf(end.wire) == Pinged(steps)
  {
    hide Run, CtrlOf, Stuck, Inv, Pinged;
    StartReachable();
    ReachableInv(Init);
    RunKeeps(Init, steps);
    RunLetsGo(Init, steps);
    StuckIsQuiet(end);
    RunControls(Init, steps);
    NoControlYet();
    assert CtrlOf(end.wire) + [] == CtrlOf(end.wire) && [] + Pinged(steps) == Pinged(steps);
  }

  lemma NoControlYet()
    ensures Controls(Init) == []
  {
  }

  /** Neither a Close nor the end of the queue cuts off a control frame accepted before. */
  lemma CleanEndAfterControl(steps: seq<Step>, s: State, step: Step)
    requires Run(Init, steps) == Some(s) && Enabled(s, step) && Finishes(step)
    ensures CtrlOf(Do(s, step).wire) == Pinged(steps)
  {
    hide Run, CtrlOf, Pinged;
    RunLetsGo(Init, steps);
    RunControls(Init, steps);
    NoControlYet();
    EndsQuietly(s, step);
    CtrlOfSnoc(s.wire, CloseFrame);
    assert CtrlOf(s.wire) + [] == CtrlOf(s.wire) && [] + Pinged(steps) == Pinged(steps);
  }

  lemma EndsQuietly(s: State, step: Step)
    requires LetGoEmpty(s) && Enabled(s, step) && Finishes(step)
    ensures s.ctrl == [] && Do(s, step).wire == s.wire + [CloseFrame]
  {
    hide PermitsFor, Total;
  }

  // ── Ahead of the data ──────────────────────────────────────────────────────

  function InWriting(s: State): nat { if s.writer.Writing? then 1 else 0 }

  function Covers(wire: seq<Wire>): nat {
    if wire == [] then 0 else Covers(wire[..|wire| - 1]) + if wire[|wire| - 1].Cover? then 1 else 0
  }

  lemma CoversSnoc(wire: seq<Wire>, w: Wire)
    ensures Covers(wire + [w]) == Covers(wire) + if w.Cover? then 1 else 0
  {
    assert (wire + [w])[..|wire|] == wire;
  }

  /** While a control frame waits the writer takes no data frame and writes no cover. */
  lemma WaitingControlHolds(s: State, step: Step)
    requires Enabled(s, step) && s.ctrlOpen && s.ctrl != []
    ensures Do(s, step).ctrlOpen
    ensures |DataOf(Do(s, step).wire)| + InWriting(Do(s, step)) <= |DataOf(s.wire)| + InWriting(s)
    ensures Covers(Do(s, step).wire) == Covers(s.wire)
  {
    hide PermitsFor, Total, DataOf, Covers;
    DataOfSnoc(s.wire, Ctrl(s.ctrl[0]));
    CoversSnoc(s.wire, Ctrl(s.ctrl[0]));
    if s.writer.Writing? {
      DataOfSnoc(s.wire, Data(s.writer.q.frame));
      CoversSnoc(s.wire, Data(s.writer.q.frame));
    }
  }

  /**
   In every run, as long as some control frame waiting at its start is not yet
   written, at most the data frame that was being written then has gone out, and no
   cover.
   */
  lemma {:induction false} ControlGoesFirst(s: State, steps: seq<Step>)
    requires Run(s, steps).Some? && s.ctrlOpen
    requires |CtrlOf(Run(s, steps).value.wire)| < |CtrlOf(s.wire)| + |s.ctrl|
    ensures |DataOf(Run(s, steps).value.wire)| <= |DataOf(s.wire)| + InWriting(s)
    ensures Covers(Run(s, steps).value.wire) == Covers(s.wire)
    decreases |steps|
  {
    hide Enabled, Do, CtrlOf, DataOf, Covers;
    RunControls(s, steps);
    if steps != [] {
      WaitingControlHolds(s, steps[0]);
      StepControls(s, steps[0]);
      ControlGoesFirst(Do(s, steps[0]), steps[1..]);
    }
  }

  /** Covers on the wire are exactly the cover writes that went through. */
  lemma StepCovers(s: State, step: Step)
    requires Enabled(s, step)
    ensures Covers(Do(s, step).wire) == Covers(s.wire) + if step == WriteCover(true) then 1 else 0
  {
    hide PermitsFor, Total, Covers;
    CoversSnoc(s.wire, Cover);
    CoversSnoc(s.wire, CloseFrame);
    if s.ctrl != [] { CoversSnoc(s.wire, Ctrl(s.ctrl[0])); }
    if s.writer.Writing? { CoversSnoc(s.wire, Data(s.writer.q.frame)); }
  }

  /** A cover goes out only when everything enqueued and every control frame accepted is on the wire already. */
  lemma CoverMeansCaughtUp(steps: seq<Step>, s: State, ok: bool)
    requires Run(Init, steps) == Some(s) && Enabled(s, WriteCover(ok))
    ensures DataOf(s.wire) == s.sent && CtrlOf(s.wire) == Pinged(steps) && s.senders
  {
    hide Run, CtrlOf, Pinged, DataOf, Conserved, Charged, WrittenIsOnWire, CloseIsLast;
    StartReachable();
    ReachableInv(Init);
    RunKeeps(Init, steps);
    RunLetsGo(Init, steps);
    RunControls(Init, steps);
    NoControlYet();
    assert s.ctrl == [];
    assert Pending(s) == [] && DataOf(s.wire) + [] == DataOf(s.wire);
    assert CtrlOf(s.wire) + [] == CtrlOf(s.wire) && [] + Pinged(steps) == Pinged(steps);
  }

  // ── Room for as many frames as there are slots ─────────────────────────────

  function Tiny(n: nat): seq<Queued> { seq(n, _ => Queued(Binary([0]), 1)) }

  /** `n` frames of one byte wait in the queue and nothing else is under way. */
  predicate Holds(s: State, n: nat) {
    && s.queue == Tiny(n) && s.waiters == [] && s.holders == [] && s.writer.Idle? && s.senders
    && s.free + n == CARRIER_QUEUE_BYTES
  }

  lemma OneMore(s: State, n: nat) returns (t: State)
    requires Reachable(s) && Holds(s, n) && n < 256
    ensures Reachable(t) && Holds(t, n + 1)
  {
    hide Run, Reachable, Tiny, PermitsFor;
    assert Charge(Binary([0])) == 1 by { ChargeOfOne(); }
    assert |s.queue| == n by { TinySize(n); }
    ReachableStep(s, Send([0]));
    t := Do(s, Send([0]));
    assert t.waiters == [Queued(Binary([0]), 0)];
    ReachableStep(t, Grant(1));
    t := Do(t, Grant(1));
    assert t.waiters == [Queued(Binary([0]), 1)];
    ReachableStep(t, Acquired);
    t := Do(t, Acquired);
    assert t.holders == [Queued(Binary([0]), 1)];
    ReachableStep(t, Enqueue(0));
    t := Do(t, Enqueue(0));
    TinySize(n);
    assert t.holders == [];
  }

  lemma TinySize(n: nat)
    ensures |Tiny(n)| == n && Tiny(n) + [Queued(Binary([0]), 1)] == Tiny(n + 1)
  {
  }

  lemma ChargeOfOne()
    ensures Charge(Binary([0])) == 1
  {
  }

  /** Every number of frames up to the 256 slots can wait in the queue; then no producer enqueues, permits or not. */
  lemma {:induction false} SlotsFill(n: nat) returns (s: State)
    requires n <= 256
    ensures Reachable(s) && Holds(s, n)
    ensures n == 256 ==> forall i :: !Enabled(s, Enqueue(i))
  {
    hide Run, Reachable, Tiny;
    if n == 0 {
      s := Init;
      StartReachable();
      TinySize(0);
    } else {
      s := SlotsFill(n - 1);
      s := OneMore(s, n - 1);
    }
    TinySize(n);
  }

  /** Up to eight control frames can wait, and a ninth is refused. */
  lemma {:induction false} ChannelFills(n: nat) returns (s: State)
    requires n <= 8
    ensures Reachable(s) && |s.ctrl| == n && s.ctrlSenders
    ensures n == 8 ==> forall id :: !Enabled(s, Ping(id))
  {
    hide Run, Reachable;
    if n == 0 {
      s := Init;
      StartReachable();
    } else {
      s := ChannelFills(n - 1);
      ReachableStep(s, Ping(n));
      s := Do(s, Ping(n));
    }
  }

  // ── Who may act when ───────────────────────────────────────────────────────

  /**
   Nobody outside the writer is held up by its state: with a sending half alive any
   frame may be sent, every send under way may be given up, the control channel takes
   frames while it has room, and a running writer may be aborted.
   */
  lemma OthersAreFree(s: State)
    ensures forall p :: Enabled(s, Send(p)) <==> s.senders
    ensures Enabled(s, SendControl) <==> s.senders
    ensures forall i: nat :: Enabled(s, CancelWaiter(i)) <==> i < |s.waiters|
    ensures forall i: nat :: Enabled(s, CancelHolder(i)) <==> i < |s.holders|
    ensures forall id :: Enabled(s, Ping(id)) <==> s.ctrlSenders && |s.ctrl| < 8
    ensures Enabled(s, Abort) <==> Running(s)
  {
  }

  /** A Close needs no permits: with a free slot it is enqueued at once, however many bytes are in the queue. */
  lemma CloseSkipsBudget(s: State)
    requires s.senders && Running(s) && |s.queue| < 256
    ensures var end := Run(s, [SendControl, Enqueue(|s.holders|)]);
            && end.Some? && end.value.queue == s.queue + [Queued(Close, 0)]
            && end.value.holders == s.holders && end.value.free == s.free
  {
    hide PermitsFor;
    var t := Do(s, SendControl);
    RunOne(t, Enqueue(|s.holders|));
    RunCons(s, SendControl, [Enqueue(|s.holders|)]);
    assert [SendControl] + [Enqueue(|s.holders|)] == [SendControl, Enqueue(|s.holders|)];
    assert Without(t.holders, |s.holders|) == s.holders;
  }
}
