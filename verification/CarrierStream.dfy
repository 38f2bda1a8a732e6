/**
 One sender's byte stream through the whole carrier: frames cut into padded
 messages, sent one after the other into the queue, written among control frames
 and idle covers, and decoded by the receiver.
 */
module CarrierStream {
  import opened Bits
  import opened Bytes
  import opened Wrappers
  import opened CarrierQueue
  import opened CarrierProgress
  import P = PaddingFrames
  import C = CarrierPadding
  import EarlyShape

  // ── One sequential sender ──────────────────────────────────────────────────

  predicate NoneUnderWay(s: State) { s.waiters == [] && s.holders == [] }

  /** The step fits a sender that awaits or drops each send before the next, and closes by dropping its half. */
  predicate FitsSender(s: State, step: Step) {
    (step.Send? ==> NoneUnderWay(s)) && !step.SendControl?
  }

  predicate GivesUp(step: Step) { step.CancelWaiter? || step.CancelHolder? }

  predicate OneSender(s: State, steps: seq<Step>)
    requires Run(s, steps).Some?
    decreases |steps|
  {
    steps == [] || (FitsSender(s, steps[0]) && OneSender(Do(s, steps[0]), steps[1..]))
  }

  /** The messages on their way: a send adds one, a send dropped half way takes it back. */
  function Outgoing(msgs: seq<seq<Byte>>, step: Step): seq<seq<Byte>> {
    if step.Send? then msgs + [step.payload]
    else if GivesUp(step) && msgs != [] then msgs[..|msgs| - 1]
    else msgs
  }

  function Messages(msgs: seq<seq<Byte>>, steps: seq<Step>): seq<seq<Byte>>
    decreases |steps|
  {
    if steps == [] then msgs else Messages(Outgoing(msgs, steps[0]), steps[1..])
  }

  function Binaries(msgs: seq<seq<Byte>>): seq<Frame> {
    seq(|msgs|, i requires 0 <= i < |msgs| => Binary(msgs[i]))
  }

  /** At most one send is under way, and the carrier holds the messages in the order they were sent. */
  predicate InSendOrder(s: State, msgs: seq<seq<Byte>>) {
    && |s.waiters| + |s.holders| <= 1
    && s.sent <= Binaries(msgs) && |s.sent| + |s.waiters| + |s.holders| <= |msgs|
    && (Running(s) || s.writer == Exited(QueueEnded) ==> Pipeline(s) == Binaries(msgs))
  }

  lemma BinariesSnoc(msgs: seq<seq<Byte>>, m: seq<Byte>)
    ensures Binaries(msgs + [m]) == Binaries(msgs) + [Binary(m)]
  {
  }

  lemma SendInOrder(s: State, step: Step, msgs: seq<seq<Byte>>)
    requires InSendOrder(s, msgs) && Enabled(s, step) && step.Send? && NoneUnderWay(s)
    ensures InSendOrder(Do(s, step), msgs + [step.payload])
  {
    hide Frames, Binaries;
    var q := Queued(Binary(step.payload), 0);
    BinariesSnoc(msgs, step.payload);
    NoFrames();
    FramesSnoc([], q);
    assert [] + [q] == [q];
    assert s.sent + [] + [] == s.sent && s.sent + [] + [q.frame] == s.sent + [q.frame];
  }

  lemma NoFrames()
    ensures Frames([]) == []
  {
  }

  lemma BinariesSize(msgs: seq<seq<Byte>>)
    ensures |Binaries(msgs)| == |msgs|
  {
  }

  /** With one send under way there is nobody to overtake. */
  lemma EnqueueInOrder(s: State, step: Step, msgs: seq<seq<Byte>>)
    requires InSendOrder(s, msgs) && Enabled(s, step) && step.Enqueue?
    ensures InSendOrder(Do(s, step), msgs)
  {
    hide Frames, Binaries, Pipeline;
    FrontKeepsPipeline(s);
    SentIsPrefix(Do(s, step));
  }

  lemma SentIsPrefix(s: State)
    ensures s.sent <= Pipeline(s)
  {
  }

  lemma GrantInOrder(s: State, step: Step, msgs: seq<seq<Byte>>)
    requires InSendOrder(s, msgs) && Enabled(s, step) && (step.Grant? || step.Acquired?)
    ensures InSendOrder(Do(s, step), msgs)
  {
    hide Frames, Binaries, PermitsFor;
    if step.Grant? { GrantKeepsFrames(s, step.k); } else { AcquiredKeepsPipeline(s); }
  }

  lemma PipelineSize(s: State)
    ensures |Pipeline(s)| == |s.sent| + |s.holders| + |s.waiters| && s.sent <= Pipeline(s)
  {
  }

  /** The message taken back is the last one, and was not enqueued. */
  lemma CancelInOrder(s: State, step: Step, msgs: seq<seq<Byte>>)
    requires InSendOrder(s, msgs) && Enabled(s, step) && GivesUp(step)
    ensures InSendOrder(Do(s, step), Outgoing(msgs, step))
  {
    hide PermitsFor, Pipeline, Frames, Binaries;
    var n, t := |msgs| - 1, Do(s, step);
    BinariesSize(msgs);
    BinariesSnoc(msgs[..n], msgs[n]);
    assert msgs[..n] + [msgs[n]] == msgs;
    PipelineSize(s);
    assert t.waiters == [] && t.holders == [];
    DrainedPipeline(t);
    BinariesSize(msgs[..n]);
    assert s.sent <= Binaries(msgs[..n]);
    assert |s.sent| == n ==> s.sent == Binaries(msgs[..n]);
  }

  lemma RejectInOrder(s: State, step: Step, msgs: seq<seq<Byte>>)
    requires QuietWithoutSenders(s) && InSendOrder(s, msgs) && Enabled(s, step) && step.Reject?
    ensures InSendOrder(Do(s, step), msgs)
  {
    hide PermitsFor, Pipeline, Frames, Binaries;
  }

  lemma AsideInOrder(s: State, t: State, msgs: seq<seq<Byte>>)
    requires InSendOrder(s, msgs) && t.waiters == s.waiters && t.holders == s.holders && t.sent == s.sent
    requires s.writer.Exited? ==> t.writer == s.writer
    ensures InSendOrder(t, msgs)
  {
    hide Frames, Binaries;
  }

  lemma StepInOrder(s: State, step: Step, msgs: seq<seq<Byte>>)
    requires Inv(s) && InSendOrder(s, msgs) && Enabled(s, step) && FitsSender(s, step)
    ensures InSendOrder(Do(s, step), Outgoing(msgs, step))
  {
    hide InSendOrder, Enabled, Do, Conserved, Charged, Ordered, WrittenIsOnWire, CloseIsLast, QuietWithoutSenders;
    if step.Send? {
      SendInOrder(s, step, msgs);
    } else if step.Enqueue? {
      EnqueueInOrder(s, step, msgs);
    } else if step.Grant? || step.Acquired? {
      GrantInOrder(s, step, msgs);
    } else if GivesUp(step) {
      CancelInOrder(s, step, msgs);
    } else if step.Reject? {
      RejectInOrder(s, step, msgs);
    } else {
      WriterAccounts(s, step);
      if s.writer.Exited? { ExitedStays(s, step); }
      AsideInOrder(s, Do(s, step), msgs);
    }
  }

  lemma {:induction false} RunInOrder(s: State, steps: seq<Step>, msgs: seq<seq<Byte>>)
    requires Inv(s) && InSendOrder(s, msgs) && Run(s, steps).Some? && OneSender(s, steps)
    ensures InSendOrder(Run(s, steps).value, Messages(msgs, steps))
    decreases |steps|
  {
    hide Inv, InSendOrder, Enabled, Do, Outgoing;
    if steps != [] {
      StepInOrder(s, steps[0], msgs);
      StepKeeps(s, steps[0]);
      RunInOrder(Do(s, steps[0]), steps[1..], Outgoing(msgs, steps[0]));
    }
  }

  // ── What the receiver sees ─────────────────────────────────────────────────

  /** The binary messages on the wire; `pads` gives the pad of the cover at each place. */
  function OnWire(wire: seq<Wire>, pads: nat -> seq<Byte>): seq<seq<Byte>>
    requires forall i :: |pads(i)| <= P.MAX_PADDING_SEGMENT
  {
    if wire == [] then []
    else
      var n := |wire| - 1;
      OnWire(wire[..n], pads)
      + match wire[n]
        case Data(f) => if f.Binary? then [f.payload] else []
        case Cover => [P.Frame([], pads(n))]
        case _ => []
  }

  lemma {:induction false} WireDecodes(scheme: P.Scheme, wire: seq<Wire>, pads: nat -> seq<Byte>,
                                       msgs: seq<seq<Byte>>, pieces: seq<seq<Byte>>)
    requires forall i :: |pads(i)| <= P.MAX_PADDING_SEGMENT
    requires DataOf(wire) <= Binaries(msgs) && C.AllCarry(scheme, msgs, pieces) && (Cover in wire ==> scheme.Enabled())
    ensures C.Delivers(scheme, OnWire(wire, pads), Joined(pieces[..|DataOf(wire)|]))
  {
    hide C.Delivers, Joined, P.Frame;
    if wire == [] {
      C.NothingDelivers(scheme);
      C.JoinedNone();
    } else {
      var n := |wire| - 1;
      var k, x := |DataOf(wire[..n])|, wire[n];
      assert wire == wire[..n] + [x];
      DataOfSnoc(wire[..n], x);
      WireDecodes(scheme, wire[..n], pads, msgs, pieces);
      var before, data := OnWire(wire[..n], pads), Joined(pieces[..k]);
      match x {
        case Data(f) =>
          assert DataOf(wire)[k] == f && Binaries(msgs)[k] == Binary(msgs[k]);
          C.DeliversAppend(scheme, before, data, [msgs[k]], pieces[k]);
          assert pieces[..k + 1] == pieces[..k] + [pieces[k]];
          JoinedSnoc(pieces[..k], pieces[k]);
        case Cover =>
          C.CoverDelivers(scheme, pads(n));
          C.DeliversAppend(scheme, before, data, [P.Frame([], pads(n))], []);
          assert data + [] == data;
        case _ => assert before + [] == before;
      }
    }
  }

  /** Covers come from cover steps. */
  lemma {:induction false} CoversAreWritten(s: State, steps: seq<Step>)
    requires Run(s, steps).Some? && forall i :: 0 <= i < |steps| ==> !steps[i].WriteCover?
    ensures Cover in Run(s, steps).value.wire ==> Cover in s.wire
    decreases |steps|
  {
    hide Enabled, Do;
    if steps != [] {
      NoNewCover(s, steps[0]);
      CoversAreWritten(Do(s, steps[0]), steps[1..]);
    }
  }

  lemma NoNewCover(s: State, step: Step)
    requires Enabled(s, step) && !step.WriteCover?
    ensures Cover in Do(s, step).wire ==> Cover in s.wire
  {
    hide PermitsFor, Total;
  }

  // ── The stream ─────────────────────────────────────────────────────────────

  function Flat(cuts: seq<seq<seq<Byte>>>): seq<seq<Byte>> {
    if cuts == [] then [] else cuts[0] + Flat(cuts[1..])
  }

  /** Every frame of the stream is cut into its messages. */
  ghost predicate AllCut(scheme: P.Scheme, frames: seq<seq<Byte>>, cuts: seq<seq<seq<Byte>>>) {
    |frames| == |cuts| && forall i :: 0 <= i < |cuts| ==> C.IsCut(scheme, frames[i], cuts[i])
  }

  lemma PiecesOf(scheme: P.Scheme, frame: seq<Byte>, msgs: seq<seq<Byte>>) returns (pieces: seq<seq<Byte>>)
    requires C.IsCut(scheme, frame, msgs)
    ensures C.AllCarry(scheme, msgs, pieces) && Joined(pieces) == frame
  {
    hide C.AllCarry;
    pieces :| C.AllCarry(scheme, msgs, pieces) && Joined(pieces) == frame;
  }

  lemma NothingCarried(scheme: P.Scheme)
    ensures C.AllCarry(scheme, [], [])
  {
  }

  lemma CarryPrefix(scheme: P.Scheme, msgs: seq<seq<Byte>>, all: seq<seq<Byte>>, pieces: seq<seq<Byte>>)
    requires msgs <= all && C.AllCarry(scheme, all, pieces)
    ensures |msgs| <= |pieces| && C.AllCarry(scheme, msgs, pieces[..|msgs|])
  {
    hide C.Delivers;
  }

  lemma {:induction false} FlatPieces(scheme: P.Scheme, frames: seq<seq<Byte>>, cuts: seq<seq<seq<Byte>>>)
    returns (pieces: seq<seq<Byte>>)
    requires AllCut(scheme, frames, cuts)
    ensures C.AllCarry(scheme, Flat(cuts), pieces) && Joined(pieces) == Joined(frames)
    decreases |cuts|
  {
    hide C.Delivers, C.AllCarry, C.IsCut;
    if cuts == [] {
      pieces := [];
      NothingCarried(scheme);
    } else {
      var first := PiecesOf(scheme, frames[0], cuts[0]);
      var rest := FlatPieces(scheme, frames[1..], cuts[1..]);
      pieces := first + rest;
      JoinedAppend(first, rest);
      C.CarryAppend(scheme, cuts[0], first, Flat(cuts[1..]), rest);
    }
  }

  /**
   However the queue, the control channel, the cover timer and the writer
   interleave, and whether or not writes fail or sends are dropped: what the
   receiver decodes is at a frame boundary and is a prefix of what the messages on
   their way carry; all of it when the writer ended because the sender was dropped.
   */
  lemma MessagesArrive(scheme: P.Scheme, steps: seq<Step>, pads: nat -> seq<Byte>, pieces: seq<seq<Byte>>)
    requires forall i :: |pads(i)| <= P.MAX_PADDING_SEGMENT
    requires Run(Init, steps).Some? && OneSender(Init, steps) && C.AllCarry(scheme, Messages([], steps), pieces)
    requires !scheme.Enabled() ==> forall i :: 0 <= i < |steps| ==> !steps[i].WriteCover?
    ensures var end := Run(Init, steps).value;
            var r := C.Received(scheme, P.Fresh, OnWire(end.wire, pads));
            && P.AtFrameBoundary(r.0) && r.1 <= Joined(pieces)
            && (end.writer == Exited(QueueEnded) ==> r.1 == Joined(pieces))
  {
    hide Run, OneSender, C.Received, Joined, OnWire, Messages, C.AllCarry, Inv, InSendOrder;
    var end, msgs := Run(Init, steps).value, Messages([], steps);
    InitIsFresh();
    RunKeeps(Init, steps);
    RunInOrder(Init, steps, []);
    if !scheme.Enabled() { CoversAreWritten(Init, steps); }
    DecodedIs(scheme, end, pads, msgs, pieces);
  }

  /** The same for a byte stream whose frames were cut into the messages: a prefix of the stream, and at the end all of it. */
  lemma StreamArrives(scheme: P.Scheme, steps: seq<Step>, pads: nat -> seq<Byte>,
                      frames: seq<seq<Byte>>, cuts: seq<seq<seq<Byte>>>)
    requires forall i :: |pads(i)| <= P.MAX_PADDING_SEGMENT
    requires Run(Init, steps).Some? && OneSender(Init, steps)
    requires AllCut(scheme, frames, cuts) && Messages([], steps) <= Flat(cuts)
    requires !scheme.Enabled() ==> forall i :: 0 <= i < |steps| ==> !steps[i].WriteCover?
    ensures var end := Run(Init, steps).value;
            var r := C.Received(scheme, P.Fresh, OnWire(end.wire, pads));
            && P.AtFrameBoundary(r.0) && r.1 <= Joined(frames)
            && (end.writer == Exited(QueueEnded) && Messages([], steps) == Flat(cuts) ==> r.1 == Joined(frames))
  {
    hide Run, OneSender, C.Received, Joined, OnWire, Flat, AllCut, Messages, C.AllCarry;
    var msgs := Messages([], steps);
    var pieces := FlatPieces(scheme, frames, cuts);
    CarryPrefix(scheme, msgs, Flat(cuts), pieces);
    SameSize(scheme, Flat(cuts), pieces);
    MessagesArrive(scheme, steps, pads, pieces[..|msgs|]);
    JoinedPrefix(pieces, |msgs|);
    assert msgs == Flat(cuts) ==> pieces[..|msgs|] == pieces;
  }

  lemma DecodedIs(scheme: P.Scheme, end: State, pads: nat -> seq<Byte>, msgs: seq<seq<Byte>>, pieces: seq<seq<Byte>>)
    requires forall i :: |pads(i)| <= P.MAX_PADDING_SEGMENT
    requires Inv(end) && InSendOrder(end, msgs) && (Cover in end.wire ==> scheme.Enabled())
    requires C.AllCarry(scheme, msgs, pieces)
    ensures var r := C.Received(scheme, P.Fresh, OnWire(end.wire, pads));
            && P.AtFrameBoundary(r.0) && r.1 <= Joined(pieces)
            && (end.writer == Exited(QueueEnded) ==> r.1 == Joined(pieces))
  {
    hide C.Received, Joined, OnWire, C.AllCarry, Inv, DataOf;
    var k := |DataOf(end.wire)|;
    SameSize(scheme, msgs, pieces);
    WirePrefix(end);
    WireDecodes(scheme, end.wire, pads, msgs, pieces);
    FromFresh(scheme, OnWire(end.wire, pads), Joined(pieces[..k]));
    JoinedPrefix(pieces, k);
    if end.writer == Exited(QueueEnded) {
      EndedWithAll(end, msgs);
      assert pieces[..k] == pieces;
    }
  }

  lemma SameSize(scheme: P.Scheme, msgs: seq<seq<Byte>>, pieces: seq<seq<Byte>>)
    requires C.AllCarry(scheme, msgs, pieces)
    ensures |msgs| == |pieces|
  {
  }

  lemma FromFresh(scheme: P.Scheme, msgs: seq<seq<Byte>>, data: seq<Byte>)
    requires C.Delivers(scheme, msgs, data)
    ensures var r := C.Received(scheme, P.Fresh, msgs); P.AtFrameBoundary(r.0) && r.1 == data
  {
    hide C.Received;
  }

  lemma InitIsFresh()
    ensures Inv(Init) && InSendOrder(Init, [])
  {
    hide Inv;
    StartReachable();
    ReachableInv(Init);
  }

  lemma WirePrefix(s: State)
    requires Inv(s)
    ensures DataOf(s.wire) <= s.sent
  {
    hide DataOf, Conserved, Charged;
    if Running(s) { assert DataOf(s.wire) <= DataOf(s.wire) + Pending(s); }
    if s.writer == Exited(CloseTaken) { assert DataOf(s.wire) <= DataOf(s.wire) + [Close]; }
  }

  lemma EndedWithAll(s: State, msgs: seq<seq<Byte>>)
    requires Inv(s) && InSendOrder(s, msgs) && s.writer == Exited(QueueEnded)
    ensures |DataOf(s.wire)| == |msgs|
  {
    hide Inv, DataOf;
    QueueEndIsDelivered(s);
    DrainedPipeline(s);
  }

  // ── The sink ───────────────────────────────────────────────────────────────

  /** The sending half of a session: what it makes of each frame before the queue. */
  class WsFrameSink {
    const scheme: P.Scheme
    const h2Cap: Option<nat>
    const shaper: EarlyShape.EarlyShaper?

    ghost predicate Valid()
      reads this, shaper
    {
      && scheme.Valid()
      && (h2Cap.Some? ==> h2Cap == C.H2UplinkCap(scheme))
      && (shaper != null && shaper.coversPending ==> scheme.Enabled())
    }

    /** The window's limits and the coin are the draws of the session. */
    constructor (scheme: P.Scheme, capsH2: bool, shapes: bool, msgs: nat, bytes: nat, coin: bool)
      requires scheme.Valid() && 6 <= msgs <= 10 && 16 * 1024 <= bytes <= 24 * 1024
      ensures Valid() && this.scheme == scheme && (shaper != null ==> fresh(shaper))
      ensures h2Cap == if capsH2 then C.H2UplinkCap(scheme) else None
      ensures shaper != null <==> shapes
      ensures shapes ==> shaper.direction == EarlyShape.ClientToServer
                         && shaper.View() == EarlyShape.Window(msgs, bytes, scheme.Enabled() && coin)
    {
      this.scheme := scheme;
      h2Cap := if capsH2 then C.H2UplinkCap(scheme) else None;
      if shapes {
        shaper := new EarlyShape.EarlyShaper(EarlyShape.ClientToServer, scheme.Enabled(), msgs, bytes, coin);
      } else {
        shaper := null;
      }
    }

    /**
     Shaped while the window is open, capped on h2, one message otherwise: always a cut
     of the frame, behind the plan's covers and in pieces of the planned lengths.
     */
    method MessagesOf(data: seq<Byte>, draw: nat -> nat, noise: nat -> Byte, pads: nat -> seq<Byte>)
      returns (msgs: seq<seq<Byte>>, ghost plan: EarlyShape.Plan, ghost pieces: seq<seq<Byte>>)
      requires Valid() && C.AllPads(scheme, pads)
      modifies shaper
      ensures Valid()
      ensures shaper == null ==> plan == EarlyShape.Plan([], [|data|])
      ensures shaper != null ==> EarlyShape.Fits(shaper.direction, old(shaper.View()), |data|, plan)
                                 && shaper.View() == EarlyShape.After(shaper.direction, old(shaper.View()), |data|)
      ensures |plan.covers| <= |msgs|
              && C.CarriesPieces(scheme, data, msgs[|plan.covers|..], pieces, C.PlannedLens(plan, h2Cap))
              && C.AllFramed(scheme, msgs[|plan.covers|..], pieces, pads)
      ensures C.IsCut(scheme, data, msgs)
      ensures h2Cap.Some? ==> C.AllFitOneRecord(msgs)
    {
      hide C.IsCut, C.Delivers, C.Framed, C.CutPieces, EarlyShape.PiecesFit, EarlyShape.Sum, C.FitsOneRecord, C.PieceCount,
           C.CarriesPieces, C.AllFramed, C.EvenPieceLens;
      if shaper != null && shaper.msgsLeft > 0 && shaper.bytesLeft > 0 {
        ghost var w := shaper.View();
        msgs, plan, pieces := C.ShapedMessages(scheme, shaper, data, h2Cap, draw, noise, pads);
        C.PlanCovers(shaper.direction, w, |data|, plan);
        return;
      }
      plan := EarlyShape.Plan([], [|data|]);
      EarlyShape.SumOne(|data|);
      WholePlan(|data|, h2Cap);
      if h2Cap.Some? && |data| > h2Cap.value {
        msgs, pieces := C.H2CappedMessages(scheme, h2Cap.value, data, pads);
        assert msgs[0..] == msgs;
        return;
      }
      var payload := data;
      if scheme.Enabled() {
        payload := C.FramePayloadInto(scheme, data, pads(0), []);
        assert payload == [] + C.Framed(data, pads(0)) == C.Framed(data, pads(0));
      }
      msgs, pieces := [payload], [data];
      assert msgs[0..] == msgs;
      OneMessage(scheme, data, pads);
      if h2Cap.Some? { C.CappedFitsOneRecord(scheme, data, pads(0)); }
    }
  }

  /** A frame that is not shaped is cut to the cap, if it is longer. */
  lemma WholePlan(len: nat, h2Cap: Option<nat>)
    ensures var lens := C.PlannedLens(EarlyShape.Plan([], [len]), h2Cap);
            if h2Cap.Some? && len > h2Cap.value then lens == C.EvenPieceLens(len, h2Cap.value) else lens == [len]
  {
    hide C.EvenPieceLens, C.CutPieces, C.PieceCount, EarlyShape.Sum;
    if h2Cap.Some? {
      C.EvenPieces(len, h2Cap.value);
      C.CutOne(len, h2Cap.value);
    }
  }

  lemma OneMessage(scheme: P.Scheme, data: seq<Byte>, pads: nat -> seq<Byte>)
    requires scheme.Valid() && C.AllPads(scheme, pads)
    ensures var msgs := [C.Message(scheme, data, pads(0))];
            && C.IsCut(scheme, data, msgs)
            && C.CarriesPieces(scheme, data, msgs, [data], [|data|]) && C.AllFramed(scheme, msgs, [data], pads)
  {
    hide C.Delivers, C.Message;
    C.MessageDelivers(scheme, data, pads(0));
    JoinedOne(data);
    assert C.AllCarry(scheme, [C.Message(scheme, data, pads(0))], [data]);
  }
}
