/**
 A byte-budgeted carrier queue and the WebSocket writer that drains it, as an
 interleaving of atomic steps: any number of producers that acquire one permit
 per byte and then a queue slot, a control channel with priority, idle cover
 frames, and a writer that gives a frame's permits back after writing it.

 Permits are granted in the order of the requests and may reach the front
 request a few at a time. A producer may give up (its future is dropped) and the
 writer may be aborted at any point.
 */
module CarrierQueue {
  import opened Bits
  import opened Wrappers

  const CARRIER_QUEUE_BYTES: nat := 4 * 1024 * 1024
  const CARRIER_QUEUE_SLOTS: nat := 256
  const WS_CTRL_CHANNEL_CAPACITY: nat := 8

  datatype Frame = Binary(payload: seq<Byte>) | Close

  /** A frame with the permits it holds; a request still being granted holds some of its charge. */
  datatype Queued = Queued(frame: Frame, permits: nat)

  datatype Why = QueueEnded | CloseTaken | WriteFailed | Aborted

  datatype Writer =
    | Idle
    | Writing(q: Queued)
    | Written(q: Queued) // on the wire, permits not yet given back
    | Exited(why: Why)

  datatype Wire = Data(frame: Frame) | Ctrl(id: nat) | Cover | CloseFrame

  datatype State = State(
    free: nat,
    waiters: seq<Queued>,  // producers waiting for permits, first come first served
    holders: seq<Queued>,  // producers with their permits, waiting for a slot
    queue: seq<Queued>,
    writer: Writer,
    senders: bool,         // some sending half is alive
    ctrl: seq<nat>,
    ctrlSenders: bool,
    ctrlOpen: bool,
    sent: seq<Frame>,      // every frame ever enqueued, in order
    wire: seq<Wire>)       // everything written, in order

  datatype Step =
    | Send(payload: seq<Byte>)
    | SendControl
    | Grant(k: nat)
    | Acquired
    | Enqueue(i: nat)
    | CancelWaiter(i: nat)
    | CancelHolder(i: nat)
    | Reject(i: nat)
    | DropSenders
    | Ping(id: nat)
    | DropCtrlSenders
    | WriteCtrl(ok: bool)
    | CtrlEnds
    | Take
    | TakeClose(ok: bool)
    | Write(ok: bool)
    | Release
    | QueueEnds(ok: bool)
    | WriteCover(ok: bool)
    | Abort

  // ── Charging ───────────────────────────────────────────────────────────────

  /** One permit per byte, at least one, and never more than exist. */
  function PermitsFor(bytes: nat): (p: nat)
    ensures 1 <= p <= CARRIER_QUEUE_BYTES
    ensures p == bytes || (bytes == 0 && p == 1) || (bytes > p && p == CARRIER_QUEUE_BYTES)
  {
    if bytes < 1 then 1 else if bytes > CARRIER_QUEUE_BYTES then CARRIER_QUEUE_BYTES else bytes
  }

  /** Control frames are not charged. */
  function Charge(f: Frame): nat {
    if f.Binary? then PermitsFor(|f.payload|) else 0
  }

  function Total(qs: seq<Queued>): nat {
    if qs == [] then 0 else qs[0].permits + Total(qs[1..])
  }

  function InFlight(w: Writer): seq<Queued> {
    if w.Writing? || w.Written? then [w.q] else []
  }

  // ── Steps ──────────────────────────────────────────────────────────────────

  predicate Running(s: State) { !s.writer.Exited? }

  /** The control arm of the biased select is ready. */
  predicate CtrlReady(s: State) {
    s.ctrlOpen && (s.ctrl != [] || !s.ctrlSenders)
  }

  /** The data arm is ready: a frame, or the end of a queue nobody can send to. */
  predicate DataReady(s: State) {
    s.queue != [] || !s.senders
  }

  predicate Enabled(s: State, step: Step) {
    match step
    case Send(_) => s.senders
    case SendControl => s.senders
    case Grant(k) => s.waiters != [] && 0 < k <= s.free && s.waiters[0].permits + k <= Charge(s.waiters[0].frame)
    case Acquired => s.waiters != [] && s.waiters[0].permits == Charge(s.waiters[0].frame)
    case Enqueue(i) => i < |s.holders| && Running(s) && |s.queue| < CARRIER_QUEUE_SLOTS
    case CancelWaiter(i) => i < |s.waiters|
    case CancelHolder(i) => i < |s.holders|
    case Reject(i) => i < |s.holders| && !Running(s)
    case DropSenders => s.senders && s.waiters == [] && s.holders == []
    case Ping(_) => s.ctrlSenders && |s.ctrl| < WS_CTRL_CHANNEL_CAPACITY
    case DropCtrlSenders => s.ctrlSenders
    case WriteCtrl(_) => s.writer.Idle? && s.ctrlOpen && s.ctrl != []
    case CtrlEnds => s.writer.Idle? && s.ctrlOpen && s.ctrl == [] && !s.ctrlSenders
    case Take => s.writer.Idle? && !CtrlReady(s) && s.queue != [] && s.queue[0].frame.Binary?
    case TakeClose(_) => s.writer.Idle? && !CtrlReady(s) && s.queue != [] && s.queue[0].frame.Close?
    case Write(_) => s.writer.Writing?
    case Release => s.writer.Written?
    case QueueEnds(_) => s.writer.Idle? && !CtrlReady(s) && s.queue == [] && !s.senders
    case WriteCover(_) => s.writer.Idle? && !CtrlReady(s) && !DataReady(s)
    case Abort => Running(s)
  }

  /** The writer returns: its queue and the frame in its hands are dropped with their permits. */
  function Exit(s: State, why: Why, wire: seq<Wire>): State {
    s.(free := s.free + Total(s.queue) + Total(InFlight(s.writer)), queue := [], writer := Exited(why), wire := wire)
  }

  function Without(qs: seq<Queued>, i: nat): seq<Queued>
    requires i < |qs|
  {
    qs[..i] + qs[i + 1..]
  }

  function Closing(s: State, ok: bool): seq<Wire> {
    if ok then s.wire + [CloseFrame] else s.wire
  }

  function Do(s: State, step: Step): State
    requires Enabled(s, step)
  {
    match step
    case Send(payload) => s.(waiters := s.waiters + [Queued(Binary(payload), 0)])
    case SendControl => s.(holders := s.holders + [Queued(Close, 0)])
    case Grant(k) =>
      var w := s.waiters[0];
      s.(free := s.free - k, waiters := [w.(permits := w.permits + k)] + s.waiters[1..])
    case Acquired => s.(waiters := s.waiters[1..], holders := s.holders + [s.waiters[0]])
    case Enqueue(i) =>
      s.(holders := Without(s.holders, i), queue := s.queue + [s.holders[i]], sent := s.sent + [s.holders[i].frame])
    case CancelWaiter(i) => s.(free := s.free + s.waiters[i].permits, waiters := Without(s.waiters, i))
    case CancelHolder(i) => s.(free := s.free + s.holders[i].permits, holders := Without(s.holders, i))
    case Reject(i) => s.(free := s.free + s.holders[i].permits, holders := Without(s.holders, i))
    case DropSenders => s.(senders := false)
    case Ping(id) => s.(ctrl := s.ctrl + [id])
    case DropCtrlSenders => s.(ctrlSenders := false)
    case WriteCtrl(ok) =>
      if ok then s.(ctrl := s.ctrl[1..], wire := s.wire + [Ctrl(s.ctrl[0])]) else Exit(s, WriteFailed, s.wire)
    case CtrlEnds => s.(ctrlOpen := false)
    case Take => s.(queue := s.queue[1..], writer := Writing(s.queue[0]))
    case TakeClose(ok) => Exit(s, CloseTaken, Closing(s, ok))
    case Write(ok) =>
      if ok then s.(writer := Written(s.writer.q), wire := s.wire + [Data(s.writer.q.frame)])
      else Exit(s, WriteFailed, s.wire)
    case Release => s.(free := s.free + s.writer.q.permits, writer := Idle)
    case QueueEnds(ok) => Exit(s, QueueEnded, Closing(s, ok))
    case WriteCover(ok) => if ok then s.(wire := s.wire + [Cover]) else Exit(s, WriteFailed, s.wire)
    case Abort => Exit(s, Aborted, s.wire)
  }

  function Run(s: State, steps: seq<Step>): Option<State>
    decreases |steps|
  {
    if steps == [] then Some(s)
    else if Enabled(s, steps[0]) then Run(Do(s, steps[0]), steps[1..])
    else None
  }

  const Init: State := State(CARRIER_QUEUE_BYTES, [], [], [], Idle, true, [], true, true, [], [])

  // ── Sums ───────────────────────────────────────────────────────────────────

  lemma {:induction false} TotalAppend(a: seq<Queued>, b: seq<Queued>)
    ensures Total(a + b) == Total(a) + Total(b)
  {
    if a == [] {
      assert a + b == b;
    } else {
      assert (a + b)[1..] == a[1..] + b;
      TotalAppend(a[1..], b);
    }
  }

  lemma TotalOne(q: Queued)
    ensures Total([q]) == q.permits
  {
    assert [q][1..] == [];
  }

  lemma TotalWithout(qs: seq<Queued>, i: nat)
    requires i < |qs|
    ensures Total(qs) == Total(Without(qs, i)) + qs[i].permits
  {
    hide Total;
    assert qs == qs[..i] + ([qs[i]] + qs[i + 1..]);
    TotalAppend(qs[..i], [qs[i]] + qs[i + 1..]);
    TotalAppend([qs[i]], qs[i + 1..]);
    TotalAppend(qs[..i], qs[i + 1..]);
    TotalOne(qs[i]);
  }

  lemma TotalHead(qs: seq<Queued>)
    requires qs != []
    ensures Total(qs) == qs[0].permits + Total(qs[1..])
  {
  }

  // ── Conservation ───────────────────────────────────────────────────────────

  /** Free permits and those held by waiting, queued and in-flight frames make up the budget. */
  predicate Conserved(s: State) {
    s.free + Total(s.waiters) + Total(s.holders) + Total(s.queue) + Total(InFlight(s.writer)) == CARRIER_QUEUE_BYTES
  }

  lemma ConservedByProducers(s: State, step: Step)
    requires Conserved(s) && Enabled(s, step)
    requires step.Send? || step.SendControl? || step.Grant? || step.Acquired? || step.Enqueue?
             || step.CancelWaiter? || step.CancelHolder? || step.Reject?
    ensures Conserved(Do(s, step))
  {
    hide Total, PermitsFor;
    match step {
      case Send(p) => TotalAppend(s.waiters, [Queued(Binary(p), 0)]); TotalOne(Queued(Binary(p), 0));
      case SendControl => TotalAppend(s.holders, [Queued(Close, 0)]); TotalOne(Queued(Close, 0));
      case Grant(k) =>
        var w := s.waiters[0];
        TotalHead(s.waiters);
        TotalAppend([w.(permits := w.permits + k)], s.waiters[1..]);
        TotalOne(w.(permits := w.permits + k));
      case Acquired => TotalHead(s.waiters); TotalAppend(s.holders, [s.waiters[0]]); TotalOne(s.waiters[0]);
      case Enqueue(i) => TotalWithout(s.holders, i); TotalAppend(s.queue, [s.holders[i]]); TotalOne(s.holders[i]);
      case CancelWaiter(i) => TotalWithout(s.waiters, i);
      case CancelHolder(i) => TotalWithout(s.holders, i);
      case Reject(i) => TotalWithout(s.holders, i);
    }
  }

  lemma ExitConserves(s: State, why: Why, wire: seq<Wire>)
    requires Conserved(s)
    ensures Conserved(Exit(s, why, wire))
  {
  }

  lemma ConservedByWriter(s: State, step: Step)
    requires Conserved(s) && Enabled(s, step)
    requires !(step.Send? || step.SendControl? || step.Grant? || step.Acquired? || step.Enqueue?
               || step.CancelWaiter? || step.CancelHolder? || step.Reject?)
    ensures Conserved(Do(s, step))
  {
    hide Total, Exit;
    if s.queue != [] { TotalHead(s.queue); TotalOne(s.queue[0]); }
    if InFlight(s.writer) != [] { TotalOne(s.writer.q); }
    NoneTotal();
    forall why, wire { ExitConserves(s, why, wire); }
  }

  lemma NoneTotal()
    ensures Total([]) == 0
  {
  }

  lemma StepConserves(s: State, step: Step)
    requires Conserved(s) && Enabled(s, step)
    ensures Conserved(Do(s, step))
  {
    hide Conserved, Enabled, Do;
    if step.Send? || step.SendControl? || step.Grant? || step.Acquired? || step.Enqueue?
       || step.CancelWaiter? || step.CancelHolder? || step.Reject? {
      ConservedByProducers(s, step);
    } else {
      ConservedByWriter(s, step);
    }
  }

  // ── Charges ────────────────────────────────────────────────────────────────

  predicate FullyCharged(qs: seq<Queued>) {
    forall i :: 0 <= i < |qs| ==> qs[i].permits == Charge(qs[i].frame)
  }

  /** Frames past the permit stage hold their whole charge; only the front request is partly granted. */
  predicate Charged(s: State) {
    && FullyCharged(s.holders) && FullyCharged(s.queue) && FullyCharged(InFlight(s.writer))
    && (forall i :: 0 <= i < |s.waiters| ==> s.waiters[i].frame.Binary?)
    && (forall i :: 1 <= i < |s.waiters| ==> s.waiters[i].permits == 0)
    && (s.waiters != [] ==> s.waiters[0].permits <= Charge(s.waiters[0].frame))
    && (InFlight(s.writer) != [] ==> s.writer.q.frame.Binary?)
    && |s.queue| <= CARRIER_QUEUE_SLOTS
  }

  lemma StepCharges(s: State, step: Step)
    requires Charged(s) && Enabled(s, step)
    ensures Charged(Do(s, step))
  {
    hide Total, PermitsFor, Closing;
    match step {
      case CancelWaiter(_) => CancelCharges(s, step);
      case CancelHolder(_) => CancelCharges(s, step);
      case Reject(_) => CancelCharges(s, step);
      case Enqueue(_) => EnqueueCharges(s, step);
      case WriteCtrl(false) => ExitCharges(s, WriteFailed, s.wire);
      case Write(false) => ExitCharges(s, WriteFailed, s.wire);
      case WriteCover(false) => ExitCharges(s, WriteFailed, s.wire);
      case TakeClose(ok) => ExitCharges(s, CloseTaken, Closing(s, ok));
      case QueueEnds(ok) => ExitCharges(s, QueueEnded, Closing(s, ok));
      case Abort => ExitCharges(s, Aborted, s.wire);
      case Grant(_) => GrantCharges(s, step);
      case Acquired => GrantCharges(s, step);
      case _ =>
    }
  }

  lemma GrantCharges(s: State, step: Step)
    requires Charged(s) && Enabled(s, step) && (step.Grant? || step.Acquired?)
    ensures Charged(Do(s, step))
  {
    hide Total, PermitsFor;
  }

  lemma CancelCharges(s: State, step: Step)
    requires Charged(s) && Enabled(s, step) && (step.CancelWaiter? || step.CancelHolder? || step.Reject?)
    ensures Charged(Do(s, step))
  {
    hide Total, PermitsFor;
  }

  lemma EnqueueCharges(s: State, step: Step)
    requires Charged(s) && Enabled(s, step) && step.Enqueue?
    ensures Charged(Do(s, step))
  {
    hide Total, PermitsFor;
  }

  lemma ExitCharges(s: State, why: Why, wire: seq<Wire>)
    requires Charged(s)
    ensures Charged(Exit(s, why, wire))
  {
  }

  // ── Order ──────────────────────────────────────────────────────────────────

  function DataOf(wire: seq<Wire>): seq<Frame> {
    if wire == [] then []
    else DataOf(wire[..|wire| - 1]) + if wire[|wire| - 1].Data? then [wire[|wire| - 1].frame] else []
  }

  function Frames(qs: seq<Queued>): seq<Frame> {
    seq(|qs|, i requires 0 <= i < |qs| => qs[i].frame)
  }

  lemma DataOfSnoc(wire: seq<Wire>, w: Wire)
    ensures DataOf(wire + [w]) == DataOf(wire) + if w.Data? then [w.frame] else []
  {
    assert (wire + [w])[..|wire|] == wire;
  }

  /** What is enqueued and neither written nor dropped, in order. */
  function Pending(s: State): seq<Frame> {
    (if s.writer.Writing? then [s.writer.q.frame] else []) + Frames(s.queue)
  }

  /**
   The data frames on the wire are a prefix of the enqueued frames: the rest is
   pending while the writer runs; nothing is missing when it ends with the
   queue, and a Close stands right behind them when it ends with a Close.
   */
  predicate Ordered(s: State) {
    match s.writer
    case Exited(QueueEnded) => DataOf(s.wire) == s.sent
    case Exited(CloseTaken) => DataOf(s.wire) + [Close] <= s.sent
    case Exited(_) => DataOf(s.wire) <= s.sent
    case _ => DataOf(s.wire) + Pending(s) == s.sent
  }

  predicate Clean(why: Why) { why == QueueEnded || why == CloseTaken }

  /** A Close on the wire is its last element and the writer has ended cleanly. */
  predicate CloseIsLast(s: State) {
    forall i :: 0 <= i < |s.wire| && s.wire[i].CloseFrame? ==>
      i == |s.wire| - 1 && s.writer.Exited? && Clean(s.writer.why)
  }

  /** A frame whose permits are about to be given back is the last data frame on the wire. */
  predicate WrittenIsOnWire(s: State) {
    s.writer.Written? ==> |DataOf(s.wire)| > 0 && DataOf(s.wire)[|DataOf(s.wire)| - 1] == s.writer.q.frame
  }

  lemma OrderedByEnqueue(s: State, i: nat)
    requires Ordered(s) && Enabled(s, Enqueue(i))
    ensures Ordered(Do(s, Enqueue(i)))
  {
    assert Frames(s.queue + [s.holders[i]]) == Frames(s.queue) + [s.holders[i].frame];
  }

  lemma OrderedByTake(s: State)
    requires Ordered(s) && Enabled(s, Take)
    ensures Ordered(Do(s, Take))
  {
    assert Frames(s.queue) == [s.queue[0].frame] + Frames(s.queue[1..]);
  }

  lemma OrderedByWrite(s: State)
    requires Ordered(s) && s.writer.Writing?
    ensures Ordered(Do(s, Write(true))) && WrittenIsOnWire(Do(s, Write(true)))
  {
    hide DataOf, Frames, Total;
    var d, f := DataOf(s.wire), s.writer.q.frame;
    DataOfSnoc(s.wire, Data(f));
    assert DataOf(s.wire + [Data(f)]) == d + [f];
    assert d + ([f] + Frames(s.queue)) == (d + [f]) + ([] + Frames(s.queue));
  }

  lemma SplitAfter(d: seq<Frame>, p: seq<Frame>)
    ensures d <= d + p && d + [] == d
    ensures p != [] ==> d + [p[0]] <= d + p
  {
    if p != [] {
      assert p == [p[0]] + p[1..];
      assert d + p == (d + [p[0]]) + p[1..];
    }
  }

  lemma OrderedByExit(s: State, why: Why, wire: seq<Wire>)
    requires Ordered(s) && Running(s) && DataOf(wire) == DataOf(s.wire)
    requires why == QueueEnded ==> Pending(s) == []
    requires why == CloseTaken ==> Pending(s) != [] && Pending(s)[0] == Close
    ensures Ordered(Exit(s, why, wire))
  {
    hide DataOf, Frames, Pending, Total;
    SplitAfter(DataOf(s.wire), Pending(s));
  }

  lemma PendingHead(s: State)
    ensures s.queue != [] ==> Pending(s) != [] && Pending(s)[0] == (if s.writer.Writing? then s.writer.q.frame else s.queue[0].frame)
    ensures s.queue == [] && s.writer.Idle? ==> Pending(s) == []
  {
  }

  lemma OrderedByWriter(s: State, step: Step)
    requires Ordered(s) && WrittenIsOnWire(s) && Enabled(s, step)
    requires step.WriteCtrl? || step.WriteCover? || step.TakeClose? || step.QueueEnds? || step.Abort? || (step.Write? && !step.ok)
    ensures Ordered(Do(s, step)) && WrittenIsOnWire(Do(s, step))
  {
    hide DataOf, Frames, Total, Pending;
    if s.ctrl != [] { DataOfSnoc(s.wire, Ctrl(s.ctrl[0])); }
    DataOfSnoc(s.wire, Cover);
    DataOfSnoc(s.wire, CloseFrame);
    PendingHead(s);
    match step {
      case WriteCtrl(true) => assert Pending(Do(s, step)) == Pending(s) by { PendingSame(s, Do(s, step)); }
      case WriteCover(true) => assert Pending(Do(s, step)) == Pending(s) by { PendingSame(s, Do(s, step)); }
      case TakeClose(ok) => OrderedByExit(s, CloseTaken, Closing(s, ok));
      case QueueEnds(ok) => OrderedByExit(s, QueueEnded, Closing(s, ok));
      case Abort => OrderedByExit(s, Aborted, s.wire);
      case _ => OrderedByExit(s, WriteFailed, s.wire);
    }
  }

  lemma PendingSame(s: State, t: State)
    requires s.queue == t.queue && s.writer == t.writer
    ensures Pending(s) == Pending(t)
  {
  }

  /** Steps that leave the writer, the queue and the wire alone. */
  predicate Aside(step: Step) {
    || step.Send? || step.SendControl? || step.Grant? || step.Acquired? || step.CancelWaiter? || step.CancelHolder?
    || step.Reject? || step.DropSenders? || step.Ping? || step.DropCtrlSenders? || step.CtrlEnds?
  }

  lemma AsideKeeps(s: State, step: Step)
    requires Enabled(s, step) && Aside(step)
    ensures var t := Do(s, step); t.queue == s.queue && t.writer == s.writer && t.wire == s.wire && t.sent == s.sent
  {
  }

  lemma OrderedAside(s: State, t: State)
    requires Ordered(s) && WrittenIsOnWire(s)
    requires t.queue == s.queue && t.writer == s.writer && t.wire == s.wire && t.sent == s.sent
    ensures Ordered(t) && WrittenIsOnWire(t)
  {
    hide DataOf, Frames;
  }

  lemma OrderedByRelease(s: State)
    requires Ordered(s) && Enabled(s, Release)
    ensures Ordered(Do(s, Release))
  {
    hide DataOf, Frames;
  }

  lemma StepOrders(s: State, step: Step)
    requires Ordered(s) && WrittenIsOnWire(s) && Enabled(s, step)
    ensures Ordered(Do(s, step)) && WrittenIsOnWire(Do(s, step))
  {
    hide DataOf, Ordered, Enabled, Do, WrittenIsOnWire;
    if Aside(step) {
      AsideKeeps(s, step);
      OrderedAside(s, Do(s, step));
    } else if step.Enqueue? {
      OrderedByEnqueue(s, step.i);
      NotWritten(s, step);
    } else if step.Take? {
      OrderedByTake(s);
      NotWritten(s, step);
    } else if step.Release? {
      OrderedByRelease(s);
      NotWritten(s, step);
    } else if step == Write(true) {
      MustBeWriting(s);
      OrderedByWrite(s);
    } else {
      OrderedByWriter(s, step);
    }
  }

  lemma MustBeWriting(s: State)
    requires Enabled(s, Write(true))
    ensures s.writer.Writing?
  {
  }

  /** Taking, releasing and enqueuing put no new frame between the write and its release. */
  lemma NotWritten(s: State, step: Step)
    requires WrittenIsOnWire(s) && Enabled(s, step) && (step.Enqueue? || step.Take? || step.Release?)
    ensures WrittenIsOnWire(Do(s, step))
  {
    hide DataOf;
  }

  lemma StepClosesLast(s: State, step: Step)
    requires CloseIsLast(s) && Enabled(s, step)
    ensures CloseIsLast(Do(s, step))
  {
    hide Total, PermitsFor, DataOf;
  }

  // ── Every run ──────────────────────────────────────────────────────────────

  /** A send borrows its sending half, so none is under way once the halves are gone; only then does the queue end. */
  predicate QuietWithoutSenders(s: State) {
    && (!s.senders ==> s.waiters == [] && s.holders == [])
    && (s.writer == Exited(QueueEnded) ==> !s.senders)
  }

  predicate Inv(s: State) {
    Conserved(s) && Charged(s) && Ordered(s) && WrittenIsOnWire(s) && CloseIsLast(s) && QuietWithoutSenders(s)
  }

  lemma StepKeeps(s: State, step: Step)
    requires Inv(s) && Enabled(s, step)
    ensures Inv(Do(s, step))
  {
    hide Conserved, Charged, Ordered, WrittenIsOnWire, CloseIsLast, PermitsFor, Total, Closing;
    StepConserves(s, step);
    StepCharges(s, step);
    StepOrders(s, step);
    StepClosesLast(s, step);
  }

  lemma {:induction false} RunKeeps(s: State, steps: seq<Step>)
    requires Inv(s)
    ensures Run(s, steps).Some? ==> Inv(Run(s, steps).value)
    decreases |steps|
  {
    hide Inv, Enabled, Do;
    if steps != [] && Enabled(s, steps[0]) {
      StepKeeps(s, steps[0]);
      RunKeeps(Do(s, steps[0]), steps[1..]);
    }
  }

  ghost predicate Reachable(s: State) {
    exists steps: seq<Step> :: Run(Init, steps) == Some(s)
  }

  lemma ReachableInv(s: State)
    requires Reachable(s)
    ensures Inv(s)
  {
    var steps: seq<Step> :| Run(Init, steps) == Some(s);
    assert Inv(Init);
    RunKeeps(Init, steps);
  }
}
