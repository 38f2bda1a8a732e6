/**
 The `Sink` producer half of a byte-budgeted queue: a frame is staged without
 waiting and driven into the queue by polls, first its permits and then a slot.

 The permits of an unfinished acquisition stay with the parked request across
 polls; permits given back go to that request before they become free.
 */
module CarrierSink {
  import opened Wrappers
  import CarrierQueue

  const BUDGET: nat := CarrierQueue.CARRIER_QUEUE_BYTES

  /** A frame of so many bytes and the permits it is charged. */
  datatype Charged<T> = Charged(item: T, bytes: nat, permits: nat)

  /** A parked acquisition: permits wanted and permits already assigned to it. */
  datatype Acquire = Acquire(wanted: nat, granted: nat)

  datatype Poll = Ready | QueueClosed | Pending

  datatype Channel<T> = Channel(
    free: nat,
    parked: Option<Acquire>,
    pending: Option<Charged<T>>,  // staged frame and the permits it asks for
    permit: Option<nat>,          // permits acquired for `pending`
    queue: seq<Charged<T>>,
    closed: bool,                 // the sink closed its half
    receiverGone: bool,
    inHand: seq<Charged<T>>,      // frames received, permits still held
    received: seq<Charged<T>>,    // every frame the consumer ever took
    staged: seq<Charged<T>>,      // every frame ever staged
    enqueued: seq<Charged<T>>)    // every frame ever put in the queue

  // ── Sums ───────────────────────────────────────────────────────────────────

  function Total<T>(qs: seq<Charged<T>>): nat {
    if qs == [] then 0 else Total(qs[..|qs| - 1]) + qs[|qs| - 1].permits
  }

  lemma {:induction false} TotalSplit<T>(qs: seq<Charged<T>>, i: nat)
    requires i < |qs|
    ensures Total(qs) == qs[i].permits + Total(qs[..i] + qs[i + 1..])
  {
    var n := |qs| - 1;
    if i == n {
      assert qs[..i] + qs[i + 1..] == qs[..n];
    } else {
      TotalSplit(qs[..n], i);
      assert (qs[..i] + qs[i + 1..])[..n - 1] == qs[..n][..i] + qs[..n][i + 1..];
    }
  }

  lemma TotalSnoc<T>(qs: seq<Charged<T>>, q: Charged<T>)
    ensures Total(qs + [q]) == Total(qs) + q.permits
  {
    assert (qs + [q])[..|qs|] == qs;
  }

  function Assigned(parked: Option<Acquire>): nat {
    if parked.Some? then parked.value.granted else 0
  }

  function Acquired(permit: Option<nat>): nat {
    if permit.Some? then permit.value else 0
  }

  // ── The semaphore ──────────────────────────────────────────────────────────

  /** Permits come back: the parked request is served first. */
  function GiveBack<T>(c: Channel<T>, k: nat): Channel<T> {
    if c.parked.Some? && c.parked.value.granted < c.parked.value.wanted then
      var missing := c.parked.value.wanted - c.parked.value.granted;
      var given := if k < missing then k else missing;
      c.(parked := Some(Acquire(c.parked.value.wanted, c.parked.value.granted + given)), free := c.free + k - given)
    else c.(free := c.free + k)
  }

  /** One poll for `wanted` permits; a parked request for another number is dropped first. */
  function PollAcquire<T>(c: Channel<T>, wanted: nat): Channel<T> {
    var stale := c.parked.Some? && c.parked.value.wanted != wanted;
    var free := if stale then c.free + c.parked.value.granted else c.free;
    var got := if stale || c.parked.None? then 0 else c.parked.value.granted;
    if got + free >= wanted then
      if got >= wanted then c.(free := free, parked := None, permit := Some(got))
      else c.(free := free - (wanted - got), parked := None, permit := Some(wanted))
    else c.(free := 0, parked := Some(Acquire(wanted, got + free)))
  }

  // ── Operations ─────────────────────────────────────────────────────────────

  function Staged<T>(c: Channel<T>, item: T, bytes: nat): Channel<T> {
    var q := Charged(item, bytes, CarrierQueue.PermitsFor(bytes));
    c.(pending := Some(q), staged := c.staged + [q])
  }

  /** Permits in hand: a slot, or the reason there is none. */
  function Enqueued<T>(c: Channel<T>): (Channel<T>, Poll)
    requires c.pending.Some? && c.permit.Some?
  {
    if c.closed || c.receiverGone then (c, QueueClosed)
    else if |c.queue| >= CarrierQueue.CARRIER_QUEUE_SLOTS then (c, Pending)
    else
      var q := c.pending.value.(permits := c.permit.value);
      (c.(queue := c.queue + [q], enqueued := c.enqueued + [q], pending := None, permit := None), Ready)
  }

  function Flushed<T>(c: Channel<T>): (Channel<T>, Poll) {
    if c.pending.None? then (c, Ready)
    else
      var d := if c.permit.None? then PollAcquire(c, c.pending.value.permits) else c;
      if d.permit.None? then (d, Pending) else Enqueued(d)
  }

  function Closed<T>(c: Channel<T>): Channel<T> {
    GiveBack(c, Acquired(c.permit)).(pending := None, permit := None, closed := true)
  }

  function Received<T>(c: Channel<T>): Channel<T> {
    if c.queue == [] || c.receiverGone then c
    else c.(queue := c.queue[1..], inHand := c.inHand + [c.queue[0]], received := c.received + [c.queue[0]])
  }

  function Released<T>(c: Channel<T>, i: nat): Channel<T>
    requires i < |c.inHand|
  {
    GiveBack(c, c.inHand[i].permits).(inHand := c.inHand[..i] + c.inHand[i + 1..])
  }

  function ReceiverDropped<T>(c: Channel<T>): Channel<T> {
    GiveBack(c, Total(c.queue)).(queue := [], receiverGone := true)
  }

  // ── What every operation keeps ─────────────────────────────────────────────

  /** Every permit is free, assigned, acquired, queued or with the consumer. */
  predicate Conserved<T>(c: Channel<T>) {
    c.free + Assigned(c.parked) + Acquired(c.permit) + Total(c.queue) + Total(c.inHand) == BUDGET
  }

  /** The staged frame is charged at most once, and waits only for permits that exist. */
  predicate ChargedOnce<T>(c: Channel<T>) {
    && (c.permit.Some? ==> c.pending.Some? && c.parked.None? && c.permit.value == c.pending.value.permits)
    && (c.parked.Some? ==> c.parked.value.granted <= c.parked.value.wanted <= BUDGET)
    && (c.parked.Some? && c.parked.value.granted < c.parked.value.wanted ==> c.free == 0)
    && (c.pending.Some? ==> 1 <= c.pending.value.permits <= BUDGET)
  }

  function PendingPart<T>(c: Channel<T>): seq<Charged<T>> {
    if c.pending.Some? then [c.pending.value] else []
  }

  /** Frames enter and leave the queue in the order staged, each at most once, each with its own charge. */
  ghost predicate InOrder<T>(c: Channel<T>) {
    && c.received <= c.enqueued <= c.staged
    && (!c.closed ==> c.enqueued + PendingPart(c) == c.staged)
    && (!c.receiverGone ==> c.received + c.queue == c.enqueued)
    && (forall q :: q in c.inHand ==> q in c.received)
    && |c.queue| <= CarrierQueue.CARRIER_QUEUE_SLOTS
  }

  /** One permit per byte; an empty frame counts as one byte and an oversized one takes the whole budget. */
  predicate Fair<T>(q: Charged<T>) {
    && (1 <= q.bytes <= BUDGET ==> q.permits == q.bytes)
    && (q.bytes == 0 ==> q.permits == 1)
    && (q.bytes > BUDGET ==> q.permits == BUDGET)
  }

  predicate AllFair<T>(qs: seq<Charged<T>>) {
    forall i :: 0 <= i < |qs| ==> Fair(qs[i])
  }

  predicate FairlyCharged<T>(c: Channel<T>) {
    (c.pending.Some? ==> Fair(c.pending.value)) && AllFair(c.queue) && AllFair(c.inHand)
  }

  ghost predicate Inv<T>(c: Channel<T>) {
    Conserved(c) && ChargedOnce(c) && InOrder(c) && FairlyCharged(c)
  }

  lemma GiveBackKeeps<T>(c: Channel<T>, k: nat)
    requires ChargedOnce(c)
    ensures var d := GiveBack(c, k);
            && ChargedOnce(d)
            && d == c.(free := d.free, parked := d.parked)
            && d.free + Assigned(d.parked) == c.free + Assigned(c.parked) + k
  {
  }

  lemma PollAcquireKeeps<T>(c: Channel<T>)
    requires ChargedOnce(c) && c.pending.Some? && c.permit.None?
    ensures var d := PollAcquire(c, c.pending.value.permits);
            && ChargedOnce(d)
            && d == c.(free := d.free, parked := d.parked, permit := d.permit)
            && d.free + Assigned(d.parked) + Acquired(d.permit) == c.free + Assigned(c.parked)
            && (d.permit.None? <==> c.free + Assigned(c.parked) < c.pending.value.permits)
            && (d.permit.None? ==> d.parked == Some(Acquire(c.pending.value.permits, c.free + Assigned(c.parked))))
  {
  }

  lemma EnqueuedKeeps<T>(c: Channel<T>)
    requires Inv(c) && c.pending.Some? && c.permit.Some?
    ensures Inv(Enqueued(c).0)
  {
    hide Total;
    TotalSnoc(c.queue, c.pending.value);
    assert c.pending.value.(permits := c.permit.value) == c.pending.value;
  }

  lemma FlushedKeeps<T>(c: Channel<T>)
    requires Inv(c)
    ensures Inv(Flushed(c).0)
  {
    hide Total, PollAcquire, Enqueued;
    if c.pending.Some? {
      if c.permit.None? { PollAcquireKeeps(c); }
      var d := if c.permit.None? then PollAcquire(c, c.pending.value.permits) else c;
      assert Conserved(d) && InOrder(d);
      if d.permit.Some? { EnqueuedKeeps(d); }
    }
  }

  lemma ClosedKeeps<T>(c: Channel<T>)
    requires Inv(c)
    ensures Inv(Closed(c))
  {
    hide Total;
    GiveBackKeeps(c, Acquired(c.permit));
  }

  lemma ReceivedKeeps<T>(c: Channel<T>)
    requires Inv(c)
    ensures Inv(Received(c))
  {
    hide Total;
    if c.queue != [] {
      TotalSplit(c.queue, 0);
      assert c.queue[..0] + c.queue[1..] == c.queue[1..];
      TotalSnoc(c.inHand, c.queue[0]);
    }
  }

  lemma ReleasedKeeps<T>(c: Channel<T>, i: nat)
    requires Inv(c) && i < |c.inHand|
    ensures Inv(Released(c, i))
  {
    hide Total, GiveBack;
    GiveBackKeeps(c, c.inHand[i].permits);
    TotalSplit(c.inHand, i);
  }

  lemma ReceiverDroppedKeeps<T>(c: Channel<T>)
    requires Inv(c)
    ensures Inv(ReceiverDropped(c))
  {
    GiveBackKeeps(c, Total(c.queue));
  }

  // ── What polling means ─────────────────────────────────────────────────────

  /** A request that already has every free permit gets no more. */
  lemma ParkedStays<T>(c: Channel<T>, wanted: nat)
    requires c.parked.Some? && c.parked.value.wanted == wanted && c.parked.value.granted < wanted && c.free == 0
    ensures PollAcquire(c, wanted) == c
  {
  }

  /** However often it is polled, a waiting sink holds at most the charge of its frame, and polling again changes nothing. */
  lemma RepollIsNoOp<T>(c: Channel<T>)
    requires Inv(c) && Flushed(c).1 != Ready
    ensures Flushed(Flushed(c).0) == Flushed(c)
    ensures var d := Flushed(c).0; d.pending == c.pending && Assigned(d.parked) + Acquired(d.permit) <= c.pending.value.permits
    ensures Flushed(c).1 == QueueClosed ==> c.closed || c.receiverGone
  {
    hide Total, PollAcquire, Conserved, InOrder;
    if c.pending.Some? && c.permit.None? {
      PollAcquireKeeps(c);
      var d := PollAcquire(c, c.pending.value.permits);
      if d.permit.None? { ParkedStays(d, c.pending.value.permits); }
    }
  }

  /**
   A poll succeeds exactly when nothing is staged, or permits, an open queue and a slot
   are there; it fails exactly when the permits are there and the queue is not.
   */
  lemma FlushSucceedsIff<T>(c: Channel<T>)
    requires Inv(c)
    ensures Flushed(c).1 == Ready <==>
              c.pending.None?
              || (&& (c.permit.Some? || c.free + Assigned(c.parked) >= c.pending.value.permits)
                  && !c.closed && !c.receiverGone && |c.queue| < CarrierQueue.CARRIER_QUEUE_SLOTS)
    ensures Flushed(c).1 == QueueClosed <==>
              && c.pending.Some? && (c.permit.Some? || c.free + Assigned(c.parked) >= c.pending.value.permits)
              && (c.closed || c.receiverGone)
    ensures Flushed(c).1 == Ready && c.pending.Some? ==>
              var d := Flushed(c).0;
              d.queue == c.queue + [c.pending.value] && d.enqueued == c.enqueued + [c.pending.value] && d.pending.None?
  {
    hide Total, PollAcquire;
    if c.pending.Some? && c.permit.None? { PollAcquireKeeps(c); }
  }

  /** A frame of any size goes out once the consumer has caught up: no frame waits for permits that cannot exist. */
  lemma CaughtUpFlushes<T>(c: Channel<T>)
    requires Inv(c) && !c.closed && !c.receiverGone && c.queue == [] && c.inHand == []
    ensures Flushed(c).1 == Ready
  {
    FlushSucceedsIff(c);
  }

  /** Budget before slot: a sink that waits for permits has taken no slot, one that waits for a slot has its permits. */
  lemma BudgetBeforeSlot<T>(c: Channel<T>)
    requires Inv(c) && Flushed(c).1 == Pending
    ensures var d := Flushed(c).0;
            && d.queue == c.queue
            && (d.permit.Some? ==> |c.queue| == CarrierQueue.CARRIER_QUEUE_SLOTS)
            && (d.permit.None? ==> d.free == 0)
  {
    hide Total;
  }

  /** Closing with everything consumed gives the whole budget back, but for what a parked request still holds. */
  lemma ClosedReturnsPermits<T>(c: Channel<T>)
    requires Inv(c) && c.queue == [] && c.inHand == []
    ensures Closed(c).free + Assigned(Closed(c).parked) == BUDGET
    ensures Closed(c).pending.None? && Closed(c).permit.None?
    ensures c.permit.Some? ==> Closed(c).free == BUDGET
  {
    ClosedKeeps(c);
  }

  // ── Every run ──────────────────────────────────────────────────────────────

  datatype Step<T> = Stage(item: T, bytes: nat) | Flush | Close | Recv | Release(i: nat) | DropReceiver

  /** Staging over a staged frame is ruled out by the `Sink` contract. */
  predicate Enabled<T>(c: Channel<T>, step: Step<T>) {
    (step.Stage? ==> c.pending.None?) && (step.Release? ==> step.i < |c.inHand|)
  }

  function Do<T>(c: Channel<T>, step: Step<T>): Channel<T>
    requires Enabled(c, step)
  {
    match step
    case Stage(item, bytes) => Staged(c, item, bytes)
    case Flush => Flushed(c).0
    case Close => Closed(c)
    case Recv => Received(c)
    case Release(i) => Released(c, i)
    case DropReceiver => ReceiverDropped(c)
  }

  function Run<T>(c: Channel<T>, steps: seq<Step<T>>): Option<Channel<T>>
    decreases |steps|
  {
    if steps == [] then Some(c)
    else if Enabled(c, steps[0]) then Run(Do(c, steps[0]), steps[1..])
    else None
  }

  function New<T>(): Channel<T> {
    Channel(BUDGET, None, None, None, [], false, false, [], [], [], [])
  }

  lemma StagedKeeps<T>(c: Channel<T>, item: T, bytes: nat)
    requires Inv(c) && c.pending.None?
    ensures Inv(Staged(c, item, bytes))
  {
  }

  lemma {:induction false} RunKeeps<T>(c: Channel<T>, steps: seq<Step<T>>)
    requires Inv(c)
    ensures Run(c, steps).Some? ==> Inv(Run(c, steps).value)
    decreases |steps|
  {
    hide Inv, Flushed, Closed, Received, Released, ReceiverDropped, Staged;
    if steps != [] && Enabled(c, steps[0]) {
      match steps[0] {
        case Stage(item, bytes) => StagedKeeps(c, item, bytes);
        case Flush => FlushedKeeps(c);
        case Close => ClosedKeeps(c);
        case Recv => ReceivedKeeps(c);
        case Release(i) => ReleasedKeeps(c, i);
        case DropReceiver => ReceiverDroppedKeeps(c);
      }
      RunKeeps(Do(c, steps[0]), steps[1..]);
    }
  }

  // ── What the runs amount to ────────────────────────────────────────────────

  /** What a run was asked to send: item and size of every frame staged, in order. */
  function Asked<T>(steps: seq<Step<T>>): seq<(T, nat)> {
    if steps == [] then []
    else (if steps[0].Stage? then [(steps[0].item, steps[0].bytes)] else []) + Asked(steps[1..])
  }

  function Sizes<T>(qs: seq<Charged<T>>): seq<(T, nat)> {
    seq(|qs|, i requires 0 <= i < |qs| => (qs[i].item, qs[i].bytes))
  }

  lemma SizesSnoc<T>(qs: seq<Charged<T>>, q: Charged<T>)
    ensures Sizes(qs + [q]) == Sizes(qs) + [(q.item, q.bytes)]
  {
  }

  lemma StepStages<T>(c: Channel<T>, step: Step<T>)
    requires Inv(c) && Enabled(c, step)
    ensures Sizes(Do(c, step).staged) == Sizes(c.staged) + (if step.Stage? then [(step.item, step.bytes)] else [])
    ensures AllFair(c.staged) ==> AllFair(Do(c, step).staged)
  {
    hide Total, Conserved, InOrder, FairlyCharged;
    if step.Stage? {
      SizesSnoc(c.staged, Charged(step.item, step.bytes, CarrierQueue.PermitsFor(step.bytes)));
    } else {
      assert Sizes(c.staged) + [] == Sizes(c.staged);
    }
  }

  lemma {:induction false} RunStages<T>(c: Channel<T>, steps: seq<Step<T>>)
    requires Inv(c) && AllFair(c.staged) && Run(c, steps).Some?
    ensures Sizes(Run(c, steps).value.staged) == Sizes(c.staged) + Asked(steps) && AllFair(Run(c, steps).value.staged)
    decreases |steps|
  {
    hide Inv, Do, Enabled, Sizes, AllFair;
    if steps == [] {
      assert Sizes(c.staged) + [] == Sizes(c.staged);
    } else {
      var one := if steps[0].Stage? then [(steps[0].item, steps[0].bytes)] else [];
      StepStages(c, steps[0]);
      RunKeeps(c, [steps[0]]);
      assert Run(c, [steps[0]]) == Some(Do(c, steps[0])) by { assert [steps[0]][1..] == []; }
      RunStages(Do(c, steps[0]), steps[1..]);
      assert (Sizes(c.staged) + one) + Asked(steps[1..]) == Sizes(c.staged) + (one + Asked(steps[1..]));
    }
  }

  /**
   In every run permits are conserved; the frames staged are the ones asked for, each
   charged by its size; and they enter the queue and reach the consumer in that order,
   once, each with its charge.
   */
  lemma EveryRun<T>(steps: seq<Step<T>>)
    ensures Run(New<T>(), steps).Some? ==>
              var c := Run(New<T>(), steps).value;
              && Conserved(c) && Sizes(c.staged) == Asked(steps) && AllFair(c.staged)
              && c.received <= c.enqueued <= c.staged
              && (!c.closed ==> c.enqueued + PendingPart(c) == c.staged)
              && (!c.receiverGone ==> c.received + c.queue == c.enqueued)
  {
    hide Run;
    RunKeeps(New<T>(), steps);
    if Run(New<T>(), steps).Some? {
      RunStages(New<T>(), steps);
      assert Sizes<T>([]) == [];
      assert [] + Asked(steps) == Asked(steps);
    }
  }

  // ── Memory ─────────────────────────────────────────────────────────────────

  function TotalBytes<T>(qs: seq<Charged<T>>): nat {
    if qs == [] then 0 else TotalBytes(qs[..|qs| - 1]) + qs[|qs| - 1].bytes
  }

  /** The frames that hold permits: waiting for a slot, queued, or with the consumer. */
  function Holding<T>(c: Channel<T>): seq<Charged<T>> {
    c.queue + c.inHand + (if c.permit.Some? then PendingPart(c) else [])
  }

  lemma {:induction false} TotalAppend<T>(a: seq<Charged<T>>, b: seq<Charged<T>>)
    ensures Total(a + b) == Total(a) + Total(b)
  {
    if b == [] {
      assert a + b == a;
    } else {
      var n := |b| - 1;
      TotalAppend(a, b[..n]);
      assert a + b == (a + b[..n]) + [b[n]];
      TotalSnoc(a + b[..n], b[n]);
    }
  }

  lemma {:induction false} BytesWithinPermits<T>(qs: seq<Charged<T>>)
    requires AllFair(qs) && forall i :: 0 <= i < |qs| ==> qs[i].bytes <= BUDGET
    ensures TotalBytes(qs) <= Total(qs)
  {
    if qs != [] { BytesWithinPermits(qs[..|qs| - 1]); }
  }

  lemma {:induction false} EveryFrameCounts<T>(qs: seq<Charged<T>>)
    requires AllFair(qs)
    ensures |qs| <= Total(qs)
  {
    if qs != [] {
      assert Fair(qs[|qs| - 1]);
      EveryFrameCounts(qs[..|qs| - 1]);
    }
  }

  lemma HoldingWithinBudget<T>(c: Channel<T>)
    requires Inv(c)
    ensures AllFair(Holding(c)) && Total(Holding(c)) <= BUDGET
  {
    hide Total;
    TotalAppend(c.queue, c.inHand);
    TotalAppend(c.queue + c.inHand, if c.permit.Some? then PendingPart(c) else []);
    if c.permit.Some? { TotalSnoc([], c.pending.value); assert [] + [c.pending.value] == PendingPart(c); }
    assert Total<T>([]) == 0 by { NoneTotal<T>(); }
  }

  lemma NoneTotal<T>()
    ensures Total<T>([]) == 0
  {
  }

  /** In every run the bytes of the frames that hold permits stay within the budget, or are those of one single larger frame. */
  lemma HeldBytesBounded<T>(steps: seq<Step<T>>)
    requires Run(New<T>(), steps).Some?
    ensures var qs := Holding(Run(New<T>(), steps).value);
            TotalBytes(qs) <= BUDGET || (|qs| == 1 && qs[0].bytes > BUDGET)
  {
    hide Run, Total, Holding;
    assert Inv(New<T>()) by { NoneTotal<T>(); }
    RunKeeps(New<T>(), steps);
    var c := Run(New<T>(), steps).value;
    var qs := Holding(c);
    HoldingWithinBudget(c);
    if i :| 0 <= i < |qs| && qs[i].bytes > BUDGET {
      TotalSplit(qs, i);
      EveryFrameCounts(qs[..i] + qs[i + 1..]);
    } else {
      BytesWithinPermits(qs);
    }
  }

  // ── After closing ──────────────────────────────────────────────────────────

  lemma StepAfterClose<T>(c: Channel<T>, step: Step<T>)
    requires c.closed && Enabled(c, step)
    ensures Do(c, step).closed && Do(c, step).enqueued == c.enqueued
  {
    hide Total;
  }

  /** Closing drops the staged frame for good: nothing is enqueued afterwards. */
  lemma {:induction false} NothingAfterClose<T>(c: Channel<T>, steps: seq<Step<T>>)
    requires Run(Closed(c), steps).Some?
    ensures Run(Closed(c), steps).value.enqueued == c.enqueued
  {
    hide Run, Closed;
    CloseCloses(c);
    ClosedRun(Closed(c), steps);
  }

  lemma CloseCloses<T>(c: Channel<T>)
    ensures Closed(c).closed && Closed(c).enqueued == c.enqueued
  {
  }

  lemma {:induction false} ClosedRun<T>(c: Channel<T>, steps: seq<Step<T>>)
    requires c.closed && Run(c, steps).Some?
    ensures Run(c, steps).value.enqueued == c.enqueued
    decreases |steps|
  {
    hide Enabled, Do;
    if steps != [] {
      StepAfterClose(c, steps[0]);
      ClosedRun(Do(c, steps[0]), steps[1..]);
    }
  }

  // ── The object ─────────────────────────────────────────────────────────────

  /** The sink together with its semaphore and channel. */
  class BudgetedSink<T> {
    var free: nat
    var parked: Option<Acquire>
    var pending: Option<Charged<T>>
    var permit: Option<nat>
    var queue: seq<Charged<T>>
    var closed: bool
    var receiverGone: bool
    ghost var inHand: seq<Charged<T>>
    ghost var received: seq<Charged<T>>
    ghost var staged: seq<Charged<T>>
    ghost var enqueued: seq<Charged<T>>

    ghost function State(): Channel<T>
      reads this
    {
      Channel(free, parked, pending, permit, queue, closed, receiverGone, inHand, received, staged, enqueued)
    }

    constructor ()
      ensures State() == New<T>() && Inv(State())
    {
      free, parked, pending, permit, queue := BUDGET, None, None, None, [];
      closed, receiverGone := false, false;
      inHand, received, staged, enqueued := [], [], [], [];
    }

    method Stage(item: T, bytes: nat)
      requires Inv(State()) && pending.None?
      modifies this
      ensures State() == Staged(old(State()), item, bytes) && Inv(State())
    {
      StagedKeeps(State(), item, bytes);
      pending := Some(Charged(item, bytes, CarrierQueue.PermitsFor(bytes)));
      staged := staged + [pending.value];
    }

    /** One poll of the semaphore for the staged frame. */
    method AcquireMany(wanted: nat)
      requires permit.None?
      modifies `free, `parked, `permit
      ensures State() == PollAcquire(old(State()), wanted)
    {
      var got := 0;
      if parked.Some? {
        if parked.value.wanted == wanted {
          got := parked.value.granted;
        } else {
          free := free + parked.value.granted;
        }
        parked := None;
      }
      if got < wanted {
        var take := if free < wanted - got then free else wanted - got;
        free, got := free - take, got + take;
      }
      if got >= wanted {
        permit := Some(got);
      } else {
        parked := Some(Acquire(wanted, got));
      }
    }

    method PollFlushQueue() returns (r: Poll)
      requires Inv(State())
      modifies this
      ensures (State(), r) == Flushed(old(State())) && Inv(State())
    {
      hide Total, PollAcquire, Conserved, ChargedOnce, InOrder, FairlyCharged;
      FlushedKeeps(State());
      if pending.None? { return Ready; }
      if permit.None? {
        AcquireMany(pending.value.permits);
        if permit.None? { return Pending; }
      }
      if closed || receiverGone { return QueueClosed; }
      if |queue| >= CarrierQueue.CARRIER_QUEUE_SLOTS { return Pending; }
      var q := pending.value.(permits := permit.value);
      pending, permit := None, None;
      queue, enqueued := queue + [q], enqueued + [q];
      return Ready;
    }

    method Close()
      requires Inv(State())
      modifies this
      ensures State() == Closed(old(State())) && Inv(State())
    {
      ClosedKeeps(State());
      pending := None;
      if permit.Some? {
        free, permit := free + permit.value, None;
      }
      closed := true;
    }
  }
}
