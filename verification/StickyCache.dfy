/**
 The cache that pins one outbound source address per destination for a time to
 live, bounded by a cap with soonest-to-expire eviction. Calls are atomic, the
 clock is a parameter, and the drawn source is an input.
 */
module StickyCache {
  import opened Wrappers
  import opened Addresses

  datatype Pin = Pin(source: IpAddr, expiresAt: nat)

  type Pins = map<IpAddr, Pin>

  /** What drawing a fresh source yields: an I/O error, an empty pool, or an address. */
  datatype Draw = Failed | EmptyPool | Drawn(source: IpAddr)

  datatype DrawError = DrawFailed

  const U64_MAX: nat := 0xFFFF_FFFF_FFFF_FFFF

  function SaturatingAdd(a: nat, b: nat): nat {
    if a + b <= U64_MAX then a + b else U64_MAX
  }

  function Live(pins: Pins, now: nat): Pins {
    map d | d in pins && pins[d].expiresAt > now :: pins[d]
  }

  ghost predicate Soonest(pins: Pins, d: IpAddr) {
    d in pins && forall x :: x in pins ==> pins[d].expiresAt <= pins[x].expiresAt
  }

  /** Making room: nothing below the cap; else expired pins go, and one soonest-to-expire if that is not enough. */
  ghost predicate MakesRoom(before: Pins, after: Pins, cap: nat, now: nat) {
    if |before| < cap then after == before
    else if |Live(before, now)| < cap then after == Live(before, now)
    else exists d :: Soonest(Live(before, now), d) && after == Live(before, now) - {d}
  }

  datatype Call = Call(dest: IpAddr, now: nat, draw: Draw)

  type Answer = Result<Option<IpAddr>, DrawError>

  /** One call: what it answers and what it leaves pinned. */
  ghost predicate Does(before: Pins, c: Call, after: Pins, r: Answer, ttl: nat, cap: nat) {
    if c.dest in before && before[c.dest].expiresAt > c.now then
      r == Ok(Some(before[c.dest].source)) && after == before
    else match c.draw
      case Failed => r == Err(DrawFailed) && after == before
      case EmptyPool => r == Ok(None) && after == before - {c.dest}
      case Drawn(source) =>
        && r == Ok(Some(source))
        && exists room: Pins :: MakesRoom(before, room, cap, c.now)
             && after == room[c.dest := Pin(source, SaturatingAdd(c.now, ttl))]
  }

  class StickyIpv6Cache {
    var pins: Pins
    const ttl: nat
    const cap: nat

    ghost predicate Valid()
      reads this
    {
      1 <= ttl && 1 <= cap && |pins| <= cap
    }

    constructor (ttl: nat, cap: nat)
      ensures Valid() && pins == map[]
      ensures this.ttl == (if ttl < 1 then 1 else ttl) && this.cap == (if cap < 1 then 1 else cap)
    {
      this.ttl := if ttl < 1 then 1 else ttl;
      this.cap := if cap < 1 then 1 else cap;
      pins := map[];
    }

    method SourceFor(dest: IpAddr, now: nat, draw: Draw) returns (r: Answer)
      requires Valid()
      modifies this
      ensures Valid()
      ensures Does(old(pins), Call(dest, now, draw), pins, r, ttl, cap)
    {
      if dest in pins && pins[dest].expiresAt > now {
        return Ok(Some(pins[dest].source));
      }
      match draw {
        case Failed => return Err(DrawFailed);
        case EmptyPool =>
          SizeWithout(pins, dest);
          pins := pins - {dest};
          return Ok(None);
        case Drawn(source) =>
          EvictIfFull(now);
          ghost var room := pins;
          pins := pins[dest := Pin(source, SaturatingAdd(now, ttl))];
          assert pins == room[dest := Pin(source, SaturatingAdd(now, ttl))];
          return Ok(Some(source));
      }
    }

    method EvictIfFull(now: nat)
      requires Valid()
      modifies this
      ensures MakesRoom(old(pins), pins, cap, now) && |pins| < cap
    {
      if |pins| < cap { return; }
      LiveSize(pins, now);
      pins := map d | d in pins && pins[d].expiresAt > now :: pins[d];
      if |pins| < cap { return; }
      var soonest := FindSoonest(pins);
      SizeWithout(pins, soonest);
      pins := pins - {soonest};
    }
  }

  /** A key with the least expiry, found by scanning the entries in any order. */
  method FindSoonest(pins: Pins) returns (d: IpAddr)
    requires pins != map[]
    ensures Soonest(pins, d)
  {
    d :| d in pins;
    var rest := pins.Keys - {d};
    while rest != {}
      invariant d in pins && rest <= pins.Keys
      invariant forall x :: x in pins && x !in rest ==> pins[d].expiresAt <= pins[x].expiresAt
      decreases |rest|
    {
      var x :| x in rest;
      if pins[x].expiresAt < pins[d].expiresAt { d := x; }
      rest := rest - {x};
    }
  }

  lemma SizeWithout(pins: Pins, d: IpAddr)
    ensures |pins - {d}| == if d in pins then |pins| - 1 else |pins|
  {
    assert (pins - {d}).Keys == pins.Keys - {d};
  }

  lemma LiveSize(pins: Pins, now: nat)
    ensures |Live(pins, now)| <= |pins|
    ensures |Live(pins, now)| == |pins| ==> Live(pins, now) == pins
  {
    var l := Live(pins, now);
    assert pins.Keys == l.Keys + (pins.Keys - l.Keys);
  }

  // ── Runs ───────────────────────────────────────────────────────────────────

  /** `states[i]` before and `states[i + 1]` after the `i`-th call, which answered `answers[i]`. */
  ghost predicate IsRun(states: seq<Pins>, calls: seq<Call>, answers: seq<Answer>, ttl: nat, cap: nat) {
    && |states| == |calls| + 1 && |answers| == |calls|
    && (forall i, j :: 0 <= i < j == i + 1 < |states| ==> Does(states[i], calls[i], states[j], answers[i], ttl, cap))
  }

  /**
   The call draws a source for another destination that has no live pin, finds the
   cache full of live pins and drops the one of `d`, which expires no later than any.
   */
  ghost predicate DropsFromFull(before: Pins, c: Call, after: Pins, d: IpAddr, cap: nat) {
    && c.draw.Drawn? && c.dest != d && !(c.dest in before && before[c.dest].expiresAt > c.now)
    && |Live(before, c.now)| >= cap && Soonest(Live(before, c.now), d) && d !in after
  }

  /** A live pin is gone after a call exactly when it is dropped from a cache full of live pins, and is unchanged otherwise. */
  lemma LivePinSurvives(before: Pins, c: Call, after: Pins, r: Answer, ttl: nat, cap: nat, d: IpAddr)
    requires Does(before, c, after, r, ttl, cap)
    requires d in before && before[d].expiresAt > c.now
    ensures d !in after <==> DropsFromFull(before, c, after, d, cap)
    ensures d in after ==> after[d] == before[d]
    ensures c.dest == d ==> r == Ok(Some(before[d].source))
  {
    if c.dest != d && c.draw.Drawn? && !(c.dest in before && before[c.dest].expiresAt > c.now) {
      var room: Pins :| MakesRoom(before, room, cap, c.now)
        && after == room[c.dest := Pin(c.draw.source, SaturatingAdd(c.now, ttl))];
      assert d in Live(before, c.now);
      if |before| >= cap && |Live(before, c.now)| >= cap {
        var x :| Soonest(Live(before, c.now), x) && room == Live(before, c.now) - {x};
      }
    }
  }

  /**
   Over every run: while the clock has not reached a pin's expiry the pin stays,
   unless one call found the cache full of live pins, this one soonest to expire, and
   dropped it.
   */
  lemma {:induction false} PinnedUntilDropped(states: seq<Pins>, calls: seq<Call>, answers: seq<Answer>,
                                               ttl: nat, cap: nat, d: IpAddr, i: nat, j: nat)
    requires IsRun(states, calls, answers, ttl, cap) && i <= j < |states|
    requires d in states[i] && forall k :: i <= k < j ==> calls[k].now < states[i][d].expiresAt
    ensures (d in states[j] && states[j][d] == states[i][d])
            || exists k :: i <= k < j && d in states[k] && states[k][d] == states[i][d] && DropsFromFull(states[k], calls[k], states[k + 1], d, cap)
  {
    hide Does, DropsFromFull;
    if i < j {
      PinnedUntilDropped(states, calls, answers, ttl, cap, d, i, j - 1);
      if d in states[j - 1] && states[j - 1][d] == states[i][d] {
        LivePinSurvives(states[j - 1], calls[j - 1], states[j], answers[j - 1], ttl, cap, d);
      }
    }
  }

  /** A call for a destination whose pin is live and was never dropped answers the pinned source. */
  lemma SameSourceWhileLive(states: seq<Pins>, calls: seq<Call>, answers: seq<Answer>,
                            ttl: nat, cap: nat, d: IpAddr, i: nat, j: nat)
    requires IsRun(states, calls, answers, ttl, cap) && i <= j < |calls| && calls[j].dest == d
    requires d in states[i] && forall k :: i <= k <= j ==> calls[k].now < states[i][d].expiresAt
    requires forall k :: i <= k < j ==> !DropsFromFull(states[k], calls[k], states[k + 1], d, cap)
    ensures answers[j] == Ok(Some(states[i][d].source))
  {
    hide Does, DropsFromFull;
    PinnedUntilDropped(states, calls, answers, ttl, cap, d, i, j);
    LivePinSurvives(states[j], calls[j], states[j + 1], answers[j], ttl, cap, d);
  }

  /** The cap holds throughout a run that starts within it. */
  lemma {:induction false} CapHolds(states: seq<Pins>, calls: seq<Call>, answers: seq<Answer>, ttl: nat, cap: nat, j: nat)
    requires IsRun(states, calls, answers, ttl, cap) && j < |states| && 1 <= cap && |states[0]| <= cap
    ensures |states[j]| <= cap
  {
    if j > 0 {
      CapHolds(states, calls, answers, ttl, cap, j - 1);
      CapKept(states[j - 1], calls[j - 1], states[j], answers[j - 1], ttl, cap);
    }
  }

  lemma CapKept(before: Pins, c: Call, after: Pins, r: Answer, ttl: nat, cap: nat)
    requires Does(before, c, after, r, ttl, cap) && 1 <= cap && |before| <= cap
    ensures |after| <= cap
  {
    SizeWithout(before, c.dest);
    if c.draw.Drawn? && !(c.dest in before && before[c.dest].expiresAt > c.now) {
      var room: Pins :| MakesRoom(before, room, cap, c.now)
        && after == room[c.dest := Pin(c.draw.source, SaturatingAdd(c.now, ttl))];
      LiveSize(before, c.now);
      if |before| >= cap && |Live(before, c.now)| >= cap {
        var x :| Soonest(Live(before, c.now), x) && room == Live(before, c.now) - {x};
        SizeWithout(Live(before, c.now), x);
      }
      assert |room| < cap;
    }
  }

  // ── The time to live ───────────────────────────────────────────────────────

  /** What a pin drawn at `now` is good for: the time to live, and no reading past the end of the clock. */
  predicate WithinTtl(drawnAt: nat, now: nat, ttl: nat) {
    now < drawnAt + ttl && now < 0xFFFF_FFFF_FFFF_FFFF
  }

  lemma LiveIffWithinTtl(drawnAt: nat, now: nat, ttl: nat)
    ensures SaturatingAdd(drawnAt, ttl) > now <==> WithinTtl(drawnAt, now, ttl)
  {
  }

  lemma PinsAfter(before: Pins, c: Call, after: Pins, r: Answer, ttl: nat, cap: nat, d: IpAddr)
    requires Does(before, c, after, r, ttl, cap) && d in after
    ensures (d in before && after[d] == before[d])
            || (d == c.dest && c.draw.Drawn? && after[d] == Pin(c.draw.source, SaturatingAdd(c.now, ttl)))
  {
    if c.draw.Drawn? && !(c.dest in before && before[c.dest].expiresAt > c.now) {
      var room: Pins :| MakesRoom(before, room, cap, c.now)
        && after == room[c.dest := Pin(c.draw.source, SaturatingAdd(c.now, ttl))];
    }
  }

  /** The `k`-th call drew this source for the destination, and `p` is the pin it left. */
  predicate DrewAt(calls: seq<Call>, k: nat, d: IpAddr, p: Pin, ttl: nat) {
    k < |calls| && calls[k].dest == d && calls[k].draw == Drawn(p.source) && p.expiresAt == SaturatingAdd(calls[k].now, ttl)
  }

  /** Every pin was drawn for its destination by an earlier call. */
  lemma {:induction false} PinOrigin(states: seq<Pins>, calls: seq<Call>, answers: seq<Answer>,
                                      ttl: nat, cap: nat, d: IpAddr, j: nat) returns (k: nat)
    requires IsRun(states, calls, answers, ttl, cap) && states[0] == map[] && j < |states| && d in states[j]
    ensures k < j && DrewAt(calls, k, d, states[j][d], ttl)
  {
    hide Does, SaturatingAdd;
    var i := j - 1;
    PinsAfter(states[i], calls[i], states[j], answers[i], ttl, cap, d);
    if d in states[i] && states[j][d] == states[i][d] {
      k := PinOrigin(states, calls, answers, ttl, cap, d, i);
    } else {
      k := i;
    }
  }

  lemma AnswerFrom(before: Pins, c: Call, after: Pins, r: Answer, ttl: nat, cap: nat)
    requires Does(before, c, after, r, ttl, cap) && r.Ok? && r.value.Some?
    ensures c.draw == Drawn(r.value.value)
            || (c.dest in before && before[c.dest].source == r.value.value && before[c.dest].expiresAt > c.now)
  {
  }

  /**
   In every run from an empty cache an answered source was drawn for that very
   destination, by this call or by one whose time to live has not passed.
   */
  lemma AnswersWithinTtl(states: seq<Pins>, calls: seq<Call>, answers: seq<Answer>, ttl: nat, cap: nat, j: nat)
    returns (k: nat)
    requires IsRun(states, calls, answers, ttl, cap) && states[0] == map[]
    requires j < |calls| && answers[j].Ok? && answers[j].value.Some?
    ensures k <= j && calls[k].dest == calls[j].dest && calls[k].draw == Drawn(answers[j].value.value)
    ensures k < j ==> WithinTtl(calls[k].now, calls[j].now, ttl)
  {
    hide Does, SaturatingAdd;
    AnswerFrom(states[j], calls[j], states[j + 1], answers[j], ttl, cap);
    if calls[j].draw == Drawn(answers[j].value.value) {
      k := j;
    } else {
      k := PinOrigin(states, calls, answers, ttl, cap, calls[j].dest, j);
      LiveIffWithinTtl(calls[k].now, calls[j].now, ttl);
    }
  }

  /**
   And the other way round: a drawn source answers every call for its destination for
   the whole time to live, unless it is dropped from a cache full of live pins.
   */
  lemma StickyForTtl(states: seq<Pins>, calls: seq<Call>, answers: seq<Answer>, ttl: nat, cap: nat, i: nat, j: nat)
    requires IsRun(states, calls, answers, ttl, cap) && i < j < |calls| && calls[j].dest == calls[i].dest
    requires calls[i].draw.Drawn? && answers[i] == Ok(Some(calls[i].draw.source))
    requires !(calls[i].dest in states[i] && states[i][calls[i].dest].expiresAt > calls[i].now)
    requires forall k :: i < k <= j ==> WithinTtl(calls[i].now, calls[k].now, ttl)
    requires forall k :: i < k < j ==> !DropsFromFull(states[k], calls[k], states[k + 1], calls[i].dest, cap)
    ensures answers[j] == answers[i]
  {
    hide DropsFromFull, WithinTtl, SaturatingAdd;
    var d, m := calls[i].dest, i + 1;
    DrawPins(states[i], calls[i], states[m], answers[i], ttl, cap);
    hide Does;
    forall k | i < k <= j ensures calls[k].now < states[m][d].expiresAt { LiveIffWithinTtl(calls[i].now, calls[k].now, ttl); }
    SameSourceWhileLive(states, calls, answers, ttl, cap, d, m, j);
  }

  lemma DrawPins(before: Pins, c: Call, after: Pins, r: Answer, ttl: nat, cap: nat)
    requires Does(before, c, after, r, ttl, cap) && c.draw.Drawn?
    requires !(c.dest in before && before[c.dest].expiresAt > c.now)
    ensures c.dest in after && after[c.dest] == Pin(c.draw.source, SaturatingAdd(c.now, ttl))
  {
  }

  /** A call that finds no source to give leaves none pinned, and a failed draw changes nothing. */
  lemma NothingPinned(before: Pins, c: Call, after: Pins, r: Answer, ttl: nat, cap: nat)
    requires Does(before, c, after, r, ttl, cap)
    ensures r == Ok(None) ==> c.dest !in after && forall d :: d in before && d != c.dest ==> d in after && after[d] == before[d]
    ensures r.Err? ==> after == before
    ensures c.dest in before && before[c.dest].expiresAt > c.now ==> after == before && r == Ok(Some(before[c.dest].source))
  {
  }

  /** What a call answers is a pin that has not expired, or the address just drawn and pinned for the time to live. */
  lemma NeverExpired(before: Pins, c: Call, after: Pins, r: Answer, ttl: nat, cap: nat)
    requires Does(before, c, after, r, ttl, cap) && r.Ok? && r.value.Some?
    ensures c.dest in after && after[c.dest].source == r.value.value
    ensures after[c.dest].expiresAt > c.now
            || (c.draw == Drawn(r.value.value) && after[c.dest].expiresAt == SaturatingAdd(c.now, ttl))
  {
  }
}
