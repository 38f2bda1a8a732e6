/**
 Lock-free resolution against per-rule reloads and whole-table swaps, as an
 interleaving of atomic steps under sequential consistency.

 Readers load the table pointer, then the version, then one cell at a time.
 Each rule's watcher stores the CIDR cell, then the domain cell, then bumps the
 version. A swap loads the outgoing version, stamps the new table and publishes
 it. Versions are counted without bound here; `Observed` is what the 64-bit
 counter shows.
 */
module HotReload {
  import opened Bits
  import opened Wrappers
  import opened RoutingTable
  import Cidr
  import Domains

  /** Where a rule's watcher stands in a reload. */
  datatype Watcher = Idle | CidrStored(domains: Domains.DomainSet) | BothStored

  datatype TableState = TableState(
    table: Table,
    watchers: seq<Watcher>,
    version: nat,
    stamp: nat, // the version the table was published with
    late: nat)  // bumps since a swap loaded this table's version to replace it
  {
    predicate Valid() {
      |table.sets| == |table.shapes| == |watchers| && stamp + late <= version
    }

    predicate AllIdle() {
      forall i :: 0 <= i < |watchers| ==> watchers[i].Idle?
    }
  }

  datatype Swap = Quiet | Loaded(next: nat) | Stamped

  datatype Pc =
    | LoadVersion
    | DomainPass(tag: nat, i: nat)
    | IpPass(tag: nat, i: nat)
    | Done(tag: nat, decision: RouteDecision)

  /** One resolve in progress on the table whose pointer it loaded. */
  datatype Reader = Reader(q: Query, table: nat, pc: Pc)

  datatype State = State(tables: seq<TableState>, current: nat, swap: Swap, readers: map<nat, Reader>) {
    function Live(): TableState
      requires current < |tables|
    {
      tables[current]
    }
  }

  datatype Step =
    | Begin(r: nat, q: Query)
    | Advance(r: nat)
    | StoreCidr(t: nat, i: nat, sets: RuleSets)
    | StoreDomains(t: nat, i: nat)
    | Bump(t: nat, i: nat)
    | SwapLoad
    | SwapStamp(table: Table)
    | SwapPublish

  function Observed(version: nat): nat { version % U64_SPACE }

  // ── Steps ──────────────────────────────────────────────────────────────────

  /** What follows the domain pass, or starts the resolve when there is no domain key. */
  function AfterDomains(q: Query, tag: nat, default: RouteDecision): Pc {
    if q.ip.Some? then IpPass(tag, 0) else Done(tag, default)
  }

  /** One load by a reader, decided on what the cell holds at that moment. */
  function NextPc(ts: TableState, q: Query, pc: Pc): Pc
    requires ts.Valid() && PcOk(ts.table, q, pc)
  {
    match pc
    case LoadVersion =>
      if q.domain.Some? then DomainPass(ts.version, 0) else AfterDomains(q, ts.version, ts.table.default)
    case DomainPass(tag, i) =>
      if i == |ts.table.sets| then AfterDomains(q, tag, ts.table.default)
      else if DomainHit(ts.table.sets[i].domains, q.domain.value) then Done(tag, ts.table.shapes[i].decision)
      else DomainPass(tag, i + 1)
    case IpPass(tag, i) =>
      if i == |ts.table.sets| then Done(tag, ts.table.default)
      else if IpHit(ts.table.sets[i].cidrs, ts.table.shapes[i], q.ip.value) then Done(tag, ts.table.shapes[i].decision)
      else IpPass(tag, i + 1)
    case Done(_, _) => pc
  }

  predicate PcOk(t: Table, q: Query, pc: Pc) {
    match pc
    case DomainPass(_, i) => q.domain.Some? && i <= |t.sets|
    case IpPass(_, i) => q.ip.Some? && i <= |t.sets|
    case _ => true
  }

  function WithSets(ts: TableState, i: nat, sets: RuleSets, w: Watcher): TableState
    requires ts.Valid() && i < |ts.watchers|
  {
    ts.(table := ts.table.(sets := ts.table.sets[i := sets]), watchers := ts.watchers[i := w])
  }

  /** A watcher that was refused an inverted empty set never gets to its first store. */
  predicate Enabled(s: State, step: Step) {
    match step
    case Begin(r, _) => s.current < |s.tables|
    case Advance(r) =>
      && r in s.readers && s.readers[r].table < |s.tables|
      && s.tables[s.readers[r].table].Valid()
      && PcOk(s.tables[s.readers[r].table].table, s.readers[r].q, s.readers[r].pc)
    case StoreCidr(t, i, sets) =>
      && HasWatcher(s, t, i) && s.tables[t].watchers[i].Idle?
      && !(s.tables[t].table.shapes[i].invert && Cidr.IsEmpty(sets.cidrs))
    case StoreDomains(t, i) => HasWatcher(s, t, i) && s.tables[t].watchers[i].CidrStored?
    case Bump(t, i) => HasWatcher(s, t, i) && s.tables[t].watchers[i].BothStored?
    case SwapLoad => s.current < |s.tables| && s.swap.Quiet?
    case SwapStamp(table) => s.swap.Loaded? && |table.sets| == |table.shapes|
    case SwapPublish => s.swap.Stamped?
  }

  /** Watchers are spawned once a table is published, and may outlive its replacement. */
  predicate HasWatcher(s: State, t: nat, i: nat) {
    t <= s.current && t < |s.tables| && s.tables[t].Valid() && i < |s.tables[t].watchers|
  }

  function Do(s: State, step: Step): State
    requires Enabled(s, step)
  {
    match step
    case Begin(r, q) => s.(readers := s.readers[r := Reader(q, s.current, LoadVersion)])
    case Advance(r) =>
      var rd := s.readers[r];
      s.(readers := s.readers[r := rd.(pc := NextPc(s.tables[rd.table], rd.q, rd.pc))])
    case StoreCidr(t, i, sets) =>
      var ts := s.tables[t];
      s.(tables := s.tables[t := WithSets(ts, i, ts.table.sets[i].(cidrs := sets.cidrs), CidrStored(sets.domains))])
    case StoreDomains(t, i) =>
      var ts := s.tables[t];
      s.(tables := s.tables[t := WithSets(ts, i, ts.table.sets[i].(domains := ts.watchers[i].domains), BothStored)])
    case Bump(t, i) =>
      var ts := s.tables[t];
      var late := if t == s.current && s.swap.Quiet? then 0 else 1;
      s.(tables := s.tables[t := ts.(watchers := ts.watchers[i := Idle], version := ts.version + 1, late := ts.late + late)])
    case SwapLoad => s.(swap := Loaded(s.tables[s.current].version + 1))
    case SwapStamp(table) =>
      var stamped := TableState(table, seq(|table.sets|, _ => Idle), s.swap.next, s.swap.next, 0);
      s.(tables := s.tables + [stamped], swap := Stamped)
    case SwapPublish => s.(current := s.current + 1, swap := Quiet)
  }

  /** The state a run of steps ends in, or nothing if some step was not enabled. */
  function Run(s: State, steps: seq<Step>): Option<State>
    decreases |steps|
  {
    if steps == [] then Some(s)
    else if Enabled(s, steps[0]) then Run(Do(s, steps[0]), steps[1..])
    else None
  }

  function Init(table: Table, version: nat): State
    requires |table.sets| == |table.shapes|
  {
    State([TableState(table, seq(|table.sets|, _ => Idle), version, version, 0)], 0, Quiet, map[])
  }

  // ── What every run keeps ───────────────────────────────────────────────────

  /** The scan so far agrees with what the cells hold. */
  ghost predicate Faithful(t: Table, q: Query, pc: Pc)
    requires |t.sets| == |t.shapes|
  {
    match pc
    case LoadVersion => true
    case DomainPass(_, i) =>
      q.domain.Some? && forall j :: 0 <= j < i && j < |t.sets| ==> !DomainHit(t.sets[j].domains, q.domain.value)
    case IpPass(_, i) =>
      && (q.domain.Some? ==> forall j :: 0 <= j < |t.sets| ==> !DomainHit(t.sets[j].domains, q.domain.value))
      && q.ip.Some?
      && (forall j :: 0 <= j < i && j < |t.sets| ==> !IpHit(t.sets[j].cidrs, t.shapes[j], q.ip.value))
    case Done(_, d) => d == Resolve(t, q)
  }

  function Tag(pc: Pc): Option<nat> {
    if pc.LoadVersion? then None else Some(pc.tag)
  }

  /** While its tag is current and no watcher is mid-reload, a reader's view is faithful. */
  ghost predicate ReaderOk(ts: TableState, q: Query, pc: Pc) {
    && ts.Valid() && PcOk(ts.table, q, pc)
    && (Tag(pc).Some? ==> Tag(pc).value <= ts.version)
    && (Tag(pc) == Some(ts.version) && ts.AllIdle() ==> Faithful(ts.table, q, pc))
  }

  ghost predicate ReadersOk(s: State) {
    forall r :: r in s.readers ==>
      && s.readers[r].table <= s.current && s.readers[r].table < |s.tables|
      && ReaderOk(s.tables[s.readers[r].table], s.readers[r].q, s.readers[r].pc)
  }

  ghost predicate Shape(tables: seq<TableState>, current: nat, swap: Swap) {
    && current < |tables|
    && |tables| == current + (if swap.Stamped? then 2 else 1)
    && forall k :: 0 <= k < |tables| ==> tables[k].Valid()
  }

  /** `next` is one past the version `ts` had when a swap loaded it. */
  predicate Follows(ts: TableState, next: nat) {
    next + ts.late == ts.version + 1
  }

  ghost predicate Stamps(tables: seq<TableState>, current: nat, swap: Swap)
    requires Shape(tables, current, swap)
  {
    && (forall k, m :: 0 <= k < m == k + 1 < |tables| ==> Follows(tables[k], tables[m].stamp))
    && (if swap.Loaded? then Follows(tables[current], swap.next) else tables[|tables| - 1].late == 0)
  }

  ghost predicate Inv(s: State) {
    Shape(s.tables, s.current, s.swap) && Stamps(s.tables, s.current, s.swap) && ReadersOk(s)
  }

  lemma NextPcFaithful(ts: TableState, q: Query, pc: Pc)
    requires ReaderOk(ts, q, pc)
    ensures ReaderOk(ts, q, NextPc(ts, q, pc))
  {
    hide Domains.Matches, Domains.NormalizeHost, Cidr.Contains;
    var next := NextPc(ts, q, pc);
    if Tag(next) == Some(ts.version) && ts.AllIdle() {
      ScanFaithful(ts, q, pc);
    }
  }

  /** One more load keeps the scan faithful, and the load that ends it yields the resolve. */
  lemma ScanFaithful(ts: TableState, q: Query, pc: Pc)
    requires ts.Valid() && PcOk(ts.table, q, pc) && Faithful(ts.table, q, pc)
    ensures Faithful(ts.table, q, NextPc(ts, q, pc))
  {
    hide Domains.Matches, Domains.NormalizeHost, Cidr.Contains;
    var t := ts.table;
    match pc {
      case LoadVersion =>
      case DomainPass(_, i) =>
        if i < |t.sets| && DomainHit(t.sets[i].domains, q.domain.value) {
          assert FirstDomain(t, q.domain.value, 0) == Some(i);
        }
      case IpPass(_, i) =>
        if i < |t.sets| && IpHit(t.sets[i].cidrs, t.shapes[i], q.ip.value) {
          assert FirstIp(t, q.ip.value, 0) == Some(i);
        }
      case Done(_, _) =>
    }
  }

  lemma BeginOk(ts: TableState, q: Query)
    requires ts.Valid()
    ensures ReaderOk(ts, q, LoadVersion)
  {
  }

  lemma ReaderStepKeeps(s: State, step: Step)
    requires Inv(s) && Enabled(s, step) && (step.Begin? || step.Advance?)
    ensures Inv(Do(s, step))
  {
    hide ReaderOk, NextPc, PcOk, Stamps;
    if step.Advance? {
      var rd := s.readers[step.r];
      NextPcFaithful(s.tables[rd.table], rd.q, rd.pc);
    } else {
      BeginOk(s.tables[s.current], step.q);
    }
  }

  /** A store leaves its watcher mid-reload, and a bump leaves every earlier tag behind. */
  lemma TableStepKeepsReader(s: State, step: Step, r: nat)
    requires Inv(s) && Enabled(s, step) && (step.StoreCidr? || step.StoreDomains? || step.Bump?)
    requires r in s.readers
    ensures var rd := s.readers[r]; ReaderOk(Do(s, step).tables[rd.table], rd.q, rd.pc)
  {
    hide Resolve, DomainHit, IpHit;
    var rd := s.readers[r];
    var ts := Do(s, step).tables[rd.table];
    if rd.table == step.t && !step.Bump? {
      assert !ts.watchers[step.i].Idle?;
    }
  }

  /** Replacing a table's state keeps the stamps if its version moves only with its late bumps. */
  lemma UpdateKeepsStamps(tables: seq<TableState>, current: nat, swap: Swap, t: nat, ts: TableState)
    requires Shape(tables, current, swap) && Stamps(tables, current, swap)
    requires t <= current && ts.Valid() && ts.stamp == tables[t].stamp
    requires if t == current && swap.Quiet? then ts.late == tables[t].late
             else ts.version - ts.late == tables[t].version - tables[t].late
    ensures Shape(tables[t := ts], current, swap) && Stamps(tables[t := ts], current, swap)
  {
  }

  lemma TableStepKeepsStamps(s: State, step: Step)
    requires Inv(s) && Enabled(s, step) && (step.StoreCidr? || step.StoreDomains? || step.Bump?)
    ensures var s' := Do(s, step);
            Shape(s'.tables, s'.current, s'.swap) && Stamps(s'.tables, s'.current, s'.swap)
  {
    hide Shape, Stamps, ReadersOk;
    UpdateKeepsStamps(s.tables, s.current, s.swap, step.t, Do(s, step).tables[step.t]);
  }

  lemma TableStepKeeps(s: State, step: Step)
    requires Inv(s) && Enabled(s, step) && (step.StoreCidr? || step.StoreDomains? || step.Bump?)
    ensures Inv(Do(s, step))
  {
    hide ReaderOk, Shape, Stamps, WithSets;
    TableStepKeepsStamps(s, step);
    var s' := Do(s, step);
    forall r | r in s'.readers
      ensures ReaderOk(s'.tables[s'.readers[r].table], s'.readers[r].q, s'.readers[r].pc)
    {
      TableStepKeepsReader(s, step, r);
    }
  }

  lemma SwapStepKeeps(s: State, step: Step)
    requires Inv(s) && Enabled(s, step) && (step.SwapLoad? || step.SwapStamp? || step.SwapPublish?)
    ensures Inv(Do(s, step))
  {
    hide ReaderOk;
    var s' := Do(s, step);
    assert forall k :: 0 <= k < |s.tables| ==> s'.tables[k] == s.tables[k];
  }

  lemma StepKeeps(s: State, step: Step)
    requires Inv(s) && Enabled(s, step)
    ensures Inv(Do(s, step))
  {
    hide Inv, Do, Enabled;
    if step.Begin? || step.Advance? { ReaderStepKeeps(s, step); }
    else if step.StoreCidr? || step.StoreDomains? || step.Bump? { TableStepKeeps(s, step); }
    else { SwapStepKeeps(s, step); }
  }

  lemma {:induction false} RunKeeps(s: State, steps: seq<Step>)
    requires Inv(s)
    ensures Run(s, steps).Some? ==> Inv(Run(s, steps).value)
    decreases |steps|
  {
    hide Inv, Do, Enabled;
    if steps != [] && Enabled(s, steps[0]) {
      StepKeeps(s, steps[0]);
      RunKeeps(Do(s, steps[0]), steps[1..]);
    }
  }

  ghost predicate Reachable(s: State) {
    exists table: Table, version: nat, steps: seq<Step> ::
      |table.sets| == |table.shapes| && Run(Init(table, version), steps) == Some(s)
  }

  lemma ReachableInv(s: State)
    requires Reachable(s)
    ensures Inv(s)
  {
    var table: Table, version: nat, steps: seq<Step> :| |table.sets| == |table.shapes| && Run(Init(table, version), steps) == Some(s);
    RunKeeps(Init(table, version), steps);
  }

  // ── One table ──────────────────────────────────────────────────────────────

  /**
   A decision whose tag is still its table's version can differ from a fresh
   resolve only while some watcher is between its first store and its bump.
   */
  lemma StaleOnlyDuringReload(s: State, r: nat)
    requires Reachable(s) && r in s.readers && s.readers[r].pc.Done?
    ensures s.readers[r].table < |s.tables|
    ensures var rd := s.readers[r];
            var ts := s.tables[rd.table];
            |ts.table.sets| == |ts.table.shapes|
            && (rd.pc.tag == ts.version && rd.pc.decision != Resolve(ts.table, rd.q)
                ==> exists i :: 0 <= i < |ts.watchers| && !ts.watchers[i].Idle?)
  {
    hide Resolve;
    ReachableInv(s);
  }

  // ── Across swaps ───────────────────────────────────────────────────────────

  /** No watcher of a replaced table, or of the one being replaced, bumped after the swap's load. */
  ghost predicate NoLateBumps(s: State) {
    forall k :: 0 <= k < |s.tables| ==> s.tables[k].late == 0
  }

  /**
   A publication strictly raises the version over everything the outgoing table
   ever shows, exactly when none of its watchers bumps after the swap's load.
   */
  lemma PublicationRisesIffNoLateBump(s: State, k: nat)
    requires Reachable(s) && k + 1 < |s.tables|
    ensures s.tables[k].version < s.tables[k + 1].stamp <==> s.tables[k].late == 0
  {
    ReachableInv(s);
  }

  lemma {:induction false} VersionsRise(s: State, k: nat, m: nat)
    requires Inv(s) && NoLateBumps(s) && k < m < |s.tables|
    ensures s.tables[k].version < s.tables[m].stamp <= s.tables[m].version
    decreases m
  {
    if k + 1 < m {
      VersionsRise(s, k, m - 1);
    }
    assert s.tables[m - 1 + 1].stamp + s.tables[m - 1].late == s.tables[m - 1].version + 1;
  }

  /** What the counter shows is a 64-bit number, and two versions show alike exactly when they are a multiple of 2^64 apart. */
  lemma ObservedIff(a: nat, b: nat)
    ensures Observed(a) <= 0xFFFF_FFFF_FFFF_FFFF
    ensures Observed(a) == Observed(b) <==> (a - b) % 0x1_0000_0000_0000_0000 == 0
  {
  }

  lemma ObservedInjective(a: nat, b: nat)
    requires a <= b < a + U64_SPACE && Observed(a) == Observed(b)
    ensures a == b
  {
  }

  /**
   Through the shared handle: a cached decision whose 64-bit tag equals the live
   version is what a fresh resolve on the live table decides, once reloads in
   flight have finished, provided no late bump and fewer than 2^64 versions
   passed since the tag was taken.
   */
  lemma CurrentTagIsFresh(s: State, r: nat)
    requires Reachable(s) && NoLateBumps(s)
    requires r in s.readers && s.readers[r].pc.Done?
    requires s.current < |s.tables| && s.Live().AllIdle()
    requires Observed(s.readers[r].pc.tag) == Observed(s.Live().version)
    requires s.Live().version < s.readers[r].pc.tag + U64_SPACE
    ensures |s.Live().table.sets| == |s.Live().table.shapes|
    ensures s.readers[r].pc.decision == Resolve(s.Live().table, s.readers[r].q)
  {
    hide Resolve;
    ReachableInv(s);
    var rd := s.readers[r];
    if rd.table < s.current {
      VersionsRise(s, rd.table, s.current);
    }
    ObservedInjective(rd.pc.tag, s.Live().version);
  }

  // ── A late bump makes an old decision look current ─────────────────────────

  const ToGroup := RouteDecision(Group("old"), None)
  const ToDrop := RouteDecision(RouteTarget.Drop, None)

  function OldTable(): Table {
    Table([RuleSets(Cidr.CidrSet([], []), Domains.DomainSet({}, false))], [RuleShape(ToDrop, false)], ToGroup)
  }

  function NewTable(): Table { Table([], [], ToDrop) }

  const NoKeys := Query(None, None)

  lemma {:induction false} RunSnoc(s: State, steps: seq<Step>, step: Step)
    requires Run(s, steps).Some? && Enabled(Run(s, steps).value, step)
    ensures Run(s, steps + [step]) == Some(Do(Run(s, steps).value, step))
    decreases |steps|
  {
    hide Enabled, Do;
    if steps == [] {
      assert (steps + [step])[1..] == [];
    } else {
      assert (steps + [step])[1..] == steps[1..] + [step];
      RunSnoc(Do(s, steps[0]), steps[1..], step);
    }
  }

  lemma ReachableStep(s: State, step: Step)
    requires Reachable(s) && Enabled(s, step)
    ensures Reachable(Do(s, step))
  {
    hide Enabled, Do, Run, Init;
    var table: Table, version: nat, steps: seq<Step> :|
      |table.sets| == |table.shapes| && Run(Init(table, version), steps) == Some(s);
    RunSnoc(Init(table, version), steps, step);
  }

  /** A reload of the outgoing table that lands between the swap's load and its publication. */
  lemma LateReload() returns (s: State)
    ensures Reachable(s) && |s.tables| == 1 && s.current == 0 && s.swap == Loaded(1) && s.readers == map[]
    ensures s.tables[0] == TableState(OldTable(), [Idle], 1, 0, 1)
  {
    hide Run, Reachable;
    s := Init(OldTable(), 0);
    assert Reachable(s) by { RunNil(s, OldTable(), 0); }
    ReachableStep(s, SwapLoad);
    s := Do(s, SwapLoad);
    ReachableStep(s, StoreCidr(0, 0, OldTable().sets[0]));
    s := Do(s, StoreCidr(0, 0, OldTable().sets[0]));
    ReachableStep(s, StoreDomains(0, 0));
    s := Do(s, StoreDomains(0, 0));
    ReachableStep(s, Bump(0, 0));
    s := Do(s, Bump(0, 0));
  }

  lemma RunNil(s: State, table: Table, version: nat)
    requires |table.sets| == |table.shapes| && s == Init(table, version)
    ensures Reachable(s)
  {
    assert Run(Init(table, version), []) == Some(s);
  }

  /** With one late bump, an idle live table and equal versions, the old decision survives. */
  lemma LateBumpCounterexample() returns (s: State)
    ensures Reachable(s) && !NoLateBumps(s)
    ensures 0 in s.readers && s.readers[0].pc.Done? && s.current < |s.tables| && s.Live().AllIdle()
    ensures s.readers[0].pc.tag == s.Live().version
    ensures |s.Live().table.sets| == |s.Live().table.shapes|
    ensures s.readers[0].pc.decision != Resolve(s.Live().table, s.readers[0].q)
  {
    hide Run, Reachable;
    s := LateReload();
    ReachableStep(s, Begin(0, NoKeys));
    s := Do(s, Begin(0, NoKeys));
    ReachableStep(s, Advance(0));
    s := Do(s, Advance(0));
    ReachableStep(s, SwapStamp(NewTable()));
    s := Do(s, SwapStamp(NewTable()));
    ReachableStep(s, SwapPublish);
    s := Do(s, SwapPublish);
    assert s.tables[0].late == 1;
  }
}
