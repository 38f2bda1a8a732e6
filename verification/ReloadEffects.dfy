/**
 What reloads, swaps and resolves achieve in the runs of `HotReload`: a resolve
 reads the table that is live when it begins and ends after so many loads, a
 finished reload leaves its sets in the cells, and a finished swap makes its
 table the live one.
 */
module ReloadEffects {
  import opened Wrappers
  import opened RoutingTable
  import opened HotReload
  import Cidr

  // ── A resolve ends, with the answer of the table it began on ───────────────

  /** Loads a resolve still makes at most. */
  function LoadsLeft(t: Table, pc: Pc): nat {
    match pc
    case LoadVersion => 2 * |t.sets| + 3
    case DomainPass(_, i) => if i <= |t.sets| then 2 * |t.sets| - i + 2 else 0
    case IpPass(_, i) => if i <= |t.sets| then |t.sets| - i + 1 else 0
    case Done(_, _) => 0
  }

  /** The tag a resolve ends with if the version does not move before it is loaded. */
  function FinalTag(ts: TableState, pc: Pc): nat {
    if pc.LoadVersion? then ts.version else pc.tag
  }

  lemma LoadProgress(ts: TableState, q: Query, pc: Pc)
    requires ts.Valid() && PcOk(ts.table, q, pc) && !pc.Done?
    ensures LoadsLeft(ts.table, NextPc(ts, q, pc)) < LoadsLeft(ts.table, pc)
    ensures FinalTag(ts, NextPc(ts, q, pc)) == FinalTag(ts, pc)
  {
    hide DomainHit, IpHit;
  }

  /** The step neither restarts the reader nor changes the table. */
  predicate LeavesAlone(step: Step, r: nat, t: nat) {
    match step
    case Begin(x, _) => x != r
    case StoreCidr(x, _, _) => x != t
    case StoreDomains(x, _) => x != t
    case Bump(x, _) => x != t
    case _ => true
  }

  ghost predicate AllLeaveAlone(steps: seq<Step>, r: nat, t: nat) {
    forall k :: 0 <= k < |steps| ==> LeavesAlone(steps[k], r, t)
  }

  function Loads(steps: seq<Step>, r: nat): nat {
    if steps == [] then 0 else (if steps[0] == Advance(r) then 1 else 0) + Loads(steps[1..], r)
  }

  /** The reader is on table `t`, which is `ts`, and the loads it made agree with that table. */
  ghost predicate ReadsFrom(s: State, r: nat, q: Query, t: nat, ts: TableState, pc: Pc) {
    && r in s.readers && s.readers[r] == Reader(q, t, pc)
    && t < |s.tables| && s.tables[t] == ts && ts.Valid()
    && PcOk(ts.table, q, pc) && Faithful(ts.table, q, pc)
  }

  /** Any step that leaves reader and table alone, and the reader's own load. */
  lemma StepReadsOn(s: State, step: Step, r: nat, q: Query, t: nat, ts: TableState, pc: Pc)
    requires ReadsFrom(s, r, q, t, ts, pc) && Enabled(s, step) && LeavesAlone(step, r, t)
    ensures ReadsFrom(Do(s, step), r, q, t, ts, if step == Advance(r) then NextPc(ts, q, pc) else pc)
  {
    hide Faithful, NextPc, DomainHit, IpHit, WithSets;
    if step == Advance(r) {
      ScanFaithful(ts, q, pc);
      NextPcOk(ts, q, pc);
    }
  }

  lemma NextPcOk(ts: TableState, q: Query, pc: Pc)
    requires ts.Valid() && PcOk(ts.table, q, pc)
    ensures PcOk(ts.table, q, NextPc(ts, q, pc))
  {
    hide DomainHit, IpHit;
  }

  /** However other readers, watchers and swaps interleave, enough loads end the resolve with the table's own answer. */
  lemma {:induction false} ScheduleResolves(s: State, steps: seq<Step>, r: nat, q: Query, t: nat, ts: TableState, pc: Pc)
    requires ReadsFrom(s, r, q, t, ts, pc) && Run(s, steps).Some? && AllLeaveAlone(steps, r, t)
    requires Loads(steps, r) >= LoadsLeft(ts.table, pc)
    ensures var end := Run(s, steps).value;
            r in end.readers && end.readers[r] == Reader(q, t, Done(FinalTag(ts, pc), Resolve(ts.table, q)))
    decreases |steps|
  {
    hide Enabled, Do, NextPc, Resolve, PcOk;
    if steps == [] {
      NoLoadsLeft(ts, q, pc);
    } else {
      var next := if steps[0] == Advance(r) then NextPc(ts, q, pc) else pc;
      StepReadsOn(s, steps[0], r, q, t, ts, pc);
      if steps[0] == Advance(r) {
        if pc.Done? { DoneStays(ts, q, pc); } else { LoadProgress(ts, q, pc); }
      }
      ScheduleResolves(Do(s, steps[0]), steps[1..], r, q, t, ts, next);
    }
  }

  lemma NoLoadsLeft(ts: TableState, q: Query, pc: Pc)
    requires ts.Valid() && PcOk(ts.table, q, pc) && LoadsLeft(ts.table, pc) == 0
    ensures pc.Done?
  {
  }

  lemma DoneStays(ts: TableState, q: Query, pc: Pc)
    requires ts.Valid() && PcOk(ts.table, q, pc) && pc.Done?
    ensures NextPc(ts, q, pc) == pc
  {
  }

  function Advances(r: nat, n: nat): (steps: seq<Step>)
    ensures |steps| == n && forall k :: 0 <= k < n ==> steps[k] == Advance(r)
  {
    seq(n, _ => Advance(r))
  }

  lemma {:induction false} AdvancesRun(s: State, r: nat, n: nat, q: Query, t: nat, ts: TableState, pc: Pc)
    requires ReadsFrom(s, r, q, t, ts, pc)
    ensures Run(s, Advances(r, n)).Some? && Loads(Advances(r, n), r) == n
    decreases n
  {
    hide Faithful, NextPc, DomainHit, IpHit;
    if n > 0 {
      StepReadsOn(s, Advance(r), r, q, t, ts, pc);
      assert Advances(r, n)[1..] == Advances(r, n - 1);
      AdvancesRun(Do(s, Advance(r)), r, n - 1, q, t, ts, NextPc(ts, q, pc));
    }
  }

  lemma BeginReads(s: State, r: nat, q: Query)
    requires Inv(s)
    ensures Enabled(s, Begin(r, q))
    ensures ReadsFrom(Do(s, Begin(r, q)), r, q, s.current, s.Live(), LoadVersion)
  {
    hide Stamps, ReadersOk;
  }

  /**
   From every reachable state a resolve can run to its end, and whatever else
   happens meanwhile to other readers and tables, two loads per rule and three more
   end it: with the decision of the table that was live when it began, tagged with
   that table's version.
   */
  lemma ResolveReadsLive(s: State, r: nat, q: Query, steps: seq<Step>)
    requires Reachable(s)
    ensures s.current < |s.tables| && |s.Live().table.sets| == |s.Live().table.shapes|
    ensures Run(s, [Begin(r, q)] + Advances(r, 2 * |s.Live().table.sets| + 3)).Some?
    ensures steps != [] && steps[0] == Begin(r, q) && Run(s, steps).Some? && AllLeaveAlone(steps[1..], r, s.current)
            && Loads(steps[1..], r) >= 2 * |s.Live().table.sets| + 3
            ==> var end := Run(s, steps).value;
                r in end.readers
                && end.readers[r] == Reader(q, s.current, Done(s.Live().version, Resolve(s.Live().table, q)))
  {
    hide Enabled, Do, Inv, Resolve, ReadsFrom;
    ReachableInv(s);
    InvShape(s);
    var n := 2 * |s.Live().table.sets| + 3;
    BeginReads(s, r, q);
    var begun := Do(s, Begin(r, q));
    AdvancesRun(begun, r, n, q, s.current, s.Live(), LoadVersion);
    assert ([Begin(r, q)] + Advances(r, n))[1..] == Advances(r, n);
    if steps != [] && steps[0] == Begin(r, q) && Run(s, steps).Some? && AllLeaveAlone(steps[1..], r, s.current) && Loads(steps[1..], r) >= n {
      ScheduleResolves(begun, steps[1..], r, q, s.current, s.Live(), LoadVersion);
    }
  }

  lemma InvShape(s: State)
    requires Inv(s)
    ensures s.current < |s.tables| && s.Live().Valid()
  {
    hide Stamps, ReadersOk;
  }

  /** Run alone, a resolve on any reachable state answers for the live table under its version. */
  lemma ResolveAlone(s: State, r: nat, q: Query, n: nat)
    requires Reachable(s) && s.current < |s.tables| && n >= 2 * |s.Live().table.sets| + 3
    ensures |s.Live().table.sets| == |s.Live().table.shapes|
    ensures var end := Run(s, [Begin(r, q)] + Advances(r, n));
            && end.Some? && r in end.value.readers
            && end.value.readers[r] == Reader(q, s.current, Done(s.Live().version, Resolve(s.Live().table, q)))
  {
    hide Enabled, Do, Inv, Resolve, ReadsFrom;
    ReachableInv(s);
    BeginReads(s, r, q);
    var steps := [Begin(r, q)] + Advances(r, n);
    AdvancesRun(Do(s, Begin(r, q)), r, n, q, s.current, s.Live(), LoadVersion);
    assert steps[1..] == Advances(r, n);
    ResolveReadsLive(s, r, q, steps);
  }

  // ── A reload leaves its sets in the cells ──────────────────────────────────

  /** The cells of rule `i` hold `sets`, or the domains are still in its watcher's hands; once done, the version has moved past `v`. */
  predicate Carries(s: State, t: nat, i: nat, sets: RuleSets, v: int) {
    && t < |s.tables| && s.tables[t].Valid() && i < |s.tables[t].watchers|
    && s.tables[t].table.sets[i].cidrs == sets.cidrs
    && (match s.tables[t].watchers[i]
        case CidrStored(domains) => domains == sets.domains
        case _ => s.tables[t].table.sets[i].domains == sets.domains)
    && s.tables[t].version >= v + if s.tables[t].watchers[i].Idle? then 1 else 0
  }

  lemma StepCarries(s: State, step: Step, t: nat, i: nat, sets: RuleSets, v: int)
    requires Carries(s, t, i, sets, v) && Enabled(s, step) && !(step.StoreCidr? && step.t == t && step.i == i)
    ensures Carries(Do(s, step), t, i, sets, v)
  {
    hide NextPc, PcOk, Cidr.IsEmpty;
  }

  /** Only its own watcher's next reload changes what a rule's cells hold. */
  lemma {:induction false} CellsLast(s: State, steps: seq<Step>, t: nat, i: nat, sets: RuleSets, v: int)
    requires Carries(s, t, i, sets, v) && Run(s, steps).Some?
    requires forall k :: 0 <= k < |steps| ==> !(steps[k].StoreCidr? && steps[k].t == t && steps[k].i == i)
    ensures Carries(Run(s, steps).value, t, i, sets, v)
    decreases |steps|
  {
    hide Enabled, Do, Carries;
    if steps != [] {
      StepCarries(s, steps[0], t, i, sets, v);
      CellsLast(Do(s, steps[0]), steps[1..], t, i, sets, v);
    }
  }

  /**
   A reload that has finished and is the last of its rule has both its sets in the
   cells, under a higher version, whatever ran in between; and it can finish.
   */
  lemma ReloadInstalls(s: State, t: nat, i: nat, sets: RuleSets, steps: seq<Step>)
    requires Enabled(s, StoreCidr(t, i, sets)) && Run(Do(s, StoreCidr(t, i, sets)), steps).Some?
    requires forall k :: 0 <= k < |steps| ==> !(steps[k].StoreCidr? && steps[k].t == t && steps[k].i == i)
    ensures var end := Run(Do(s, StoreCidr(t, i, sets)), steps).value;
            && t < |end.tables| && end.tables[t].Valid() && i < |end.tables[t].watchers|
            && end.tables[t].table.sets[i].cidrs == sets.cidrs
            && (end.tables[t].watchers[i].Idle? ==>
                  end.tables[t].table.sets[i] == sets && end.tables[t].version > s.tables[t].version)
    ensures Run(s, [StoreCidr(t, i, sets), StoreDomains(t, i), Bump(t, i)]).Some?
  {
    hide NextPc, PcOk;
    var stored := Do(s, StoreCidr(t, i, sets));
    CellsLast(stored, steps, t, i, sets, s.tables[t].version);
    var both := Do(stored, StoreDomains(t, i));
    assert Run(both, [Bump(t, i)]) == Run(Do(both, Bump(t, i)), []);
    assert [StoreDomains(t, i), Bump(t, i)][1..] == [Bump(t, i)];
    assert [StoreCidr(t, i, sets), StoreDomains(t, i), Bump(t, i)][1..] == [StoreDomains(t, i), Bump(t, i)];
  }

  /** The watcher of any published table, replaced or not, may start a reload, unless it would empty an inverted rule. */
  lemma ReloadPossibleIff(s: State, t: nat, i: nat, sets: RuleSets)
    requires Reachable(s)
    ensures Enabled(s, StoreCidr(t, i, sets)) <==>
              && t <= s.current && t < |s.tables| && i < |s.tables[t].table.sets|
              && |s.tables[t].watchers| == |s.tables[t].table.shapes| == |s.tables[t].table.sets|
              && s.tables[t].watchers[i].Idle?
              && (s.tables[t].table.shapes[i].invert ==> |sets.cidrs.v4| + |sets.cidrs.v6| > 0)
  {
    hide ReadersOk, Stamps;
    ReachableInv(s);
  }

  // ── A swap makes its table the live one ────────────────────────────────────

  /** Stamped and not yet published: nobody but the swap can reach the table. */
  ghost predicate Waits(s: State, ts: TableState) {
    && s.swap.Stamped? && s.current + 2 == |s.tables| && s.tables[s.current + 1] == ts
  }

  lemma StepWaits(s: State, step: Step, ts: TableState)
    requires Waits(s, ts) && Enabled(s, step) && !step.SwapPublish?
    ensures Waits(Do(s, step), ts)
  {
    hide NextPc, PcOk, WithSets;
  }

  lemma {:induction false} RunWaits(s: State, steps: seq<Step>, ts: TableState)
    requires Waits(s, ts) && Run(s, steps).Some? && forall k :: 0 <= k < |steps| ==> !steps[k].SwapPublish?
    ensures Waits(Run(s, steps).value, ts)
    decreases |steps|
  {
    hide Enabled, Do, Waits;
    if steps != [] {
      StepWaits(s, steps[0], ts);
      RunWaits(Do(s, steps[0]), steps[1..], ts);
    }
  }

  /** Published, the new table is live exactly as it was handed in, under the version its swap chose. */
  lemma SwapInstalls(s: State, table: Table, steps: seq<Step>)
    requires Reachable(s) && Enabled(s, SwapStamp(table))
    requires Run(Do(s, SwapStamp(table)), steps).Some? && forall k :: 0 <= k < |steps| ==> !steps[k].SwapPublish?
    ensures var end := Run(Do(s, SwapStamp(table)), steps).value;
            && Enabled(end, SwapPublish)
            && var after := Do(end, SwapPublish);
               && after.current == s.current + 1 < |after.tables| && after.swap.Quiet?
               && after.Live().table == table && after.Live().AllIdle()
               && after.Live().version == s.swap.next
  {
    hide NextPc, PcOk, WithSets;
    ReachableInv(s);
    var stamped := Do(s, SwapStamp(table));
    RunWaits(stamped, steps, stamped.tables[s.current + 1]);
    CurrentStays(stamped, steps);
  }

  lemma {:induction false} CurrentStays(s: State, steps: seq<Step>)
    requires Run(s, steps).Some? && forall k :: 0 <= k < |steps| ==> !steps[k].SwapPublish?
    ensures Run(s, steps).value.current == s.current
    decreases |steps|
  {
    hide Enabled, NextPc, PcOk, WithSets;
    if steps != [] { CurrentStays(Do(s, steps[0]), steps[1..]); }
  }

  function SwapTo(table: Table): seq<Step> { [SwapLoad, SwapStamp(table), SwapPublish] }

  lemma SwapRuns(s: State, table: Table)
    requires Reachable(s) && s.swap.Quiet? && |table.sets| == |table.shapes|
    ensures Run(s, SwapTo(table)).Some?
    ensures var end := Run(s, SwapTo(table)).value;
            Reachable(end) && end.current < |end.tables| && end.Live().table == table
  {
    hide NextPc, PcOk, WithSets, Run, Reachable;
    assert s.current < |s.tables| by { ReachableInv(s); }
    ReachableStep(s, SwapLoad);
    var loaded := Do(s, SwapLoad);
    ReachableStep(loaded, SwapStamp(table));
    var stamped := Do(loaded, SwapStamp(table));
    ReachableStep(stamped, SwapPublish);
    RunThree(s, SwapLoad, SwapStamp(table), SwapPublish);
    assert Run(stamped, []) == Some(stamped) by { RunNone(stamped); }
    SwapInstalls(loaded, table, []);
  }

  lemma RunNone(s: State)
    ensures Run(s, []) == Some(s)
  {
  }

  lemma RunThree(s: State, a: Step, b: Step, c: Step)
    requires Enabled(s, a) && Enabled(Do(s, a), b) && Enabled(Do(Do(s, a), b), c)
    ensures Run(s, [a, b, c]) == Some(Do(Do(Do(s, a), b), c))
  {
    hide Enabled, Do;
    assert [a, b, c][1..] == [b, c] && [b, c][1..] == [c] && [c][1..] == [];
    assert Run(Do(s, a), [b, c]) == Run(Do(Do(s, a), b), [c]);
  }

  lemma {:induction false} RunAppend(s: State, a: seq<Step>, b: seq<Step>)
    requires Run(s, a).Some?
    ensures Run(s, a + b) == Run(Run(s, a).value, b)
    decreases |a|
  {
    hide Enabled, Do;
    if a == [] {
      assert a + b == b;
    } else {
      assert (a + b)[1..] == a[1..] + b;
      RunAppend(Do(s, a[0]), a[1..], b);
    }
  }

  /** After a whole swap every resolve answers for the new table, under a version that is live. */
  lemma ResolveAfterSwap(s: State, table: Table, r: nat, q: Query, n: nat)
    requires Reachable(s) && s.swap.Quiet? && |table.sets| == |table.shapes| && n >= 2 * |table.sets| + 3
    ensures var end := Run(s, SwapTo(table) + ([Begin(r, q)] + Advances(r, n)));
            && end.Some? && r in end.value.readers && end.value.current < |end.value.tables|
            && end.value.readers[r].pc == Done(end.value.Live().version, Resolve(table, q))
  {
    hide Run, Reachable, Resolve, SwapTo;
    SwapRuns(s, table);
    var swapped := Run(s, SwapTo(table)).value;
    var steps := [Begin(r, q)] + Advances(r, n);
    RunAppend(s, SwapTo(table), steps);
    ResolveAlone(swapped, r, q, n);
    ReadersTouchNoTable(swapped, steps);
  }

  /** Resolving changes no table. */
  lemma {:induction false} ReadersTouchNoTable(s: State, steps: seq<Step>)
    requires Run(s, steps).Some? && forall k :: 0 <= k < |steps| ==> steps[k].Begin? || steps[k].Advance?
    ensures var end := Run(s, steps).value; end.tables == s.tables && end.current == s.current
    decreases |steps|
  {
    hide Enabled, NextPc, PcOk;
    if steps != [] { ReadersTouchNoTable(Do(s, steps[0]), steps[1..]); }
  }
}
