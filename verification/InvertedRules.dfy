/**
 What compilation demands of an inverted rule, over hot reloads: its prefixes are
 never empty, so it never takes all traffic. That it has no domains is not tested
 again when its lists are reloaded.
 */
module InvertedRules {
  import opened Wrappers
  import opened Addresses
  import opened RoutingTable
  import opened HotReload
  import Cidr
  import Domains

  // ── Prefixes ───────────────────────────────────────────────────────────────

  /** A parsed set, and for an inverted rule one that holds something. */
  predicate CellSound(sets: RuleSets, shape: RuleShape) {
    Cidr.WellFormed(sets.cidrs) && (shape.invert ==> !Cidr.IsEmpty(sets.cidrs))
  }

  predicate TableSound(t: Table) {
    |t.sets| == |t.shapes| && forall i :: 0 <= i < |t.sets| ==> CellSound(t.sets[i], t.shapes[i])
  }

  predicate Sound(s: State) {
    forall k :: 0 <= k < |s.tables| ==> TableSound(s.tables[k].table)
  }

  predicate NoDomains(t: Table) {
    |t.sets| == |t.shapes| && forall i :: 0 <= i < |t.sets| && t.shapes[i].invert ==> t.sets[i].domains.IsEmpty()
  }

  /** What compilation accepts is sound, and its inverted rules have no domains. */
  lemma CompiledIsSound(rules: seq<RuleConfig>, default: RouteDecision, t: Table)
    requires AddressesValid(rules) && TableFrom(rules, default, t) && forall i :: 0 <= i < |rules| ==> Compilable(rules[i])
    ensures TableSound(t) && NoDomains(t)
  {
    hide Cidr.Compiled, Cidr.WellFormed, Cidr.IsEmpty, Cidr.AllValid, Cidr.AllParse, Domains.ParsedFrom, Domains.Acceptable;
    forall i | 0 <= i < |rules|
      ensures CellSound(t.sets[i], t.shapes[i]) && (t.shapes[i].invert ==> t.sets[i].domains.IsEmpty())
    {
      assert RuleFrom(rules[i], t.sets[i], t.shapes[i]) && Compilable(rules[i]);
      CompiledIsFormed(rules[i].prefixes, t.sets[i].cidrs);
      EmptyIffNoPrefixes(rules[i].prefixes, t.sets[i].cidrs);
      EmptyIffNoPatterns(rules[i].patterns, t.sets[i].domains);
    }
  }

  lemma CompiledIsFormed(ps: seq<RawPrefix>, c: Cidr.CidrSet)
    requires Cidr.Compiled(ps, c)
    ensures Cidr.WellFormed(c)
  {
  }

  /** Reloads store parsed sets, and swaps publish compiled tables. */
  predicate FromParse(step: Step) {
    && (step.StoreCidr? ==> Cidr.WellFormed(step.sets.cidrs))
    && (step.SwapStamp? ==> TableSound(step.table))
  }

  lemma StepKeepsSound(s: State, step: Step)
    requires Sound(s) && Enabled(s, step) && FromParse(step)
    ensures Sound(Do(s, step))
  {
    hide Cidr.WellFormed, Cidr.IsEmpty, NextPc, PcOk;
  }

  lemma {:induction false} RunKeepsSound(s: State, steps: seq<Step>)
    requires Sound(s) && Run(s, steps).Some? && forall i :: 0 <= i < |steps| ==> FromParse(steps[i])
    ensures Sound(Run(s, steps).value)
    decreases |steps|
  {
    hide Sound, Enabled, Do, FromParse;
    if steps != [] {
      StepKeepsSound(s, steps[0]);
      RunKeepsSound(Do(s, steps[0]), steps[1..]);
    }
  }

  lemma HoldsSomething(c: Cidr.CidrSet) returns (ip: TargetAddr)
    requires Cidr.WellFormed(c) && !Cidr.IsEmpty(c)
    ensures ip.Ip? && ip.Valid() && Cidr.Contains(c, ip)
  {
    if |c.v4| > 0 {
      ip := Ip(V4(c.v4[0].lo), 0);
      Cidr.CoveredIffSome(c.v4, c.v4[0].lo);
      assert c.v4[0].Has(c.v4[0].lo);
    } else {
      ip := Ip(V6(c.v6[0].lo), 0);
      Cidr.CoveredIffSome(c.v6, c.v6[0].lo);
      assert c.v6[0].Has(c.v6[0].lo);
    }
  }

  /** In every run from compiled tables no inverted rule ever takes every address. */
  lemma InvertedNeverTakesAll(table: Table, version: nat, steps: seq<Step>, s: State, k: nat, i: nat) returns (ip: TargetAddr)
    requires TableSound(table) && Run(Init(table, version), steps) == Some(s)
    requires forall j :: 0 <= j < |steps| ==> FromParse(steps[j])
    requires k < |s.tables| && i < |s.tables[k].table.sets| == |s.tables[k].table.shapes| && s.tables[k].table.shapes[i].invert
    ensures !Cidr.IsEmpty(s.tables[k].table.sets[i].cidrs)
    ensures ip.Ip? && ip.Valid() && !IpHit(s.tables[k].table.sets[i].cidrs, s.tables[k].table.shapes[i], ip)
  {
    hide Cidr.WellFormed, Cidr.IsEmpty, Cidr.Contains, Run;
    RunKeepsSound(Init(table, version), steps);
    assert TableSound(s.tables[k].table) && CellSound(s.tables[k].table.sets[i], s.tables[k].table.shapes[i]);
    ip := HoldsSomething(s.tables[k].table.sets[i].cidrs);
  }

  // ── Domains ────────────────────────────────────────────────────────────────

  predicate Clean(s: State) {
    forall k :: 0 <= k < |s.tables| ==> NoDomains(s.tables[k].table)
  }

  /** The step does not store a domain for an inverted rule. */
  predicate StoresNone(s: State, step: Step)
    requires Enabled(s, step)
  {
    step.StoreDomains? && s.tables[step.t].table.shapes[step.i].invert ==> s.tables[step.t].watchers[step.i].domains.IsEmpty()
  }

  predicate StaysClean(s: State, steps: seq<Step>)
    requires Run(s, steps).Some?
    decreases |steps|
  {
    Clean(s) && (steps == [] || StaysClean(Do(s, steps[0]), steps[1..]))
  }

  predicate ReloadsStoreNone(s: State, steps: seq<Step>)
    requires Run(s, steps).Some?
    decreases |steps|
  {
    steps == [] || (StoresNone(s, steps[0]) && ReloadsStoreNone(Do(s, steps[0]), steps[1..]))
  }

  lemma CleanStep(s: State, step: Step)
    requires Clean(s) && Enabled(s, step) && (step.SwapStamp? ==> NoDomains(step.table))
    ensures Clean(Do(s, step)) <==> StoresNone(s, step)
  {
    hide Cidr.IsEmpty, NextPc, PcOk;
    var t := Do(s, step);
    if step.StoreDomains? {
      assert t.tables[step.t].table.sets[step.i].domains == s.tables[step.t].watchers[step.i].domains;
      assert Clean(t) ==> NoDomains(t.tables[step.t].table);
    }
  }

  /**
   Inverted rules stay without domains through a run of compiled tables exactly when
   no reload that gets to its second store read a domain for one of them.
   */
  lemma {:induction false} StaysCleanIff(s: State, steps: seq<Step>)
    requires Clean(s) && Run(s, steps).Some?
    requires forall i :: 0 <= i < |steps| && steps[i].SwapStamp? ==> NoDomains(steps[i].table)
    ensures StaysClean(s, steps) <==> ReloadsStoreNone(s, steps)
    decreases |steps|
  {
    hide Clean, Enabled, Do, StoresNone, NoDomains;
    if steps != [] {
      CleanStep(s, steps[0]);
      if StoresNone(s, steps[0]) {
        StaysCleanIff(Do(s, steps[0]), steps[1..]);
      } else {
        NotCleanAnyMore(Do(s, steps[0]), steps[1..]);
      }
    }
  }

  lemma NotCleanAnyMore(s: State, steps: seq<Step>)
    requires !Clean(s) && Run(s, steps).Some?
    ensures !StaysClean(s, steps)
  {
  }

  // ── A reload that adds a domain ────────────────────────────────────────────

  const OneAddress := Cidr.CidrSet([Cidr.Range(0, 0)], [])

  function Inverted(domains: Domains.DomainSet): Table {
    Table([RuleSets(OneAddress, domains)], [RuleShape(ToDrop, true)], ToGroup)
  }

  lemma InvertedIsSound()
    ensures TableSound(Inverted(Domains.DomainSet({}, false))) && NoDomains(Inverted(Domains.DomainSet({}, false)))
    ensures Cidr.WellFormed(OneAddress) && !Cidr.IsEmpty(OneAddress)
  {
    var rs := [Cidr.Range(0, 0)];
    assert Cidr.Canonical(rs) && Cidr.Fits(rs, 32);
  }

  /** An inverted rule that compiled without domains takes a domain after its lists were reloaded. */
  lemma ReloadAddsDomains() returns (steps: seq<Step>, s: State)
    ensures TableSound(Inverted(Domains.DomainSet({}, false))) && NoDomains(Inverted(Domains.DomainSet({}, false)))
    ensures Run(Init(Inverted(Domains.DomainSet({}, false)), 0), steps) == Some(s)
    ensures forall i :: 0 <= i < |steps| ==> FromParse(steps[i])
    ensures |s.tables| == 1 && s.tables[0].table == Inverted(Domains.DomainSet({"a"}, false)) && !Clean(s)
    ensures DomainHit(s.tables[0].table.sets[0].domains, "a")
  {
    hide Cidr.WellFormed, Cidr.IsEmpty;
    var none, some := Domains.DomainSet({}, false), Domains.DomainSet({"a"}, false);
    InvertedIsSound();
    var s0 := Init(Inverted(none), 0);
    var first, second := StoreCidr(0, 0, RuleSets(OneAddress, some)), StoreDomains(0, 0);
    var s1 := Do(s0, first);
    s := Do(s1, second);
    steps := [first, second];
    assert steps[1..] == [second] && [second][1..] == [];
    assert Run(s1, [second]) == Some(s);
    assert s.tables[0].table.sets == [RuleSets(OneAddress, some)];
    assert !NoDomains(s.tables[0].table);
    HitsA();
  }

  lemma HitsA()
    ensures DomainHit(Domains.DomainSet({"a"}, false), "a")
  {
    var a := "a";
    assert a[0] == 'a';
    assert Domains.StripPrefix(a, "*.") == a && Domains.StripPrefix(a, ".") == a && Domains.StripTrailingDot(a) == a;
    assert Domains.NormalizeHost(a) == a by { assert forall c :: c in a ==> c == 'a'; }
  }
}
