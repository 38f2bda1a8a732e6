/**
 The policy routing table: rules compiled from prefix lists and domain
 patterns, first-match-wins, and the two-pass resolution that tries the domain
 key before the IP key.
 */
module RoutingTable {
  import opened Wrappers
  import opened Addresses
  import Cidr
  import Domains

  datatype RouteTarget = Direct | Drop | Group(name: string)

  datatype RouteDecision = RouteDecision(primary: RouteTarget, fallback: Option<RouteTarget>)

  /** One configured rule; the lists are the inline entries followed by the file contents. */
  datatype RuleConfig = RuleConfig(
    prefixes: seq<RawPrefix>, patterns: seq<string>, decision: RouteDecision, invert: bool)

  /** What one rule's hot-reloadable cells hold. */
  datatype RuleSets = RuleSets(cidrs: Cidr.CidrSet, domains: Domains.DomainSet)

  /** The part of a rule that is fixed when the table is compiled. */
  datatype RuleShape = RuleShape(decision: RouteDecision, invert: bool)

  datatype Table = Table(sets: seq<RuleSets>, shapes: seq<RuleShape>, default: RouteDecision) {
    predicate Valid() {
      |sets| == |shapes| && forall i :: 0 <= i < |sets| ==> Cidr.WellFormed(sets[i].cidrs)
    }
  }

  /** The keys of one flow. */
  datatype Query = Query(domain: Option<string>, ip: Option<TargetAddr>)

  // ── Matching ───────────────────────────────────────────────────────────────

  predicate DomainHit(d: Domains.DomainSet, host: string) {
    Domains.Matches(d, Domains.NormalizeHost(host))
  }

  predicate IpHit(c: Cidr.CidrSet, shape: RuleShape, ip: TargetAddr) {
    Cidr.Contains(c, ip) != shape.invert
  }

  /** The first rule from `i` on whose domain set matches. */
  function FirstDomain(t: Table, host: string, i: nat): (r: Option<nat>)
    requires |t.sets| == |t.shapes| && i <= |t.sets|
    ensures r.Some? ==> i <= r.value < |t.sets| && DomainHit(t.sets[r.value].domains, host)
    ensures forall j :: i <= j < (if r.Some? then r.value else |t.sets|) ==> !DomainHit(t.sets[j].domains, host)
    decreases |t.sets| - i
  {
    if i == |t.sets| then None
    else if DomainHit(t.sets[i].domains, host) then Some(i)
    else FirstDomain(t, host, i + 1)
  }

  /** The first rule from `i` on whose CIDR side matches, inverted where the rule says so. */
  function FirstIp(t: Table, ip: TargetAddr, i: nat): (r: Option<nat>)
    requires |t.sets| == |t.shapes| && i <= |t.sets|
    ensures r.Some? ==> i <= r.value < |t.sets| && IpHit(t.sets[r.value].cidrs, t.shapes[r.value], ip)
    ensures forall j :: i <= j < (if r.Some? then r.value else |t.sets|) ==> !IpHit(t.sets[j].cidrs, t.shapes[j], ip)
    decreases |t.sets| - i
  {
    if i == |t.sets| then None
    else if IpHit(t.sets[i].cidrs, t.shapes[i], ip) then Some(i)
    else FirstIp(t, ip, i + 1)
  }

  /** What a resolve of `q` decides when nothing changes while it runs. */
  function Resolve(t: Table, q: Query): RouteDecision
    requires |t.sets| == |t.shapes|
  {
    var d := if q.domain.Some? then FirstDomain(t, q.domain.value, 0) else None;
    if d.Some? then t.shapes[d.value].decision
    else
      var p := if q.ip.Some? then FirstIp(t, q.ip.value, 0) else None;
      if p.Some? then t.shapes[p.value].decision else t.default
  }

  /** The single-key entry point: a domain target on the domain side, anything else on the IP side. */
  function ResolveTarget(t: Table, target: TargetAddr): RouteDecision
    requires |t.sets| == |t.shapes|
  {
    var hit := if target.Domain? then FirstDomain(t, target.host, 0) else FirstIp(t, target, 0);
    if hit.Some? then t.shapes[hit.value].decision else t.default
  }

  /** With one key, the two-pass resolution is the single-key one. */
  lemma SingleKeyAgrees(t: Table, target: TargetAddr)
    requires |t.sets| == |t.shapes|
    ensures ResolveTarget(t, target) ==
            Resolve(t, if target.Domain? then Query(Some(target.host), None) else Query(None, Some(target)))
  {
  }

  method MatchDomainRules(t: Table, host: string) returns (r: Option<RouteDecision>)
    requires t.Valid()
    ensures match FirstDomain(t, host, 0)
            case None => r == None
            case Some(k) => r == Some(t.shapes[k].decision)
  {
    var h := Domains.NormalizeHost(host);
    for i := 0 to |t.sets|
      invariant FirstDomain(t, host, 0) == FirstDomain(t, host, i)
    {
      var hit := Domains.ContainsNormalized(t.sets[i].domains, h);
      if hit { return Some(t.shapes[i].decision); }
    }
    r := None;
  }

  method MatchIpRules(t: Table, ip: TargetAddr) returns (r: Option<RouteDecision>)
    requires t.Valid()
    ensures match FirstIp(t, ip, 0)
            case None => r == None
            case Some(k) => r == Some(t.shapes[k].decision)
  {
    for i := 0 to |t.sets|
      invariant FirstIp(t, ip, 0) == FirstIp(t, ip, i)
    {
      var inSet := Cidr.ContainsTarget(t.sets[i].cidrs, ip);
      var matched := if t.shapes[i].invert then !inSet else inSet;
      if matched { return Some(t.shapes[i].decision); }
    }
    r := None;
  }

  method ResolveDomainOrIp(t: Table, domain: Option<string>, ip: Option<TargetAddr>) returns (r: RouteDecision)
    requires t.Valid()
    ensures r == Resolve(t, Query(domain, ip))
  {
    if domain.Some? {
      var d := MatchDomainRules(t, domain.value);
      if d.Some? { return d.value; }
    }
    if ip.Some? {
      var d := MatchIpRules(t, ip.value);
      if d.Some? { return d.value; }
    }
    r := t.default;
  }

  // ── Compiling ──────────────────────────────────────────────────────────────

  datatype CompileError =
    | BadPrefix(rule: nat, prefixError: Cidr.ParseError)
    | BadPattern(rule: nat, pattern: nat)
    | InvertedEmpty(rule: nat)
    | InvertedDomains(rule: nat)

  predicate AddressesValid(rules: seq<RuleConfig>) {
    forall i :: 0 <= i < |rules| ==> Cidr.AllValid(rules[i].prefixes)
  }

  /** The lists of a rule parse, and an inverted rule has prefixes and no patterns. */
  predicate Compilable(c: RuleConfig) {
    && Cidr.AllParse(c.prefixes)
    && (forall i :: 0 <= i < |c.patterns| ==> Domains.Acceptable(c.patterns[i]))
    && (c.invert ==> |c.prefixes| > 0 && |c.patterns| == 0)
  }

  predicate AllAcceptable(patterns: seq<string>) {
    forall i :: 0 <= i < |patterns| ==> Domains.Acceptable(patterns[i])
  }

  /** The error names the first fault the rule has: prefixes are read before patterns, and inversion is tested last. */
  predicate Faults(c: RuleConfig, e: CompileError) {
    match e
    case BadPrefix(_, p) =>
      exists i :: 0 <= i < |c.prefixes| && Cidr.AllParse(c.prefixes[..i]) && c.prefixes[i].Len().None? && Cidr.ErrorOf(c.prefixes[i]) == p
    case BadPattern(_, i) =>
      && Cidr.AllParse(c.prefixes)
      && i < |c.patterns| && AllAcceptable(c.patterns[..i]) && !Domains.Acceptable(c.patterns[i])
    case InvertedEmpty(_) => Cidr.AllParse(c.prefixes) && AllAcceptable(c.patterns) && c.invert && |c.prefixes| == 0
    case InvertedDomains(_) =>
      Cidr.AllParse(c.prefixes) && AllAcceptable(c.patterns) && c.invert && |c.prefixes| > 0 && |c.patterns| > 0
  }

  /** A rule's cells and shape were compiled from its configuration. */
  ghost predicate RuleFrom(c: RuleConfig, sets: RuleSets, shape: RuleShape) {
    && Cidr.Compiled(c.prefixes, sets.cidrs)
    && Domains.ParsedFrom(c.patterns, sets.domains)
    && shape == RuleShape(c.decision, c.invert)
  }

  ghost predicate TableFrom(rules: seq<RuleConfig>, default: RouteDecision, t: Table) {
    && |t.sets| == |t.shapes| == |rules| && t.default == default
    && forall i :: 0 <= i < |rules| ==> RuleFrom(rules[i], t.sets[i], t.shapes[i])
  }

  lemma EmptyIffNoPrefixes(ps: seq<RawPrefix>, s: Cidr.CidrSet)
    requires Cidr.AllValid(ps) && Cidr.AllParse(ps) && Cidr.Compiled(ps, s)
    ensures Cidr.IsEmpty(s) <==> |ps| == 0
  {
    if |ps| > 0 {
      var ip := ps[0].addr;
      assert ps[0].Valid() && ps[0] in ps && ps[0].Covers(ip);
      assert Cidr.Denotes(ps, ip);
      assert Cidr.Contains(s, Ip(ip, 0));
    } else if !Cidr.IsEmpty(s) {
      var ip := if |s.v4| > 0 then V4(s.v4[|s.v4| - 1].lo) else V6(s.v6[|s.v6| - 1].lo);
      assert Cidr.Contains(s, Ip(ip, 0));
    }
  }

  lemma EmptyIffNoPatterns(patterns: seq<string>, d: Domains.DomainSet)
    requires Domains.ParsedFrom(patterns, d)
    ensures d.IsEmpty() <==> |patterns| == 0
  {
    if |patterns| > 0 {
      assert Domains.Wildcard(patterns[0]) || Domains.Suffix(patterns[0]) in d.suffixes;
    }
  }

  /** Compilation succeeds exactly when every rule is compilable, and refuses ambiguous inversion. */
  method Compile(rules: seq<RuleConfig>, default: RouteDecision) returns (r: Result<Table, CompileError>)
    requires AddressesValid(rules)
    ensures r.Ok? <==> forall i :: 0 <= i < |rules| ==> Compilable(rules[i])
    ensures r.Ok? ==> r.value.Valid() && TableFrom(rules, default, r.value)
    ensures r.Err? ==> r.error.rule < |rules| && Faults(rules[r.error.rule], r.error)
                       && forall j :: 0 <= j < r.error.rule ==> Compilable(rules[j])
  {
    var sets: seq<RuleSets>, shapes: seq<RuleShape> := [], [];
    for i := 0 to |rules|
      invariant |sets| == |shapes| == i
      invariant forall j :: 0 <= j < i ==> Compilable(rules[j])
      invariant forall j :: 0 <= j < i ==> RuleFrom(rules[j], sets[j], shapes[j])
    {
      var rule := CompileRule(rules[i], i);
      if rule.Err? { return Err(rule.error); }
      sets, shapes := sets + [rule.value], shapes + [RuleShape(rules[i].decision, rules[i].invert)];
    }
    r := Ok(Table(sets, shapes, default));
  }

  method CompileRule(c: RuleConfig, index: nat) returns (r: Result<RuleSets, CompileError>)
    requires Cidr.AllValid(c.prefixes)
    ensures r.Ok? <==> Compilable(c)
    ensures r.Ok? ==> RuleFrom(c, r.value, RuleShape(c.decision, c.invert))
    ensures r.Err? ==> r.error.rule == index && Faults(c, r.error)
  {
    var cidrs := Cidr.Parse(c.prefixes);
    if cidrs.Err? { return Err(BadPrefix(index, cidrs.error)); }
    var domains := Domains.Parse(c.patterns);
    if domains.Err? { return Err(BadPattern(index, domains.error)); }
    EmptyIffNoPrefixes(c.prefixes, cidrs.value);
    EmptyIffNoPatterns(c.patterns, domains.value);
    if c.invert && Cidr.IsEmpty(cidrs.value) { return Err(InvertedEmpty(index)); }
    if c.invert && !domains.value.IsEmpty() { return Err(InvertedDomains(index)); }
    r := Ok(RuleSets(cidrs.value, domains.value));
  }

  // ── What a compiled table decides, stated on the configuration ─────────────

  predicate ConfigDomainHit(c: RuleConfig, host: string) {
    Domains.PatternsMatch(c.patterns, host)
  }

  /** A domain target is in no prefix list, so only an inverted rule matches one by its IP side. */
  predicate ConfigIpHit(c: RuleConfig, ip: TargetAddr) {
    (ip.Ip? && Cidr.Denotes(c.prefixes, ip.addr)) != c.invert
  }

  ghost predicate FirstRule(rules: seq<RuleConfig>, hit: RuleConfig -> bool, k: nat) {
    k < |rules| && hit(rules[k]) && forall j :: 0 <= j < k ==> !hit(rules[j])
  }

  /**
   The decision is that of the first rule whose patterns match the domain key;
   without one, that of the first rule whose prefixes match the IP key; without
   one, the default.
   */
  ghost predicate Decides(rules: seq<RuleConfig>, default: RouteDecision, q: Query, r: RouteDecision) {
    var byDomain := (c: RuleConfig) => q.domain.Some? && ConfigDomainHit(c, q.domain.value);
    var byIp := (c: RuleConfig) => q.ip.Some? && ConfigIpHit(c, q.ip.value);
    || (exists k: nat :: FirstRule(rules, byDomain, k) && r == rules[k].decision)
    || ((forall c :: c in rules ==> !byDomain(c))
        && exists k: nat :: FirstRule(rules, byIp, k) && r == rules[k].decision)
    || ((forall c :: c in rules ==> !byDomain(c) && !byIp(c)) && r == default)
  }

  lemma RuleHits(c: RuleConfig, sets: RuleSets, shape: RuleShape, q: Query)
    requires RuleFrom(c, sets, shape)
    requires q.ip.Some? ==> q.ip.value.Valid()
    ensures q.domain.Some? ==> (DomainHit(sets.domains, q.domain.value) <==> ConfigDomainHit(c, q.domain.value))
    ensures q.ip.Some? ==> (IpHit(sets.cidrs, shape, q.ip.value) <==> ConfigIpHit(c, q.ip.value))
  {
    if q.domain.Some? {
      Domains.ParsedMatches(c.patterns, sets.domains, q.domain.value);
    }
    if q.ip.Some? && q.ip.value.Ip? {
      assert q.ip.value == Ip(q.ip.value.addr, q.ip.value.ipPort);
    }
  }

  /** Resolution on a compiled table is first-match-wins over the configured lists. */
  lemma ResolveMeansConfig(rules: seq<RuleConfig>, default: RouteDecision, t: Table, q: Query)
    requires TableFrom(rules, default, t)
    requires q.ip.Some? ==> q.ip.value.Valid()
    ensures Decides(rules, default, q, Resolve(t, q))
  {
    hide Domains.Matches, Domains.PatternsMatch, Domains.NormalizeHost, Cidr.Contains, Cidr.Denotes;
    var byDomain := (c: RuleConfig) => q.domain.Some? && ConfigDomainHit(c, q.domain.value);
    var byIp := (c: RuleConfig) => q.ip.Some? && ConfigIpHit(c, q.ip.value);
    forall i | 0 <= i < |rules|
      ensures q.domain.Some? ==> (DomainHit(t.sets[i].domains, q.domain.value) <==> byDomain(rules[i]))
      ensures q.ip.Some? ==> (IpHit(t.sets[i].cidrs, t.shapes[i], q.ip.value) <==> byIp(rules[i]))
    {
      RuleHits(rules[i], t.sets[i], t.shapes[i], q);
    }
    var d := if q.domain.Some? then FirstDomain(t, q.domain.value, 0) else None;
    if d.Some? {
      assert FirstRule(rules, byDomain, d.value);
    } else {
      assert forall c :: c in rules ==> !byDomain(c);
      var p := if q.ip.Some? then FirstIp(t, q.ip.value, 0) else None;
      if p.Some? {
        assert FirstRule(rules, byIp, p.value);
      } else {
        assert forall c :: c in rules ==> !byIp(c);
      }
    }
  }
}
