/**
 Domain suffix sets: patterns and hosts are normalised, and a host matches a
 suffix on a label boundary. The lookup walks the tails of the host.
 */
module Domains {
  import opened Wrappers

  datatype DomainSet = DomainSet(suffixes: set<string>, matchAll: bool) {
    predicate IsEmpty() { !matchAll && suffixes == {} }
  }

  // ── Normalisation ──────────────────────────────────────────────────────────

  function LowerChar(c: char): char {
    if 'A' <= c <= 'Z' then (c as int + 32) as char else c
  }

  function Lower(s: string): (t: string)
    ensures |t| == |s| && forall i :: 0 <= i < |s| ==> t[i] == LowerChar(s[i])
  {
    if s == "" then "" else [LowerChar(s[0])] + Lower(s[1..])
  }

  function StripPrefix(s: string, p: string): string {
    if p <= s then s[|p|..] else s
  }

  function StripTrailingDot(s: string): string {
    if |s| > 0 && s[|s| - 1] == '.' then s[..|s| - 1] else s
  }

  /** Without the decorations a pattern may carry in front. */
  function Undecorated(s: string): string {
    StripPrefix(StripPrefix(s, "*."), ".")
  }

  function Bare(s: string): string {
    StripTrailingDot(Undecorated(s))
  }

  function NormalizeHost(s: string): string {
    var bare := Bare(s);
    if exists c :: c in bare && 'A' <= c <= 'Z' then Lower(bare) else bare
  }

  /** Unicode White_Space, as `str::trim` strips it. */
  predicate IsWhitespace(c: char) {
    var n := c as int;
    0x09 <= n <= 0x0D || n in {0x20, 0x85, 0xA0, 0x1680, 0x2028, 0x2029, 0x202F, 0x205F, 0x3000}
    || 0x2000 <= n <= 0x200A
  }

  function Trim(s: string): string {
    if |s| > 0 && IsWhitespace(s[0]) then Trim(s[1..])
    else if |s| > 0 && IsWhitespace(s[|s| - 1]) then Trim(s[..|s| - 1])
    else s
  }

  // ── Label suffixes ─────────────────────────────────────────────────────────

  /** `host` is `sfx`, or ends with a dot followed by `sfx`. */
  predicate LabelSuffix(sfx: string, host: string) {
    host == sfx
    || (|sfx| < |host| && host[|host| - |sfx|..] == sfx && host[|host| - |sfx| - 1] == '.')
  }

  function Labels(s: string): (ls: seq<string>)
    ensures |ls| > 0
  {
    if s == "" then [""]
    else
      var rest := Labels(s[1..]);
      if s[0] == '.' then [""] + rest else [[s[0]] + rest[0]] + rest[1..]
  }

  function Join(ls: seq<string>): string
    requires |ls| > 0
  {
    if |ls| == 1 then ls[0] else ls[0] + "." + Join(ls[1..])
  }

  /** A character put in front of the first label goes in front of the whole. */
  lemma JoinFront(c: string, ls: seq<string>)
    requires |ls| > 0
    ensures Join([c + ls[0]] + ls[1..]) == c + Join(ls)
  {
    var more := [c + ls[0]] + ls[1..];
    if |ls| > 1 {
      var tail := Join(ls[1..]);
      assert more[1..] == ls[1..];
      hide Join;
      Regroup(c, ls[0], tail);
    }
  }

  lemma Regroup(a: string, b: string, c: string)
    ensures (a + b) + "." + c == a + (b + "." + c)
  {
  }

  lemma {:induction false} JoinLabels(s: string)
    ensures Join(Labels(s)) == s
  {
    if s != "" {
      var rest := Labels(s[1..]);
      JoinLabels(s[1..]);
      assert s == [s[0]] + s[1..];
      if s[0] == '.' {
        assert ([""] + rest)[1..] == rest;
      } else {
        JoinFront([s[0]], rest);
      }
    }
  }

  lemma {:induction false} LabelsAtDot(a: string, b: string)
    ensures Labels(a + "." + b) == Labels(a) + Labels(b)
  {
    var s := a + "." + b;
    if a == "" {
      assert s[1..] == b;
    } else {
      assert s[1..] == a[1..] + "." + b;
      LabelsAtDot(a[1..], b);
    }
  }

  lemma {:induction false} JoinAppend(a: seq<string>, b: seq<string>)
    requires |a| > 0 && |b| > 0
    ensures Join(a + b) == Join(a) + "." + Join(b)
  {
    if |a| == 1 {
      assert (a + b)[1..] == b;
    } else {
      assert (a + b)[1..] == a[1..] + b;
      JoinAppend(a[1..], b);
      assert Join(a + b) == a[0] + "." + (Join(a[1..]) + "." + Join(b));
      assert Join(a) + "." + Join(b) == a[0] + "." + Join(a[1..]) + "." + Join(b);
    }
  }

  ghost predicate IsTail(t: seq<string>, s: seq<string>) {
    |t| <= |s| && s[|s| - |t|..] == t
  }

  /** Suffix matching is label-wise: the suffix's labels are the host's last labels. */
  lemma LabelSuffixIffLabels(sfx: string, host: string)
    ensures LabelSuffix(sfx, host) <==> IsTail(Labels(sfx), Labels(host))
  {
    if LabelSuffix(sfx, host) && host != sfx {
      var pre := host[..|host| - |sfx| - 1];
      assert host == pre + "." + sfx;
      LabelsAtDot(pre, sfx);
    }
    if IsTail(Labels(sfx), Labels(host)) {
      var k := |Labels(host)| - |Labels(sfx)|;
      var a := Labels(host)[..k];
      assert Labels(host) == a + Labels(sfx);
      JoinLabels(host);
      JoinLabels(sfx);
      if k > 0 {
        JoinAppend(a, Labels(sfx));
        assert host == Join(a) + "." + sfx;
      }
    }
  }

  // ── Lookup ─────────────────────────────────────────────────────────────────

  /** The set matches an already normalised host. */
  predicate Matches(d: DomainSet, host: string) {
    d.matchAll || exists sfx :: sfx in d.suffixes && LabelSuffix(sfx, host)
  }

  method SplitOnce(s: string) returns (r: Option<nat>)
    ensures r.Some? ==> r.value < |s| && s[r.value] == '.' && forall j :: 0 <= j < r.value ==> s[j] != '.'
    ensures r.None? ==> forall j :: 0 <= j < |s| ==> s[j] != '.'
  {
    for i := 0 to |s|
      invariant forall j :: 0 <= j < i ==> s[j] != '.'
    {
      if s[i] == '.' { return Some(i); }
    }
    r := None;
  }

  /** A tail may be tried if it starts the host or follows a dot. */
  predicate TailAt(host: string, k: int) {
    0 <= k <= |host| && (k == 0 || host[k - 1] == '.')
  }

  lemma LabelSuffixIsTail(sfx: string, host: string)
    ensures LabelSuffix(sfx, host) <==> exists k :: TailAt(host, k) && host[k..] == sfx
  {
    if LabelSuffix(sfx, host) {
      var k := |host| - |sfx|;
      assert TailAt(host, k) && host[k..] == sfx;
    }
  }

  method ContainsNormalized(d: DomainSet, host: string) returns (b: bool)
    ensures b <==> Matches(d, host)
  {
    if d.matchAll { return true; }
    if d.suffixes == {} { return false; }
    var suffix := host;
    ghost var k: nat := 0;
    while true
      invariant TailAt(host, k) && suffix == host[k..]
      invariant forall t :: TailAt(host, t) && t < k ==> host[t..] !in d.suffixes
      decreases |suffix|
    {
      if suffix in d.suffixes {
        LabelSuffixIsTail(suffix, host);
        return true;
      }
      var dot := SplitOnce(suffix);
      if dot.None? {
        NoTailBetween(host, k, |host| + 1);
        forall sfx | sfx in d.suffixes
          ensures !LabelSuffix(sfx, host)
        {
          LabelSuffixIsTail(sfx, host);
        }
        return false;
      }
      NoTailBetween(host, k, k + dot.value + 1);
      suffix := suffix[dot.value + 1..];
      k := k + dot.value + 1;
    }
  }

  lemma NoTailBetween(host: string, k: nat, next: nat)
    requires k <= |host| && k < next <= |host| + 1
    requires forall j :: 0 <= j < next - 1 - k ==> host[k..][j] != '.'
    ensures forall t :: k < t < next ==> !TailAt(host, t)
  {
    forall t | k < t < next
      ensures !TailAt(host, t)
    {
      if t <= |host| {
        assert host[t - 1] == host[k..][t - 1 - k];
      }
    }
  }

  // ── Parsing ────────────────────────────────────────────────────────────────

  predicate Wildcard(raw: string) { Trim(raw) == "*" }

  function Suffix(raw: string): string { NormalizeHost(Trim(raw)) }

  predicate Acceptable(raw: string) { Wildcard(raw) || Suffix(raw) != "" }

  /** What a pattern list matches, stated on the patterns themselves. */
  predicate PatternsMatch(patterns: seq<string>, host: string) {
    exists i :: 0 <= i < |patterns|
      && (Wildcard(patterns[i]) || LabelSuffix(Suffix(patterns[i]), NormalizeHost(host)))
  }

  predicate ParsedFrom(patterns: seq<string>, d: DomainSet) {
    && (d.matchAll <==> exists i :: 0 <= i < |patterns| && Wildcard(patterns[i]))
    && (forall i :: 0 <= i < |patterns| && !Wildcard(patterns[i]) ==> Suffix(patterns[i]) in d.suffixes)
    && (forall sfx :: sfx in d.suffixes ==>
          exists i :: 0 <= i < |patterns| && !Wildcard(patterns[i]) && Suffix(patterns[i]) == sfx)
  }

  /** Parsing fails exactly on the first pattern that normalises to nothing. */
  method Parse(patterns: seq<string>) returns (r: Result<DomainSet, nat>)
    ensures r.Ok? <==> forall i :: 0 <= i < |patterns| ==> Acceptable(patterns[i])
    ensures r.Ok? ==> ParsedFrom(patterns, r.value)
    ensures r.Err? ==> r.error < |patterns| && !Acceptable(patterns[r.error])
                       && forall j :: 0 <= j < r.error ==> Acceptable(patterns[j])
  {
    hide Trim, NormalizeHost;
    var suffixes: set<string>, matchAll := {}, false;
    for i := 0 to |patterns|
      invariant forall j :: 0 <= j < i ==> Acceptable(patterns[j])
      invariant ParsedFrom(patterns[..i], DomainSet(suffixes, matchAll))
    {
      ParsedStep(patterns, i, DomainSet(suffixes, matchAll));
      if Trim(patterns[i]) == "*" {
        matchAll := true;
      } else {
        var normalized := NormalizeHost(Trim(patterns[i]));
        if normalized == "" { return Err(i); }
        suffixes := suffixes + {normalized};
      }
    }
    assert patterns[..|patterns|] == patterns;
    r := Ok(DomainSet(suffixes, matchAll));
  }

  lemma ParsedStep(patterns: seq<string>, i: nat, d: DomainSet)
    requires i < |patterns| && ParsedFrom(patterns[..i], d)
    ensures ParsedFrom(patterns[..i + 1],
                       if Wildcard(patterns[i]) then DomainSet(d.suffixes, true)
                       else DomainSet(d.suffixes + {Suffix(patterns[i])}, d.matchAll))
  {
    hide Trim, NormalizeHost;
    var before, after := patterns[..i], patterns[..i + 1];
    assert forall j :: 0 <= j < i ==> before[j] == after[j];
    assert after[i] == patterns[i];
    if d.matchAll {
      var j :| 0 <= j < |before| && Wildcard(before[j]);
      assert Wildcard(after[j]);
    }
    forall sfx | sfx in d.suffixes
      ensures exists j :: 0 <= j < |after| && !Wildcard(after[j]) && Suffix(after[j]) == sfx
    {
      var j :| 0 <= j < |before| && !Wildcard(before[j]) && Suffix(before[j]) == sfx;
      assert !Wildcard(after[j]) && Suffix(after[j]) == sfx;
    }
  }

  /** A parsed set matches a host exactly when one of its patterns does. */
  lemma ParsedMatches(patterns: seq<string>, d: DomainSet, host: string)
    requires ParsedFrom(patterns, d)
    ensures Matches(d, NormalizeHost(host)) <==> PatternsMatch(patterns, host)
  {
    hide Trim, NormalizeHost;
    var h := NormalizeHost(host);
    if PatternsMatch(patterns, host) {
      var i :| 0 <= i < |patterns| && (Wildcard(patterns[i]) || LabelSuffix(Suffix(patterns[i]), h));
      if !Wildcard(patterns[i]) {
        assert Suffix(patterns[i]) in d.suffixes;
      }
    }
    if Matches(d, h) && !d.matchAll {
      var sfx :| sfx in d.suffixes && LabelSuffix(sfx, h);
      var i :| 0 <= i < |patterns| && !Wildcard(patterns[i]) && Suffix(patterns[i]) == sfx;
      assert LabelSuffix(Suffix(patterns[i]), h);
    }
  }

  // ── What normalisation ignores ─────────────────────────────────────────────

  lemma {:induction false} LowerIdem(s: string)
    ensures Lower(Lower(s)) == Lower(s)
  {
    if s != "" {
      LowerIdem(s[1..]);
    }
  }

  lemma LowerIfNoUpper(s: string)
    requires !exists c :: c in s && 'A' <= c <= 'Z'
    ensures Lower(s) == s
  {
    forall i | 0 <= i < |s|
      ensures Lower(s)[i] == s[i]
    {
      assert s[i] in s;
    }
  }

  lemma NormalizeIsLowerBare(s: string)
    ensures NormalizeHost(s) == Lower(Bare(s))
  {
    if !exists c :: c in Bare(s) && 'A' <= c <= 'Z' { LowerIfNoUpper(Bare(s)); }
  }

  lemma LowerKeepsPrefix(s: string, p: string)
    requires p == "*." || p == "."
    ensures StripPrefix(Lower(s), p) == Lower(StripPrefix(s, p))
  {
    assert p <= s <==> p <= Lower(s) by {
      if |p| <= |s| {
        assert forall i :: 0 <= i < |p| ==> (s[i] == p[i] <==> Lower(s)[i] == p[i]);
        assert p <= s <==> forall i :: 0 <= i < |p| ==> s[i] == p[i];
      }
    }
    if p <= s {
      assert Lower(s)[|p|..] == Lower(s[|p|..]);
    }
  }

  lemma LowerFirst(s: string)
    ensures NormalizeHost(Lower(s)) == NormalizeHost(s)
  {
    NormalizeIsLowerBare(s);
    NormalizeIsLowerBare(Lower(s));
    hide Lower, StripPrefix, NormalizeHost;
    LowerKeepsPrefix(s, "*.");
    var t := StripPrefix(s, "*.");
    LowerKeepsPrefix(t, ".");
    var u := StripPrefix(t, ".");
    LowerKeepsDot(u);
    LowerIdem(StripTrailingDot(u));
  }

  lemma LowerKeepsDot(u: string)
    ensures StripTrailingDot(Lower(u)) == Lower(StripTrailingDot(u))
  {
  }

  lemma StripBeforeDot(s: string, p: string)
    requires s + "." != p
    ensures StripPrefix(s + ".", p) == StripPrefix(s, p) + "."
  {
    if p <= s + "." {
      assert |p| <= |s|;
      assert p == (s + ".")[..|p|] == s[..|p|];
    }
  }

  lemma UndecoratedDot(s: string)
    requires s != "*"
    ensures Bare(s + ".") == Undecorated(s)
  {
    assert s == (s + ".")[..|s|];
    StripBeforeDot(s, "*.");
    var t := StripPrefix(s, "*.");
    if t != "" {
      StripBeforeDot(t, ".");
      UndoDot(StripPrefix(t, "."));
    }
  }

  lemma StarAlone()
    ensures Bare("*.") == "" && Bare("*") == "*"
  {
    var star := "*";
    assert star[0] == '*';
    assert StripPrefix(star, "*.") == star && StripPrefix(star, ".") == star;
  }

  /**
   One more dot at the end changes nothing exactly when the host is not `*`, where
   it completes the decoration `*.` that is stripped as a whole, and does not end
   in a dot already once its decorations are gone: only one is stripped.
   */
  lemma TrailingDotIgnored(s: string)
    ensures NormalizeHost(s + ".") == NormalizeHost(s)
            <==> s != "*" && (Undecorated(s) == "" || Undecorated(s)[|Undecorated(s)| - 1] != '.')
  {
    NormalizeIsLowerBare(s);
    NormalizeIsLowerBare(s + ".");
    hide Lower, NormalizeHost;
    if s == "*" {
      StarAlone();
      assert |Lower("")| == 0 && |Lower("*")| == 1;
    } else {
      UndecoratedDot(s);
      var b := Undecorated(s);
      assert |Lower(b)| == |b| && |Lower(StripTrailingDot(b))| == |StripTrailingDot(b)|;
    }
  }

  lemma UndoDot(u: string)
    ensures StripTrailingDot(u + ".") == u
  {
    assert (u + ".")[..|u|] == u;
  }
}
