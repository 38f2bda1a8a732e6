/**
 What domain patterns mean to whoever writes them, without the functions that
 normalise them: white space, decorations and letter case do not matter, and a
 name matches itself and everything below it, label by label.
 */
module DomainPatterns {
  import opened Domains

  // ── Letter case ────────────────────────────────────────────────────────────

  predicate SameLetter(c: char, d: char) {
    || c == d
    || ('A' <= c <= 'Z' && d as int == c as int + 32)
    || ('A' <= d <= 'Z' && c as int == d as int + 32)
  }

  predicate SameButCase(s: string, t: string) {
    |s| == |t| && forall i :: 0 <= i < |s| ==> SameLetter(s[i], t[i])
  }

  predicate NoUpper(s: string) {
    forall i :: 0 <= i < |s| ==> !('A' <= s[i] <= 'Z')
  }

  lemma LowerSame(s: string, t: string)
    ensures Lower(s) == Lower(t) <==> SameButCase(s, t)
    ensures NoUpper(Lower(s)) && SameButCase(Lower(s), s)
  {
    hide Lower;
    if SameButCase(s, t) {
      forall i | 0 <= i < |s| ensures Lower(s)[i] == Lower(t)[i] { assert SameLetter(s[i], t[i]); }
    }
    if Lower(s) == Lower(t) {
      forall i | 0 <= i < |s| ensures SameLetter(s[i], t[i]) { assert Lower(s)[i] == Lower(t)[i]; }
    }
  }

  /** Two hosts normalise alike exactly when they are the same but for case once stripped; the normal form is the one without capitals. */
  lemma NormalizedIff(s: string, t: string)
    ensures NormalizeHost(s) == NormalizeHost(t) <==> SameButCase(Bare(s), Bare(t))
    ensures NoUpper(NormalizeHost(s)) && SameButCase(NormalizeHost(s), Bare(s))
  {
    hide Lower, Bare, NormalizeHost, SameButCase;
    NormalizeIsLowerBare(s);
    NormalizeIsLowerBare(t);
    LowerSame(Bare(s), Bare(t));
  }

  /** Matching ignores ASCII case. */
  lemma CaseInsensitive(s: string, t: string)
    requires SameButCase(s, t)
    ensures NormalizeHost(s) == NormalizeHost(t)
  {
    hide Lower, NormalizeHost, SameButCase;
    LowerSame(s, t);
    LowerFirst(s);
    LowerFirst(t);
  }

  // ── White space ────────────────────────────────────────────────────────────

  predicate AllWhite(s: string) {
    forall i :: 0 <= i < |s| ==> IsWhitespace(s[i])
  }

  predicate Trimmed(s: string) {
    s == "" || (!IsWhitespace(s[0]) && !IsWhitespace(s[|s| - 1]))
  }

  /** Trimming takes off the white space on both sides and nothing else. */
  lemma {:induction false} TrimStrips(front: string, core: string, back: string)
    requires AllWhite(front) && AllWhite(back) && Trimmed(core)
    ensures Trim(front + core + back) == core
    decreases |front| + |back|
  {
    hide IsWhitespace;
    var s := front + core + back;
    if front != "" {
      assert s[0] == front[0] && s[1..] == front[1..] + core + back;
      TrimStrips(front[1..], core, back);
    } else if core == "" {
      assert s == back;
      if back != "" {
        assert s[1..] == "" + core + back[1..];
        TrimStrips("", core, back[1..]);
      }
    } else {
      assert s[0] == core[0];
      if back != "" {
        var n := |back| - 1;
        assert s[|s| - 1] == back[n] && s[..|s| - 1] == front + core + back[..n];
        TrimStrips(front, core, back[..n]);
      } else {
        assert s == core;
      }
    }
  }

  /** Every text is white space, a trimmed text and white space. */
  lemma {:induction false} TrimSplits(s: string) returns (front: string, back: string)
    ensures AllWhite(front) && AllWhite(back) && Trimmed(Trim(s)) && s == front + Trim(s) + back
    decreases |s|
  {
    hide IsWhitespace;
    if s != "" && IsWhitespace(s[0]) {
      front, back := TrimSplits(s[1..]);
      assert s == ([s[0]] + front) + Trim(s[1..]) + back;
      front := [s[0]] + front;
    } else if s != "" && IsWhitespace(s[|s| - 1]) {
      var n := |s| - 1;
      front, back := TrimSplits(s[..n]);
      assert s == front + Trim(s[..n]) + (back + [s[n]]);
      back := back + [s[n]];
    } else {
      front, back := "", "";
      assert s == "" + s + "";
    }
  }

  // ── Decorations ────────────────────────────────────────────────────────────

  lemma Stripped(n: string)
    ensures StripPrefix("." + n, "*.") == "." + n && StripPrefix("." + n, ".") == n
    ensures StripPrefix("*." + n, "*.") == n
    ensures !("*." <= n) ==> StripPrefix(n, "*.") == n
    ensures !("." <= n) ==> StripPrefix(n, ".") == n
  {
    var dot, star := "." + n, "*." + n;
    assert dot[0] == '.' && dot[..1] == "." && dot[1..] == n;
    assert star[..2] == "*." && star[2..] == n;
  }

  lemma StarNotDot(n: string)
    requires "*." <= n
    ensures !("." <= n)
  {
    assert n[0] == '*';
  }

  /** A leading dot is ignored, unless there is another decoration behind it. */
  lemma LeadingDotIgnored(n: string)
    ensures NormalizeHost("." + n) == NormalizeHost(n) <==> n == "." || !("." <= n || "*." <= n)
  {
    NormalizeIsLowerBare("." + n);
    NormalizeIsLowerBare(n);
    hide Lower, NormalizeHost;
    Stripped(n);
    if "*." <= n { StarNotDot(n); }
    assert |Lower(Bare("." + n))| == |Bare("." + n)| && |Lower(Bare(n))| == |Bare(n)|;
  }

  /** So is a leading star label, unless there is another one behind it. */
  lemma LeadingStarIgnored(n: string)
    ensures NormalizeHost("*." + n) == NormalizeHost(n) <==> !("*." <= n)
  {
    NormalizeIsLowerBare("*." + n);
    NormalizeIsLowerBare(n);
    hide Lower, NormalizeHost;
    Stripped(n);
    if "*." <= n { StarNotDot(n); }
    assert |Lower(Bare("*." + n))| == |Bare("*." + n)| && |Lower(Bare(n))| == |Bare(n)|;
  }

  // ── Patterns ───────────────────────────────────────────────────────────────

  /** A name as one writes it: neither decorated nor padded, and not the wildcard. */
  predicate PlainName(n: string) {
    n != "" && n != "*" && Trimmed(n) && n[0] != '.' && n[|n| - 1] != '.' && !("*." <= n)
  }

  lemma PlainIsBare(n: string)
    requires PlainName(n)
    ensures NormalizeHost(n) == Lower(n)
    ensures NormalizeHost("." + n) == Lower(n) && NormalizeHost("*." + n) == Lower(n)
  {
    hide IsWhitespace;
    NormalizeIsLowerBare(n);
    LeadingDotIgnored(n);
    LeadingStarIgnored(n);
    hide Lower, NormalizeHost;
    Stripped(n);
  }

  /** The host is the name, or ends with a dot and the name, but for case. */
  ghost predicate AtOrBelow(host: string, name: string) {
    exists k :: TailAt(host, k) && SameButCase(host[k..], name)
  }

  lemma TailOfLower(host: string, name: string, k: int)
    requires 0 <= k <= |host|
    ensures TailAt(Lower(host), k) <==> TailAt(host, k)
    ensures Lower(host)[k..] == Lower(name) <==> SameButCase(host[k..], name)
  {
    LowerSame(host[k..], name);
    assert Lower(host)[k..] == Lower(host[k..]);
  }

  lemma LowerSuffixIff(host: string, name: string)
    ensures LabelSuffix(Lower(name), Lower(host)) <==> AtOrBelow(host, name)
  {
    hide Lower, SameButCase;
    LabelSuffixIsTail(Lower(name), Lower(host));
    forall k | 0 <= k <= |host|
      ensures TailAt(Lower(host), k) && Lower(host)[k..] == Lower(name) <==> TailAt(host, k) && SameButCase(host[k..], name)
    {
      TailOfLower(host, name, k);
    }
  }

  predicate Decoration(deco: string) { deco == "" || deco == "." || deco == "*." }

  lemma PatternIs(front: string, deco: string, name: string, back: string)
    requires AllWhite(front) && AllWhite(back) && Decoration(deco) && PlainName(name)
    ensures var raw := front + (deco + name) + back; !Wildcard(raw) && Suffix(raw) == Lower(name)
  {
    hide Lower, NormalizeHost, Trim;
    var core := deco + name;
    assert core[|core| - 1] == name[|name| - 1];
    assert core[0] == if deco == "" then name[0] else deco[0];
    assert Trimmed(core);
    TrimStrips(front, core, back);
    PlainIsBare(name);
    if deco == "" { assert core == name; }
    assert core != "*" by { if deco != "" { assert |core| >= 2; } }
  }

  /**
   A pattern for a name, decorated or not, padded or not, in any case: it matches a
   host exactly when the host is that name or lies below it.
   */
  lemma PatternMatchesIff(front: string, deco: string, name: string, back: string, host: string)
    requires AllWhite(front) && AllWhite(back) && Decoration(deco) && PlainName(name) && PlainName(host)
    ensures PatternsMatch([front + (deco + name) + back], host) <==> AtOrBelow(host, name)
  {
    hide Lower, NormalizeHost, Trim, LabelSuffix, AtOrBelow, PlainName;
    PatternIs(front, deco, name, back);
    PlainIsBare(host);
    LowerSuffixIff(host, name);
    var raw := front + (deco + name) + back;
    assert [raw][0] == raw;
    hide Suffix, Wildcard;
    assert LabelSuffix(Suffix(raw), NormalizeHost(host)) ==> PatternsMatch([raw], host);
  }

  /** A padded star matches every host, and so do all lists that have one. */
  lemma StarMatchesAll(front: string, back: string, patterns: seq<string>, host: string)
    requires AllWhite(front) && AllWhite(back) && front + "*" + back in patterns
    ensures PatternsMatch(patterns, host)
  {
    hide NormalizeHost, LabelSuffix;
    TrimStrips(front, "*", back);
    var i :| 0 <= i < |patterns| && patterns[i] == front + "*" + back;
    assert Wildcard(patterns[i]);
  }

  lemma DotIs(u: string)
    ensures StripTrailingDot(u) == "" <==> u == "" || u == "."
  {
    if |u| == 1 && u[0] == '.' { assert u == "."; }
  }

  /** Rejected are exactly the patterns that, trimmed, are nothing but decorations: at most one star and three dots. */
  lemma RejectedIff(raw: string)
    ensures !Acceptable(raw) <==> Trim(raw) in {"", ".", "..", "*.", "*..", "*..."}
  {
    hide Trim;
    var t := Trim(raw);
    NormalizeIsLowerBare(t);
    assert |Lower(Bare(t))| == |Bare(t)|;
    hide Lower, NormalizeHost;
    var x := StripPrefix(t, "*.");
    DotIs(StripPrefix(x, "."));
    OnlyDots(x);
    OnlyDecorations(t);
  }

  lemma OnlyDots(x: string)
    ensures StripPrefix(x, ".") in {"", "."} <==> x in {"", ".", ".."}
  {
    var two := "..";
    assert two[1..] == ".";
    if "." <= x {
      assert x == "." + x[1..];
      assert x[1..] == "." <==> x == two;
      assert x[1..] == "" <==> x == ".";
    }
  }

  lemma OnlyDecorations(t: string)
    ensures StripPrefix(t, "*.") in {"", ".", ".."} <==> t in {"", ".", "..", "*.", "*..", "*..."}
  {
    if "*." <= t {
      assert t == "*." + t[2..];
      assert "*.." == "*." + "." && "*..." == "*." + ".." && "*." == "*." + "";
    }
  }
}
