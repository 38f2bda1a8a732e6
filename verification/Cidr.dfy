/**
 The sorted, merged CIDR set of the routing crate: prefixes become inclusive
 ranges, overlapping and adjacent ranges are merged, lookups binary-search.
 The IPv4 and IPv6 halves are the same code at two widths, so they are modelled
 once with the width as a parameter.
 */
module Cidr {
  import opened Wrappers
  import opened Bits
  import opened Addresses
  import opened Sorting

  datatype ParseError = InvalidAddress | InvalidLength | LengthTooLong

  datatype Range = Range(lo: nat, hi: nat) {
    predicate Has(x: nat) { lo <= x <= hi }
  }

  datatype CidrSet = CidrSet(v4: seq<Range>, v6: seq<Range>)

  // ── What a list of prefixes denotes ────────────────────────────────────────

  /** The error a malformed entry is rejected with: a length is too long only if it is an 8-bit number. */
  function ErrorOf(p: RawPrefix): (e: ParseError)
    requires p.Len().None?
    ensures e == InvalidAddress <==> p.BadAddress?
    ensures e == LengthTooLong <==> p.Prefix? && p.len.Number? && p.addr.Width() < p.len.n < 256
  {
    if p.BadAddress? then InvalidAddress
    else if p.len.NotANumber? || p.len.n > 255 then InvalidLength
    else LengthTooLong
  }

  /** Some configured prefix of the address's family covers it. */
  predicate Denotes(ps: seq<RawPrefix>, ip: IpAddr) {
    exists p :: p in ps && p.Covers(ip)
  }

  // ── Ranges ─────────────────────────────────────────────────────────────────

  predicate Covered(rs: seq<Range>, x: nat) {
    |rs| > 0 && (rs[|rs| - 1].Has(x) || Covered(rs[..|rs| - 1], x))
  }

  predicate Fits(rs: seq<Range>, w: nat) {
    forall i :: 0 <= i < |rs| ==> rs[i].lo <= rs[i].hi < Pow2(w)
  }

  predicate SortedByLo(rs: seq<Range>) {
    forall i, j :: 0 <= i < j < |rs| ==> rs[i].lo <= rs[j].lo
  }

  /** Non-empty ranges in ascending order with at least one address between neighbours. */
  predicate Canonical(rs: seq<Range>) {
    && (forall i :: 0 <= i < |rs| ==> rs[i].lo <= rs[i].hi)
    && (forall i, j :: 0 <= i < j < |rs| ==> rs[i].hi + 1 < rs[j].lo)
  }

  lemma {:induction false} CoveredIffSome(rs: seq<Range>, x: nat)
    ensures Covered(rs, x) <==> exists i :: 0 <= i < |rs| && rs[i].Has(x)
  {
    if |rs| > 0 {
      var n := |rs| - 1;
      CoveredIffSome(rs[..n], x);
      if i :| 0 <= i < n && rs[..n][i].Has(x) {
        assert rs[i].Has(x);
      }
      if i :| 0 <= i < |rs| && rs[i].Has(x) {
        assert i == n || rs[..n][i].Has(x);
      }
    }
  }

  // ── Prefix to range ────────────────────────────────────────────────────────

  function ToRange(addr: nat, len: nat, w: nat): Range
    requires len <= w && addr < Pow2(w)
  {
    if len == 0 then Range(0, Pow2(w) - 1)
    else
      var mask := Shl(Pow2(w) - 1, w - len, w);
      ShlOnes(w - len, w);
      var start := And(addr, mask);
      Range(start, Or(start, Not(mask, w)))
  }

  lemma {:induction false} BlockFits(x: nat, k: nat, w: nat)
    requires k <= w && x < Pow2(w)
    ensures ClearLow(x, k) + Pow2(k) <= Pow2(w)
  {
    if k > 0 { BlockFits(x / 2, k - 1, w - 1); }
  }

  /** The range of a prefix holds exactly the addresses that share its first bits. */
  lemma RangeIsPrefix(addr: nat, len: nat, w: nat, x: nat)
    requires len <= w && addr < Pow2(w) && x < Pow2(w)
    ensures var r := ToRange(addr, len, w);
            && r.lo == ClearLow(addr, w - len)
            && r.hi == r.lo + (Pow2(w - len) - 1)
            && r.lo <= r.hi < Pow2(w)
            && (r.Has(x) <==> SamePrefix(addr, x, len, w))
  {
    var k := w - len;
    ToRangeBounds(addr, len, w);
    BlockFits(addr, k, w);
    ClearLowIsClear(addr, k);
    BlockIsPrefix(x, ClearLow(addr, k), k);
    ShrIffClearLow(addr, x, k);
  }

  lemma ToRangeBounds(addr: nat, len: nat, w: nat)
    requires len <= w && addr < Pow2(w)
    ensures ToRange(addr, len, w) == Range(ClearLow(addr, w - len), ClearLow(addr, w - len) + (Pow2(w - len) - 1))
  {
    if len == 0 {
      LowBitsId(addr, w);
    } else {
      MaskedRange(addr, w - len, w);
    }
  }

  lemma MaskedRange(addr: nat, k: nat, w: nat)
    requires k <= w && addr < Pow2(w)
    ensures Shl(Pow2(w) - 1, k, w) < Pow2(w)
    ensures var mask := Shl(Pow2(w) - 1, k, w);
            && And(addr, mask) == ClearLow(addr, k)
            && Or(ClearLow(addr, k), Not(mask, w)) == ClearLow(addr, k) + (Pow2(k) - 1)
  {
    hide Pow2, Shl, And, Or, ClearLow, LowBits;
    ShlOnes(k, w);
    AndHighMask(addr, k, w);
    ClearLowIsClear(addr, k);
    OrDisjoint(ClearLow(addr, k), Pow2(k) - 1, k);
  }

  // ── Sort and merge ─────────────────────────────────────────────────────────

  function SaturatingNext(x: nat, w: nat): nat {
    if x + 1 < Pow2(w) then x + 1 else Pow2(w) - 1
  }

  lemma {:induction false} CoveredAppend(rs: seq<Range>, r: Range, x: nat)
    ensures Covered(rs + [r], x) <==> Covered(rs, x) || r.Has(x)
  {
    assert (rs + [r])[..|rs|] == rs;
  }

  lemma SameElementsSameCover(a: seq<Range>, b: seq<Range>, x: nat)
    requires multiset(a) == multiset(b)
    ensures Covered(a, x) <==> Covered(b, x)
  {
    CoveredIffSome(a, x);
    CoveredIffSome(b, x);
    if i :| 0 <= i < |a| && a[i].Has(x) {
      assert a[i] in multiset(b);
    }
    if i :| 0 <= i < |b| && b[i].Has(x) {
      assert b[i] in multiset(a);
    }
  }

  ghost predicate SameCover(a: seq<Range>, b: seq<Range>) {
    forall x: nat :: Covered(a, x) <==> Covered(b, x)
  }

  /** What the merge loop keeps: `out` is canonical and covers what has been read. */
  ghost predicate Merged(out: seq<Range>, done: seq<Range>, w: nat) {
    Canonical(out) && Fits(out, w) && SameCover(out, done)
  }

  /** Growing the last range to take in one that starts inside it or right after it. */
  lemma GrowLast(out: seq<Range>, done: seq<Range>, r: Range, hi: nat, w: nat)
    requires Merged(out, done, w)
    requires |out| > 0 && out[|out| - 1].lo <= r.lo <= out[|out| - 1].hi + 1 && r.lo <= r.hi < Pow2(w)
    requires hi == if r.hi > out[|out| - 1].hi then r.hi else out[|out| - 1].hi
    ensures Merged(out[|out| - 1 := Range(out[|out| - 1].lo, hi)], done + [r], w)
  {
    var n := |out| - 1;
    var grown := out[n := Range(out[n].lo, hi)];
    assert grown[..n] == out[..n];
    forall x: nat
      ensures Covered(grown, x) <==> Covered(done + [r], x)
    {
      CoveredAppend(done, r, x);
      assert Covered(out, x) <==> out[n].Has(x) || Covered(out[..n], x);
    }
  }

  lemma PushRange(out: seq<Range>, done: seq<Range>, r: Range, w: nat)
    requires Merged(out, done, w) && r.lo <= r.hi < Pow2(w)
    requires |out| > 0 ==> out[|out| - 1].hi + 1 < r.lo
    ensures Merged(out + [r], done + [r], w)
  {
    forall x: nat
      ensures Covered(out + [r], x) <==> Covered(done + [r], x)
    {
      CoveredAppend(out, r, x);
      CoveredAppend(done, r, x);
    }
  }

  /** The merge keeps the covered set and yields disjoint, non-adjacent, ascending ranges. */
  method Merge(ranges: seq<Range>, w: nat) returns (out: seq<Range>)
    requires Fits(ranges, w)
    ensures Canonical(out) && Fits(out, w)
    ensures SameCover(out, ranges)
  {
    var sorted := SortBy(ranges, (a: Range, b: Range) => a.lo <= b.lo);
    PermutationFits(sorted, ranges, w);
    out := [];
    var i := 0;
    while i < |sorted|
      invariant 0 <= i <= |sorted|
      invariant Merged(out, sorted[..i], w)
      invariant |out| > 0 && i < |sorted| ==> out[|out| - 1].lo <= sorted[i].lo
    {
      var r := sorted[i];
      assert sorted[..i + 1] == sorted[..i] + [r];
      if |out| > 0 && r.lo <= SaturatingNext(out[|out| - 1].hi, w) {
        var last := out[|out| - 1];
        GrowLast(out, sorted[..i], r, if r.hi > last.hi then r.hi else last.hi, w);
        if r.hi > last.hi {
          out := out[|out| - 1 := Range(last.lo, r.hi)];
        } else {
          assert out[|out| - 1 := Range(last.lo, last.hi)] == out;
        }
      } else {
        PushRange(out, sorted[..i], r, w);
        out := out + [r];
      }
      i := i + 1;
    }
    assert sorted[..i] == sorted;
  }

  lemma PermutationFits(a: seq<Range>, b: seq<Range>, w: nat)
    requires multiset(a) == multiset(b) && Fits(b, w)
    ensures Fits(a, w) && SameCover(a, b)
  {
    forall i | 0 <= i < |a|
      ensures a[i].lo <= a[i].hi < Pow2(w)
    {
      assert a[i] in multiset(b);
    }
    forall x: nat { SameElementsSameCover(a, b, x); }
  }

  // ── Canonical form ─────────────────────────────────────────────────────────

  lemma {:induction false} CanonicalBelow(rs: seq<Range>, x: nat)
    requires Canonical(rs) && |rs| > 0 && Covered(rs[..|rs| - 1], x)
    ensures x + 1 < rs[|rs| - 1].lo
  {
    CoveredIffSome(rs[..|rs| - 1], x);
  }

  lemma CanonicalLastLe(a: seq<Range>, b: seq<Range>)
    requires Canonical(a) && Canonical(b) && |a| > 0 && |b| > 0
    requires SameCover(a, b)
    ensures a[|a| - 1].hi <= b[|b| - 1].hi
    ensures a[|a| - 1].hi == b[|b| - 1].hi ==> b[|b| - 1].lo <= a[|a| - 1].lo
  {
    var la, lb := a[|a| - 1], b[|b| - 1];
    assert Covered(a, la.hi);
    if !lb.Has(la.hi) {
      CanonicalBelow(b, la.hi);
    }
    if la.hi == lb.hi && la.lo < lb.lo {
      var y := lb.lo - 1;
      assert la.Has(y) && Covered(a, y);
      CanonicalBelow(b, y);
      assert false;
    }
  }

  /** Two canonical range lists that cover the same numbers are the same list. */
  lemma {:induction false} CanonicalUnique(a: seq<Range>, b: seq<Range>)
    requires Canonical(a) && Canonical(b)
    requires SameCover(a, b)
    ensures a == b
  {
    if |a| == 0 || |b| == 0 {
      if |a| > 0 { assert Covered(a, a[|a| - 1].lo); }
      if |b| > 0 { assert Covered(b, b[|b| - 1].lo); }
    } else {
      CanonicalLastLe(a, b);
      CanonicalLastLe(b, a);
      var m, n := |a| - 1, |b| - 1;
      forall x: nat
        ensures Covered(a[..m], x) <==> Covered(b[..n], x)
      {
        assert Covered(a, x) <==> a[m].Has(x) || Covered(a[..m], x);
        assert Covered(b, x) <==> b[n].Has(x) || Covered(b[..n], x);
        if Covered(a[..m], x) { CanonicalBelow(a, x); }
        if Covered(b[..n], x) { CanonicalBelow(b, x); }
      }
      CanonicalUnique(a[..m], b[..n]);
      assert a == a[..m] + [a[m]] && b == b[..n] + [b[n]];
    }
  }

  // ── Lookup ─────────────────────────────────────────────────────────────────

  /** The index of the first range that starts above `ip`, by bisection. */
  method PartitionPoint(rs: seq<Range>, ip: nat) returns (i: nat)
    requires SortedByLo(rs)
    ensures i <= |rs|
    ensures forall j :: 0 <= j < i ==> rs[j].lo <= ip
    ensures forall j :: i <= j < |rs| ==> ip < rs[j].lo
  {
    i := 0;
    var hi := |rs|;
    while i < hi
      invariant 0 <= i <= hi <= |rs|
      invariant forall j :: 0 <= j < i ==> rs[j].lo <= ip
      invariant forall j :: hi <= j < |rs| ==> ip < rs[j].lo
    {
      var mid := (i + hi) / 2;
      if rs[mid].lo <= ip { i := mid + 1; } else { hi := mid; }
    }
  }

  method ContainsNumber(rs: seq<Range>, ip: nat) returns (b: bool)
    requires Canonical(rs)
    ensures b <==> Covered(rs, ip)
  {
    var i := PartitionPoint(rs, ip);
    b := i > 0 && ip <= rs[i - 1].hi;
    CoveredIffSome(rs, ip);
    if j :| 0 <= j < |rs| && rs[j].Has(ip) {
      assert j < i;
      assert j == i - 1;
    }
    assert b ==> rs[i - 1].Has(ip);
  }

  // ── The set ────────────────────────────────────────────────────────────────

  /** Membership as the routing table uses it: domains are never in a CIDR set. */
  predicate Contains(s: CidrSet, t: TargetAddr) {
    match t
    case Ip(V4(bits), _) => Covered(s.v4, bits)
    case Ip(V6(bits), _) => Covered(s.v6, bits)
    case Domain(_, _) => false
  }

  predicate WellFormed(s: CidrSet) {
    Canonical(s.v4) && Canonical(s.v6) && Fits(s.v4, 32) && Fits(s.v6, 128)
  }

  predicate IsEmpty(s: CidrSet) {
    |s.v4| == 0 && |s.v6| == 0
  }

  method ContainsTarget(s: CidrSet, t: TargetAddr) returns (b: bool)
    requires WellFormed(s)
    ensures b <==> Contains(s, t)
  {
    match t
    case Ip(V4(bits), _) => b := ContainsNumber(s.v4, bits);
    case Ip(V6(bits), _) => b := ContainsNumber(s.v6, bits);
    case Domain(_, _) => b := false;
  }

  predicate AllValid(ps: seq<RawPrefix>) {
    forall i :: 0 <= i < |ps| ==> ps[i].Valid()
  }

  predicate AllParse(ps: seq<RawPrefix>) {
    forall i :: 0 <= i < |ps| ==> ps[i].Len().Some?
  }

  /** The set was compiled from the prefixes: well-formed, and it holds what they denote. */
  ghost predicate Compiled(ps: seq<RawPrefix>, s: CidrSet) {
    && WellFormed(s)
    && (forall ip: IpAddr, port: nat :: ip.Valid() ==> (Contains(s, Ip(ip, port)) <==> Denotes(ps, ip)))
  }

  /** The ranges collected so far, per family, hold what the prefixes read so far denote. */
  ghost predicate Collected(ps: seq<RawPrefix>, v4: seq<Range>, v6: seq<Range>) {
    && Fits(v4, 32) && Fits(v6, 128)
    && (forall x: nat :: V4(x).Valid() ==> (Covered(v4, x) <==> Denotes(ps, V4(x))))
    && (forall x: nat :: V6(x).Valid() ==> (Covered(v6, x) <==> Denotes(ps, V6(x))))
  }

  lemma DenotesAppend(ps: seq<RawPrefix>, p: RawPrefix, ip: IpAddr)
    ensures Denotes(ps + [p], ip) <==> Denotes(ps, ip) || p.Covers(ip)
  {
    assert p in ps + [p];
  }

  lemma FitsAppend(rs: seq<Range>, r: Range, w: nat)
    requires Fits(rs, w) && r.lo <= r.hi < Pow2(w)
    ensures Fits(rs + [r], w)
  {
  }

  lemma CollectV4(ps: seq<RawPrefix>, p: RawPrefix, v4: seq<Range>, v6: seq<Range>)
    requires Collected(ps, v4, v6) && p.Valid() && p.Len().Some? && p.addr.V4?
    ensures Collected(ps + [p], v4 + [ToRange(p.addr.bits, p.Len().value, 32)], v6)
  {
    var len := p.Len().value;
    var r := ToRange(p.addr.bits, len, 32);
    RangeIsPrefix(p.addr.bits, len, 32, p.addr.bits);
    FitsAppend(v4, r, 32);
    forall x: nat | V4(x).Valid()
      ensures Covered(v4 + [r], x) <==> Denotes(ps + [p], V4(x))
    {
      CoveredAppend(v4, r, x);
      DenotesAppend(ps, p, V4(x));
      RangeIsPrefix(p.addr.bits, len, 32, x);
    }
    forall x: nat | V6(x).Valid()
      ensures Covered(v6, x) <==> Denotes(ps + [p], V6(x))
    {
      DenotesAppend(ps, p, V6(x));
    }
  }

  lemma CollectV6(ps: seq<RawPrefix>, p: RawPrefix, v4: seq<Range>, v6: seq<Range>)
    requires Collected(ps, v4, v6) && p.Valid() && p.Len().Some? && p.addr.V6?
    ensures Collected(ps + [p], v4, v6 + [ToRange(p.addr.bits, p.Len().value, 128)])
  {
    var len := p.Len().value;
    var r := ToRange(p.addr.bits, len, 128);
    RangeIsPrefix(p.addr.bits, len, 128, p.addr.bits);
    FitsAppend(v6, r, 128);
    forall x: nat | V6(x).Valid()
      ensures Covered(v6 + [r], x) <==> Denotes(ps + [p], V6(x))
    {
      CoveredAppend(v6, r, x);
      DenotesAppend(ps, p, V6(x));
      RangeIsPrefix(p.addr.bits, len, 128, x);
    }
    forall x: nat | V4(x).Valid()
      ensures Covered(v4, x) <==> Denotes(ps + [p], V4(x))
    {
      DenotesAppend(ps, p, V4(x));
    }
  }

  /** Parsing fails exactly on the first bad entry; otherwise the set holds what the list denotes. */
  method Parse(ps: seq<RawPrefix>) returns (r: Result<CidrSet, ParseError>)
    requires AllValid(ps)
    ensures r.Ok? <==> AllParse(ps)
    ensures r.Ok? ==> Compiled(ps, r.value)
    ensures r.Err? ==> exists i :: 0 <= i < |ps| && AllParse(ps[..i]) && ps[i].Len().None? && r.error == ErrorOf(ps[i])
  {
    hide Pow2;
    var v4: seq<Range>, v6: seq<Range> := [], [];
    var i := 0;
    while i < |ps|
      invariant 0 <= i <= |ps|
      invariant AllParse(ps[..i])
      invariant Collected(ps[..i], v4, v6)
    {
      match ps[i].Len() {
        case None =>
          return Err(ErrorOf(ps[i]));
        case Some(len) =>
          assert ps[..i + 1] == ps[..i] + [ps[i]];
          if ps[i].addr.V4? {
            CollectV4(ps[..i], ps[i], v4, v6);
            v4 := v4 + [ToRange(ps[i].addr.bits, len, 32)];
          } else {
            CollectV6(ps[..i], ps[i], v4, v6);
            v6 := v6 + [ToRange(ps[i].addr.bits, len, 128)];
          }
      }
      i := i + 1;
    }
    assert ps[..i] == ps;
    var m4 := Merge(v4, 32);
    var m6 := Merge(v6, 128);
    MergedIsCompiled(ps, v4, v6, m4, m6);
    r := Ok(CidrSet(m4, m6));
  }

  lemma MergedIsCompiled(ps: seq<RawPrefix>, v4: seq<Range>, v6: seq<Range>, m4: seq<Range>, m6: seq<Range>)
    requires Collected(ps, v4, v6)
    requires WellFormed(CidrSet(m4, m6))
    requires SameCover(m4, v4) && SameCover(m6, v6)
    ensures Compiled(ps, CidrSet(m4, m6))
  {
    var s := CidrSet(m4, m6);
    forall ip: IpAddr, port: nat | ip.Valid()
      ensures Contains(s, Ip(ip, port)) <==> Denotes(ps, ip)
    {
      assert ip == if ip.V4? then V4(ip.bits) else V6(ip.bits);
    }
  }

  /** Whatever the order, duplication or splitting, equal denotation gives equal sets. */
  lemma CompiledUnique(p: seq<RawPrefix>, q: seq<RawPrefix>, s: CidrSet, t: CidrSet)
    requires Compiled(p, s) && Compiled(q, t)
    requires forall ip: IpAddr :: ip.Valid() ==> (Denotes(p, ip) <==> Denotes(q, ip))
    ensures s == t
  {
    hide Pow2;
    CompiledFamily(p, s);
    CompiledFamily(q, t);
    FamilyUnique(s.v4, t.v4, 32);
    FamilyUnique(s.v6, t.v6, 128);
  }

  lemma CompiledFamily(p: seq<RawPrefix>, s: CidrSet)
    requires Compiled(p, s)
    ensures forall x: nat :: V4(x).Valid() ==> (Covered(s.v4, x) <==> Denotes(p, V4(x)))
    ensures forall x: nat :: V6(x).Valid() ==> (Covered(s.v6, x) <==> Denotes(p, V6(x)))
  {
    forall x: nat
      ensures V4(x).Valid() ==> (Covered(s.v4, x) <==> Denotes(p, V4(x)))
      ensures V6(x).Valid() ==> (Covered(s.v6, x) <==> Denotes(p, V6(x)))
    {
      assert Contains(s, Ip(V4(x), 0)) <==> Covered(s.v4, x);
      assert Contains(s, Ip(V6(x), 0)) <==> Covered(s.v6, x);
    }
  }

  lemma FamilyUnique(a: seq<Range>, b: seq<Range>, w: nat)
    requires Canonical(a) && Canonical(b) && Fits(a, w) && Fits(b, w)
    requires forall x: nat :: x < Pow2(w) ==> (Covered(a, x) <==> Covered(b, x))
    ensures a == b
  {
    forall x: nat
      ensures Covered(a, x) <==> Covered(b, x)
    {
      CoveredIffSome(a, x);
      CoveredIffSome(b, x);
    }
    CanonicalUnique(a, b);
  }
}
