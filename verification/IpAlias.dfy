/**
 The source-IP to alias table: subnets grouped by prefix length, longest first,
 each group sorted for binary search. Building rejects ambiguous configuration;
 resolving is the longest-prefix match.
 */
module IpAlias {
  import opened Wrappers
  import opened Bits
  import opened Addresses
  import opened Sorting

  datatype Entry = Entry(net: nat, prefix: nat, alias: string)

  datatype NetAlias = NetAlias(net: nat, alias: string)

  /** Every network of one prefix length, ascending by network. */
  datatype PrefixGroup = PrefixGroup(prefix: nat, nets: seq<NetAlias>)

  datatype Table = Table(v4: seq<PrefixGroup>, v6: seq<PrefixGroup>)

  datatype Config = Config(alias: string, cidrs: seq<RawPrefix>)

  /** One configured (alias, prefix) pair. */
  datatype Pair = Pair(alias: string, cidr: RawPrefix)

  datatype BuildError =
    | EmptyAlias
    | InvalidCidr(alias: string, value: RawPrefix)
    | DuplicatePrefix(value: RawPrefix, first: string, second: string)

  // ── Masking ────────────────────────────────────────────────────────────────

  /** Masks in 128-bit arithmetic, whatever the address width. */
  function MaskBits(bits: nat, prefix: nat, width: nat): nat {
    if prefix == 0 then 0
    else if prefix >= width then bits
    else Shl(Shr(bits, width - prefix), width - prefix, 128)
  }

  lemma MaskBitsIsClearLow(bits: nat, prefix: nat, width: nat)
    requires prefix <= width <= 128 && bits < Pow2(width)
    ensures MaskBits(bits, prefix, width) == ClearLow(bits, width - prefix)
  {
    hide Pow2;
    if prefix == 0 {
      LowBitsId(bits, width);
    } else {
      Pow2Mono(width, 128);
      ShrShl(bits, width - prefix, 128);
    }
  }

  lemma MaskBitsIffSamePrefix(x: nat, y: nat, prefix: nat, width: nat)
    requires prefix <= width <= 128 && x < Pow2(width) && y < Pow2(width)
    ensures MaskBits(x, prefix, width) == MaskBits(y, prefix, width) <==> SamePrefix(x, y, prefix, width)
  {
    hide Pow2, Shr, Shl, ClearLow;
    MaskBitsIsClearLow(x, prefix, width);
    MaskBitsIsClearLow(y, prefix, width);
    ShrIffClearLow(x, y, width - prefix);
  }

  // ── The reference: a linear longest-prefix scan ────────────────────────────

  function Flat(entries: seq<Config>): seq<Pair> {
    if entries == [] then []
    else Flat(entries[..|entries| - 1]) + PairsOf(entries[|entries| - 1])
  }

  function PairsOf(c: Config): seq<Pair> {
    seq(|c.cidrs|, i requires 0 <= i < |c.cidrs| => Pair(c.alias, c.cidrs[i]))
  }

  /** IPv4-mapped IPv6 addresses (`::ffff:a.b.c.d`) are treated as IPv4. */
  function Canonicalise(ip: IpAddr): IpAddr {
    if ip.V6? && Shr(ip.bits, 32) == 0xFFFF then V4(LowBits(ip.bits, 32)) else ip
  }

  lemma CanonicaliseValid(ip: IpAddr)
    requires ip.Valid()
    ensures Canonicalise(ip).Valid()
  {
  }

  /** `::ffff:0:0/96`, the IPv4-mapped addresses of section 2.5.5.2 of RFC 4291. */
  predicate IsMapped(ip: IpAddr) {
    ip.V6? && 0xFFFF_0000_0000 <= ip.bits <= 0xFFFF_FFFF_FFFF
  }

  /** Every mapped address becomes the IPv4 address it carries, and no other address changes. */
  lemma CanonicaliseFoldsMapped(ip: IpAddr)
    ensures IsMapped(ip) ==> Canonicalise(ip) == V4(ip.bits - 0xFFFF_0000_0000)
    ensures !IsMapped(ip) ==> Canonicalise(ip) == ip
  {
    hide Pow2, Shr, LowBits;
    ShrDivides(ip.bits, 32);
    TwoTo32();
  }

  lemma TwoTo32()
    ensures Pow2(32) == 0x1_0000_0000
  {
    hide Pow2;
    PowersOfTwo();
    TwoMore(6);
    TwoMore(8);
    TwoMore(10);
    TwoMore(12);
    TwoMore(14);
    TwoMore(16);
    TwoMore(18);
    TwoMore(20);
    TwoMore(22);
    TwoMore(24);
    TwoMore(26);
    TwoMore(28);
    TwoMore(30);
  }

  /** Scans every pair, keeping the first one that covers with a strictly longer prefix. */
  function LinearScan(pairs: seq<Pair>, ip: IpAddr): (best: Option<Pair>)
    ensures best.Some? ==> best.value.cidr.Covers(ip)
  {
    if pairs == [] then None
    else
      var best := LinearScan(pairs[..|pairs| - 1], ip);
      var p := pairs[|pairs| - 1];
      if p.cidr.Covers(ip) && (best.None? || best.value.cidr.Len().value < p.cidr.Len().value)
      then Some(p) else best
  }

  /** The alias the scan ends with. */
  function ScanAlias(pairs: seq<Pair>, ip: IpAddr): Option<string> {
    match LinearScan(pairs, ip)
    case None => None
    case Some(p) => Some(p.alias)
  }

  /** No pair covers the address, or the alias comes from one of the longest that do. */
  ghost predicate IsLongestMatch(pairs: seq<Pair>, ip: IpAddr, r: Option<string>) {
    match r
    case None => forall p :: p in pairs ==> !p.cidr.Covers(ip)
    case Some(a) => exists p :: p in pairs && p.alias == a && Longest(pairs, ip, p)
  }

  ghost predicate Longest(pairs: seq<Pair>, ip: IpAddr, p: Pair) {
    && p.cidr.Covers(ip)
    && forall q :: q in pairs && q.cidr.Covers(ip) ==> q.cidr.Len().value <= p.cidr.Len().value
  }

  lemma {:induction false} LinearScanIsLongest(pairs: seq<Pair>, ip: IpAddr)
    ensures var best := LinearScan(pairs, ip);
            if best.None? then forall p :: p in pairs ==> !p.cidr.Covers(ip)
            else best.value in pairs && Longest(pairs, ip, best.value)
  {
    if pairs != [] {
      var n := |pairs| - 1;
      LinearScanIsLongest(pairs[..n], ip);
      assert pairs == pairs[..n] + [pairs[n]];
    }
  }

  // ── Which configurations are accepted ──────────────────────────────────────

  /** Two prefixes that mask to the same network at the same length. */
  ghost predicate SameSubnet(p: RawPrefix, q: RawPrefix)
    requires p.Len().Some? && q.Len().Some?
  {
    && p.addr.V4? == q.addr.V4? && p.Len() == q.Len()
    && SamePrefix(p.addr.bits, q.addr.bits, p.Len().value, p.addr.Width())
  }

  ghost predicate Parses(pairs: seq<Pair>) {
    forall p :: p in pairs ==> p.cidr.Len().Some?
  }

  ghost predicate Unambiguous(pairs: seq<Pair>)
    requires Parses(pairs)
  {
    forall p, q :: p in pairs && q in pairs && SameSubnet(p.cidr, q.cidr) ==> p.alias == q.alias
  }

  ghost predicate Accepts(entries: seq<Config>) {
    && (forall c :: c in entries ==> c.alias != "")
    && Parses(Flat(entries))
    && Unambiguous(Flat(entries))
  }

  ghost predicate AddressesValid(pairs: seq<Pair>) {
    forall p :: p in pairs ==> p.cidr.Valid()
  }

  /** Covering prefixes of one length are one subnet, so an unambiguous table has one answer. */
  lemma LongestMatchUnique(pairs: seq<Pair>, ip: IpAddr, r: Option<string>, s: Option<string>)
    requires Parses(pairs) && Unambiguous(pairs)
    requires IsLongestMatch(pairs, ip, r) && IsLongestMatch(pairs, ip, s)
    ensures r == s
  {
    if r.Some? && s.Some? {
      var p :| p in pairs && p.alias == r.value && Longest(pairs, ip, p);
      var q :| q in pairs && q.alias == s.value && Longest(pairs, ip, q);
      assert p.cidr.Len().value == q.cidr.Len().value;
      assert SameSubnet(p.cidr, q.cidr);
    }
  }

  lemma LongestMatchSameSet(a: seq<Pair>, b: seq<Pair>, ip: IpAddr, r: Option<string>)
    requires forall p :: p in a <==> p in b
    requires IsLongestMatch(a, ip, r)
    ensures IsLongestMatch(b, ip, r)
  {
    if r.Some? {
      var p :| p in a && p.alias == r.value && Longest(a, ip, p);
      assert p in b && Longest(b, ip, p);
    }
  }

  // ── Building ───────────────────────────────────────────────────────────────

  /** The masked network, the length and the bucket an accepted prefix goes to. */
  function Key(p: RawPrefix): (nat, nat)
    requires p.Len().Some?
  {
    (MaskBits(p.addr.bits, p.Len().value, p.addr.Width()), p.Len().value)
  }

  lemma KeyIffSameSubnet(p: RawPrefix, q: RawPrefix)
    requires p.Valid() && q.Valid() && p.Len().Some? && q.Len().Some? && p.addr.V4? == q.addr.V4?
    ensures Key(p) == Key(q) <==> SameSubnet(p, q)
  {
    if p.Len() == q.Len() {
      hide Pow2;
      MaskBitsIffSamePrefix(p.addr.bits, q.addr.bits, p.Len().value, p.addr.Width());
    }
  }

  /** One bucket entry for every distinct subnet of the family among the pairs read so far. */
  ghost predicate Bucket(bucket: seq<Entry>, pairs: seq<Pair>, v4: bool) {
    && (forall i, j :: 0 <= i < j < |bucket| ==> (bucket[i].net, bucket[i].prefix) != (bucket[j].net, bucket[j].prefix))
    && (forall e :: e in bucket ==> exists p :: p in pairs && Feeds(p, v4, e))
    && (forall p :: p in pairs && p.cidr.Len().Some? && p.cidr.addr.V4? == v4 ==>
          Entry(Key(p.cidr).0, Key(p.cidr).1, p.alias) in bucket)
  }

  ghost predicate Feeds(p: Pair, v4: bool, e: Entry) {
    p.cidr.Len().Some? && p.cidr.addr.V4? == v4 && p.alias == e.alias && Key(p.cidr) == (e.net, e.prefix)
  }

  /** What `Build` has established about the pairs it has read. */
  ghost predicate Progress(v4: seq<Entry>, v6: seq<Entry>, pairs: seq<Pair>) {
    Parses(pairs) && Bucket(v4, pairs, true) && Bucket(v6, pairs, false)
  }

  lemma BucketSkip(bucket: seq<Entry>, pairs: seq<Pair>, v4: bool, p: Pair)
    requires Bucket(bucket, pairs, v4)
    requires p.cidr.Len().Some? && p.cidr.addr.V4? == v4 ==> Entry(Key(p.cidr).0, Key(p.cidr).1, p.alias) in bucket
    ensures Bucket(bucket, pairs + [p], v4)
  {
    forall e | e in bucket
      ensures exists q :: q in pairs + [p] && Feeds(q, v4, e)
    {
      var q :| q in pairs && Feeds(q, v4, e);
      assert q in pairs + [p];
    }
  }

  lemma BucketPush(bucket: seq<Entry>, pairs: seq<Pair>, v4: bool, p: Pair)
    requires Bucket(bucket, pairs, v4)
    requires p.cidr.Len().Some? && p.cidr.addr.V4? == v4
    requires forall e :: e in bucket ==> (e.net, e.prefix) != Key(p.cidr)
    ensures Bucket(bucket + [Entry(Key(p.cidr).0, Key(p.cidr).1, p.alias)], pairs + [p], v4)
  {
    var n := Entry(Key(p.cidr).0, Key(p.cidr).1, p.alias);
    forall e | e in bucket + [n]
      ensures exists q :: q in pairs + [p] && Feeds(q, v4, e)
    {
      if e == n {
        assert p in pairs + [p] && Feeds(p, v4, e);
      } else {
        var q :| q in pairs && Feeds(q, v4, e);
        assert q in pairs + [p];
      }
    }
  }

  /** The error names a real fault of the pairs: a bad prefix, or one subnet under two aliases. */
  ghost predicate Justified(e: BuildError, pairs: seq<Pair>) {
    match e
    case EmptyAlias => false
    case InvalidCidr(a, v) => Pair(a, v) in pairs && v.Len().None?
    case DuplicatePrefix(v, first, second) =>
      && first != second && Pair(second, v) in pairs && v.Len().Some?
      && exists p :: p in pairs && p.alias == first && p.cidr.Len().Some? && SameSubnet(p.cidr, v)
  }

  /** The error is about this prefix under this alias. */
  predicate Names(e: BuildError, alias: string, cidr: RawPrefix) {
    match e
    case EmptyAlias => false
    case InvalidCidr(a, v) => a == alias && v == cidr
    case DuplicatePrefix(v, _, second) => second == alias && v == cidr
  }

  lemma JustifiedRejects(e: BuildError, pairs: seq<Pair>)
    requires Justified(e, pairs)
    ensures !(Parses(pairs) && Unambiguous(pairs))
  {
    if e.DuplicatePrefix? {
      var p :| p in pairs && p.alias == e.first && p.cidr.Len().Some? && SameSubnet(p.cidr, e.value);
      var q := Pair(e.second, e.value);
      assert q in pairs;
    }
  }

  lemma JustifiedMore(e: BuildError, some: seq<Pair>, all: seq<Pair>)
    requires Justified(e, some) && forall p :: p in some ==> p in all
    ensures Justified(e, all)
  {
    if e.DuplicatePrefix? {
      var p :| p in some && p.alias == e.first && p.cidr.Len().Some? && SameSubnet(p.cidr, e.value);
      assert p in all;
    }
  }

  /** A bucket entry under the same key with another alias is a second alias for the subnet. */
  lemma Conflict(bucket: seq<Entry>, pairs: seq<Pair>, v4: bool, p: Pair, e: Entry)
    requires Bucket(bucket, pairs, v4) && e in bucket
    requires p.cidr.Len().Some? && p.cidr.addr.V4? == v4 && (e.net, e.prefix) == Key(p.cidr) && e.alias != p.alias
    requires AddressesValid(pairs + [p])
    ensures Justified(DuplicatePrefix(p.cidr, e.alias, p.alias), pairs + [p])
  {
    var q :| q in pairs && Feeds(q, v4, e);
    assert p in pairs + [p] && q in pairs + [p];
    KeyIffSameSubnet(q.cidr, p.cidr);
  }

  method FindKey(bucket: seq<Entry>, net: nat, prefix: nat) returns (r: Option<nat>)
    ensures r.Some? ==> r.value < |bucket| && bucket[r.value].net == net && bucket[r.value].prefix == prefix
    ensures r.None? ==> forall e :: e in bucket ==> (e.net, e.prefix) != (net, prefix)
  {
    for i := 0 to |bucket|
      invariant forall j :: 0 <= j < i ==> (bucket[j].net, bucket[j].prefix) != (net, prefix)
    {
      if bucket[i].net == net && bucket[i].prefix == prefix { return Some(i); }
    }
    r := None;
  }

  /** Adds one prefix to its family's bucket, unless it is there already. */
  method AddPrefix(v4: seq<Entry>, v6: seq<Entry>, alias: string, cidr: RawPrefix, ghost pairs: seq<Pair>)
    returns (r: Result<(seq<Entry>, seq<Entry>), BuildError>)
    requires Progress(v4, v6, pairs) && AddressesValid(pairs + [Pair(alias, cidr)])
    ensures r.Ok? ==> Progress(r.value.0, r.value.1, pairs + [Pair(alias, cidr)])
    ensures r.Err? ==> Justified(r.error, pairs + [Pair(alias, cidr)]) && Names(r.error, alias, cidr)
  {
    var p := Pair(alias, cidr);
    assert p in pairs + [p];
    if cidr.Len().None? { return Err(InvalidCidr(alias, cidr)); }
    var isV4 := cidr.addr.V4?;
    var bucket := if isV4 then v4 else v6;
    var (net, prefix) := Key(cidr);
    var found := FindKey(bucket, net, prefix);
    BucketOther(v4, v6, pairs, p);
    if found.Some? {
      var existing := bucket[found.value];
      if existing.alias != alias {
        Conflict(bucket, pairs, isV4, p, existing);
        return Err(DuplicatePrefix(cidr, existing.alias, alias));
      }
      BucketSkip(bucket, pairs, isV4, p);
      return Ok((v4, v6));
    }
    BucketPush(bucket, pairs, isV4, p);
    var e := Entry(net, prefix, alias);
    r := if isV4 then Ok((v4 + [e], v6)) else Ok((v4, v6 + [e]));
  }

  lemma BucketOther(v4: seq<Entry>, v6: seq<Entry>, pairs: seq<Pair>, p: Pair)
    requires Progress(v4, v6, pairs) && p.cidr.Len().Some?
    ensures Parses(pairs + [p])
    ensures p.cidr.addr.V4? ==> Bucket(v6, pairs + [p], false)
    ensures !p.cidr.addr.V4? ==> Bucket(v4, pairs + [p], true)
  {
    if p.cidr.addr.V4? { BucketSkip(v6, pairs, false, p); } else { BucketSkip(v4, pairs, true, p); }
  }

  // ── Grouping ───────────────────────────────────────────────────────────────

  ghost predicate Stored(groups: seq<PrefixGroup>, e: Entry) {
    exists g :: g in groups && g.prefix == e.prefix && NetAlias(e.net, e.alias) in g.nets
  }

  predicate Ascending(nets: seq<NetAlias>) {
    forall i, j :: 0 <= i < j < |nets| ==> nets[i].net < nets[j].net
  }

  /** Groups run from the longest prefix to the shortest, each ready for binary search. */
  ghost predicate WellGrouped(groups: seq<PrefixGroup>) {
    && (forall i, j :: 0 <= i < j < |groups| ==> groups[i].prefix > groups[j].prefix)
    && (forall g :: g in groups ==> Ascending(g.nets))
  }

  predicate Before(a: Entry, b: Entry) {
    a.prefix > b.prefix || (a.prefix == b.prefix && a.net <= b.net)
  }

  ghost predicate SameEntries(groups: seq<PrefixGroup>, entries: seq<Entry>) {
    forall e :: Stored(groups, e) <==> e in entries
  }

  predicate LastIs(groups: seq<PrefixGroup>, e: Entry) {
    |groups| > 0 && groups[|groups| - 1].prefix == e.prefix && |groups[|groups| - 1].nets| > 0
    && groups[|groups| - 1].nets[|groups[|groups| - 1].nets| - 1] == NetAlias(e.net, e.alias)
  }

  function Extended(groups: seq<PrefixGroup>, e: Entry): seq<PrefixGroup>
    requires groups != []
  {
    var n := |groups| - 1;
    groups[n := PrefixGroup(groups[n].prefix, groups[n].nets + [NetAlias(e.net, e.alias)])]
  }

  lemma ExtendedIsGrouped(groups: seq<PrefixGroup>, last: Entry, e: Entry)
    requires WellGrouped(groups) && LastIs(groups, last) && last.prefix == e.prefix && last.net < e.net
    ensures WellGrouped(Extended(groups, e)) && LastIs(Extended(groups, e), e)
  {
    var n := |groups| - 1;
    assert groups[n] in groups;
    forall g | g in Extended(groups, e)
      ensures Ascending(g.nets)
    {
      if g !in groups { assert g == Extended(groups, e)[n]; }
    }
  }

  lemma ExtendedStores(groups: seq<PrefixGroup>, e: Entry, x: Entry)
    requires groups != [] && groups[|groups| - 1].prefix == e.prefix
    ensures Stored(Extended(groups, e), x) <==> Stored(groups, x) || x == e
  {
    var n, out := |groups| - 1, Extended(groups, e);
    var net := NetAlias(x.net, x.alias);
    assert out[n] in out && groups[n] in groups;
    if Stored(out, x) {
      var h :| h in out && h.prefix == x.prefix && net in h.nets;
      var k :| 0 <= k < |out| && out[k] == h;
      assert groups[k] in groups;
      assert x == e || net in groups[k].nets;
    }
    if Stored(groups, x) {
      var h :| h in groups && h.prefix == x.prefix && net in h.nets;
      var k :| 0 <= k < |groups| && groups[k] == h;
      assert out[k] in out && net in out[k].nets;
    }
    assert x == e ==> net in out[n].nets;
  }

  lemma ExtendGroup(groups: seq<PrefixGroup>, done: seq<Entry>, last: Entry, e: Entry)
    requires WellGrouped(groups) && SameEntries(groups, done)
    requires LastIs(groups, last) && last.prefix == e.prefix && last.net < e.net
    ensures WellGrouped(Extended(groups, e)) && SameEntries(Extended(groups, e), done + [e]) && LastIs(Extended(groups, e), e)
  {
    hide WellGrouped, Stored, Extended;
    ExtendedIsGrouped(groups, last, e);
    forall x: Entry
      ensures Stored(Extended(groups, e), x) <==> x in done + [e]
    {
      ExtendedStores(groups, e, x);
    }
  }

  lemma NewGroup(groups: seq<PrefixGroup>, done: seq<Entry>, e: Entry)
    requires WellGrouped(groups) && SameEntries(groups, done)
    requires forall g :: g in groups ==> g.prefix > e.prefix
    ensures var g := PrefixGroup(e.prefix, [NetAlias(e.net, e.alias)]);
            WellGrouped(groups + [g]) && SameEntries(groups + [g], done + [e]) && LastIs(groups + [g], e)
  {
    var g := PrefixGroup(e.prefix, [NetAlias(e.net, e.alias)]);
    var out := groups + [g];
    forall x: Entry
      ensures Stored(out, x) <==> x in done + [e]
    {
      if Stored(groups, x) {
        var h :| h in groups && h.prefix == x.prefix && NetAlias(x.net, x.alias) in h.nets;
        assert h in out;
      }
      assert g in out && NetAlias(e.net, e.alias) in g.nets;
    }
  }

  /** Distinct keys, sorted by falling prefix and rising network, follow each other strictly. */
  lemma StrictlySorted(sorted: seq<Entry>, entries: seq<Entry>)
    requires SortedBy(sorted, Before) && multiset(sorted) == multiset(entries)
    requires forall i, j :: 0 <= i < j < |entries| ==> (entries[i].net, entries[i].prefix) != (entries[j].net, entries[j].prefix)
    ensures forall i :: 0 < i < |sorted| ==>
              sorted[i - 1].prefix > sorted[i].prefix || (sorted[i - 1].prefix == sorted[i].prefix && sorted[i - 1].net < sorted[i].net)
  {
    forall i | 0 < i < |sorted|
      ensures (sorted[i - 1].net, sorted[i - 1].prefix) != (sorted[i].net, sorted[i].prefix)
      ensures Before(sorted[i - 1], sorted[i])
    {
      var a, b := sorted[i - 1], sorted[i];
      assert a in multiset(entries) && b in multiset(entries);
      if (a.net, a.prefix) == (b.net, b.prefix) {
        if a == b {
          assert sorted == sorted[..i - 1] + [a, b] + sorted[i + 1..];
          assert multiset(sorted)[a] >= 2;
          TwiceMeansTwoPlaces(entries, a);
        }
      }
    }
  }

  lemma {:induction false} TwiceMeansTwoPlaces(s: seq<Entry>, x: Entry)
    requires multiset(s)[x] >= 2
    ensures exists i, j :: 0 <= i < j < |s| && s[i] == x && s[j] == x
  {
    var n := |s| - 1;
    assert s == s[..n] + [s[n]];
    if s[n] == x {
      assert x in multiset(s[..n]);
      var i :| 0 <= i < n && s[..n][i] == x;
      assert s[i] == x && s[n] == x;
    } else {
      TwiceMeansTwoPlaces(s[..n], x);
      var i, j :| 0 <= i < j < n && s[..n][i] == x && s[..n][j] == x;
      assert s[i] == x && s[j] == x;
    }
  }

  method GroupByPrefix(entries: seq<Entry>) returns (groups: seq<PrefixGroup>)
    requires forall i, j :: 0 <= i < j < |entries| ==> (entries[i].net, entries[i].prefix) != (entries[j].net, entries[j].prefix)
    ensures WellGrouped(groups) && SameEntries(groups, entries)
  {
    var sorted := SortBy(entries, Before);
    StrictlySorted(sorted, entries);
    groups := [];
    for i := 0 to |sorted|
      invariant WellGrouped(groups) && SameEntries(groups, sorted[..i])
      invariant i == 0 ==> groups == []
      invariant i > 0 ==> LastIs(groups, sorted[i - 1])
    {
      var e := sorted[i];
      assert sorted[..i + 1] == sorted[..i] + [e];
      if |groups| > 0 && groups[|groups| - 1].prefix == e.prefix {
        ExtendGroup(groups, sorted[..i], sorted[i - 1], e);
        var n := |groups| - 1;
        groups := groups[n := PrefixGroup(groups[n].prefix, groups[n].nets + [NetAlias(e.net, e.alias)])];
      } else {
        NewGroup(groups, sorted[..i], e);
        groups := groups + [PrefixGroup(e.prefix, [NetAlias(e.net, e.alias)])];
      }
    }
    assert sorted[..|sorted|] == sorted;
    forall e: Entry
      ensures Stored(groups, e) <==> e in entries
    {
      SameMembers(sorted, entries, e);
    }
  }

  /** The table holds exactly the subnets of the configuration, ready to search. */
  ghost predicate Holds(t: Table, pairs: seq<Pair>) {
    WellGrouped(t.v4) && WellGrouped(t.v6) && HoldsFamily(t.v4, pairs, true) && HoldsFamily(t.v6, pairs, false)
  }

  ghost predicate HoldsFamily(groups: seq<PrefixGroup>, pairs: seq<Pair>, v4: bool) {
    && (forall e :: Stored(groups, e) ==> exists p :: p in pairs && Feeds(p, v4, e))
    && (forall p :: p in pairs && p.cidr.Len().Some? && p.cidr.addr.V4? == v4 ==>
          Stored(groups, Entry(Key(p.cidr).0, Key(p.cidr).1, p.alias)))
  }

  /** Everything before entry `i` is acceptable, and `e` names a fault that entry brings. */
  ghost predicate FailsAt(entries: seq<Config>, i: nat, e: BuildError) {
    && i < |entries| && Accepts(entries[..i])
    && (match e
        case EmptyAlias => entries[i].alias == ""
        case InvalidCidr(a, v) => a == entries[i].alias && v in entries[i].cidrs && v.Len().None?
        case DuplicatePrefix(v, first, second) =>
          && second == entries[i].alias != first && v in entries[i].cidrs && v.Len().Some?
          && exists p :: p in Flat(entries[..i]) && p.alias == first && p.cidr.Len().Some? && SameSubnet(p.cidr, v))
  }

  /** Building succeeds exactly on unambiguous, well-formed configuration; an error names the fault of the first entry that has one. */
  method Build(entries: seq<Config>) returns (r: Result<Table, BuildError>)
    requires AddressesValid(Flat(entries))
    ensures r.Ok? <==> Accepts(entries)
    ensures r.Ok? ==> Holds(r.value, Flat(entries))
    ensures r.Err? ==> exists i: nat :: FailsAt(entries, i, r.error)
  {
    hide Pow2, PairsOf;
    var v4: seq<Entry>, v6: seq<Entry> := [], [];
    for i := 0 to |entries|
      invariant forall j :: 0 <= j < i ==> entries[j].alias != ""
      invariant Progress(v4, v6, Flat(entries[..i]))
    {
      FlatStep(entries, i);
      AcceptedSoFar(v4, v6, entries, i);
      if entries[i].alias == "" {
        assert FailsAt(entries, i, EmptyAlias);
        return Err(EmptyAlias);
      }
      var added := AddConfig(v4, v6, entries[i], Flat(entries[..i]));
      if added.Err? {
        JustifiedMore(added.error, Flat(entries[..i + 1]), Flat(entries));
        JustifiedRejects(added.error, Flat(entries));
        FaultOf(entries, i, added.error);
        return Err(added.error);
      }
      v4, v6 := added.value.0, added.value.1;
    }
    assert entries[..|entries|] == entries;
    ProgressAccepts(v4, v6, Flat(entries));
    var g4 := GroupByPrefix(v4);
    var g6 := GroupByPrefix(v6);
    r := Ok(Table(g4, g6));
  }

  lemma AcceptedSoFar(v4: seq<Entry>, v6: seq<Entry>, entries: seq<Config>, i: nat)
    requires i <= |entries| && Progress(v4, v6, Flat(entries[..i])) && AddressesValid(Flat(entries))
    requires forall j :: 0 <= j < i ==> entries[j].alias != ""
    ensures Accepts(entries[..i])
  {
    hide Pow2, PairsOf;
    FlatPrefix(entries, i);
    ProgressAccepts(v4, v6, Flat(entries[..i]));
  }

  lemma FaultOf(entries: seq<Config>, i: nat, e: BuildError)
    requires i < |entries| && Accepts(entries[..i]) && Justified(e, Flat(entries[..i]) + PairsOf(entries[i]))
    requires exists v :: v in entries[i].cidrs && Names(e, entries[i].alias, v)
    ensures FailsAt(entries, i, e)
  {
    var before := Flat(entries[..i]);
    if e.DuplicatePrefix? {
      var p :| p in before + PairsOf(entries[i]) && p.alias == e.first && p.cidr.Len().Some? && SameSubnet(p.cidr, e.value);
      assert p in before;
    }
  }

  /** The inner loop of `Build`: every prefix listed for one alias. */
  method AddConfig(a4: seq<Entry>, a6: seq<Entry>, c: Config, ghost before: seq<Pair>)
    returns (r: Result<(seq<Entry>, seq<Entry>), BuildError>)
    requires Progress(a4, a6, before) && AddressesValid(before + PairsOf(c))
    ensures r.Ok? ==> Progress(r.value.0, r.value.1, before + PairsOf(c))
    ensures r.Err? ==> Justified(r.error, before + PairsOf(c)) && exists v :: v in c.cidrs && Names(r.error, c.alias, v)
  {
    var v4, v6 := a4, a6;
    assert before + PairsOf(c)[..0] == before;
    for k := 0 to |c.cidrs|
      invariant Progress(v4, v6, before + PairsOf(c)[..k])
    {
      ghost var read := before + PairsOf(c)[..k];
      assert before + PairsOf(c)[..k + 1] == read + [Pair(c.alias, c.cidrs[k])];
      assert forall p :: p in before + PairsOf(c)[..k + 1] ==> p in before + PairsOf(c);
      var added := AddPrefix(v4, v6, c.alias, c.cidrs[k], read);
      if added.Err? {
        JustifiedMore(added.error, read + [Pair(c.alias, c.cidrs[k])], before + PairsOf(c));
        assert c.cidrs[k] in c.cidrs && Names(added.error, c.alias, c.cidrs[k]);
        return Err(added.error);
      }
      v4, v6 := added.value.0, added.value.1;
    }
    assert PairsOf(c)[..|c.cidrs|] == PairsOf(c);
    r := Ok((v4, v6));
  }

  lemma FlatStep(entries: seq<Config>, i: nat)
    requires i < |entries| && AddressesValid(Flat(entries))
    ensures Flat(entries[..i + 1]) == Flat(entries[..i]) + PairsOf(entries[i])
    ensures AddressesValid(Flat(entries[..i + 1]))
    ensures forall p :: p in Flat(entries[..i + 1]) ==> p in Flat(entries)
  {
    hide Pow2, PairsOf;
    assert entries[..i + 1][..i] == entries[..i];
    FlatPrefix(entries, i + 1);
  }

  lemma {:induction false} FlatPrefix(entries: seq<Config>, i: nat)
    requires i <= |entries|
    ensures forall p :: p in Flat(entries[..i]) ==> p in Flat(entries)
    decreases |entries| - i
  {
    if i < |entries| {
      FlatPrefix(entries, i + 1);
      assert entries[..i + 1][..i] == entries[..i];
    } else {
      assert entries[..i] == entries;
    }
  }

  lemma ProgressAccepts(v4: seq<Entry>, v6: seq<Entry>, pairs: seq<Pair>)
    requires Progress(v4, v6, pairs) && AddressesValid(pairs)
    ensures Unambiguous(pairs)
  {
    forall p, q | p in pairs && q in pairs && SameSubnet(p.cidr, q.cidr)
      ensures p.alias == q.alias
    {
      KeyIffSameSubnet(p.cidr, q.cidr);
      var bucket := if p.cidr.addr.V4? then v4 else v6;
      var e, f := Entry(Key(p.cidr).0, Key(p.cidr).1, p.alias), Entry(Key(q.cidr).0, Key(q.cidr).1, q.alias);
      assert e in bucket && f in bucket;
    }
  }

  // ── Resolving ──────────────────────────────────────────────────────────────

  method BinarySearch(nets: seq<NetAlias>, net: nat) returns (r: Option<nat>)
    requires Ascending(nets)
    ensures r.Some? ==> r.value < |nets| && nets[r.value].net == net
    ensures r.None? ==> forall n :: n in nets ==> n.net != net
  {
    var lo, hi := 0, |nets|;
    while lo < hi
      invariant 0 <= lo <= hi <= |nets|
      invariant forall j :: 0 <= j < lo ==> nets[j].net < net
      invariant forall j :: hi <= j < |nets| ==> net < nets[j].net
    {
      var mid := (lo + hi) / 2;
      if nets[mid].net == net { return Some(mid); }
      if nets[mid].net < net { lo := mid + 1; } else { hi := mid; }
    }
    r := None;
  }

  method Resolve(t: Table, ip: IpAddr, ghost pairs: seq<Pair>) returns (r: Option<string>)
    requires ip.Valid() && AddressesValid(pairs) && Parses(pairs) && Holds(t, pairs)
    ensures IsMapped(ip) ==> IsLongestMatch(pairs, V4(ip.bits - 0xFFFF_0000_0000), r)
    ensures !IsMapped(ip) ==> IsLongestMatch(pairs, ip, r)
    ensures Unambiguous(pairs) ==> r == ScanAlias(pairs, if IsMapped(ip) then V4(ip.bits - 0xFFFF_0000_0000) else ip)
  {
    hide Pow2, MaskBits, IsLongestMatch, Unambiguous, ScanAlias;
    CanonicaliseValid(ip);
    CanonicaliseFoldsMapped(ip);
    var c := Canonicalise(ip);
    var width := c.Width();
    var groups := if c.V4? then t.v4 else t.v6;
    for k := 0 to |groups|
      invariant forall j, n :: 0 <= j < k && n in groups[j].nets ==> n.net != MaskBits(c.bits, groups[j].prefix, width)
    {
      var g := groups[k];
      var net := MaskBits(c.bits, g.prefix, width);
      assert g in groups;
      var found := BinarySearch(g.nets, net);
      if found.Some? {
        r := Some(g.nets[found.value].alias);
        FirstHitIsLongest(groups, pairs, c, k, g.nets[found.value]);
        if Unambiguous(pairs) { LongestIsScan(pairs, c, r); }
        return;
      }
    }
    MissMeansNone(groups, pairs, c);
    r := None;
    if Unambiguous(pairs) { LongestIsScan(pairs, c, r); }
  }

  lemma CoversIffMatches(p: RawPrefix, ip: IpAddr)
    requires p.Valid() && ip.Valid() && p.Len().Some? && p.addr.V4? == ip.V4?
    ensures p.Covers(ip) <==> MaskBits(ip.bits, Key(p).1, ip.Width()) == Key(p).0
  {
    hide Pow2;
    MaskBitsIffSamePrefix(p.addr.bits, ip.bits, p.Len().value, ip.Width());
  }

  lemma FirstHitIsLongest(groups: seq<PrefixGroup>, pairs: seq<Pair>, ip: IpAddr, k: nat, hit: NetAlias)
    requires ip.Valid() && AddressesValid(pairs) && Parses(pairs)
    requires WellGrouped(groups) && HoldsFamily(groups, pairs, ip.V4?)
    requires k < |groups| && hit in groups[k].nets && hit.net == MaskBits(ip.bits, groups[k].prefix, ip.Width())
    requires forall j, n :: 0 <= j < k && n in groups[j].nets ==> n.net != MaskBits(ip.bits, groups[j].prefix, ip.Width())
    ensures IsLongestMatch(pairs, ip, Some(hit.alias))
  {
    hide Pow2, MaskBits;
    var e := Entry(hit.net, groups[k].prefix, hit.alias);
    assert groups[k] in groups;
    assert Stored(groups, e);
    var p :| p in pairs && Feeds(p, ip.V4?, e);
    CoversIffMatches(p.cidr, ip);
    forall q | q in pairs && q.cidr.Covers(ip)
      ensures q.cidr.Len().value <= p.cidr.Len().value
    {
      var j := CoveringGroup(groups, pairs, ip, q);
      assert j >= k;
    }
  }

  /** A covering subnet sits in the group of its length, under the masked address. */
  lemma CoveringGroup(groups: seq<PrefixGroup>, pairs: seq<Pair>, ip: IpAddr, q: Pair) returns (j: nat)
    requires ip.Valid() && AddressesValid(pairs) && Parses(pairs)
    requires HoldsFamily(groups, pairs, ip.V4?)
    requires q in pairs && q.cidr.Covers(ip)
    ensures j < |groups| && groups[j].prefix == q.cidr.Len().value
    ensures NetAlias(MaskBits(ip.bits, groups[j].prefix, ip.Width()), q.alias) in groups[j].nets
  {
    CoversIffMatches(q.cidr, ip);
    var f := Entry(Key(q.cidr).0, Key(q.cidr).1, q.alias);
    assert Stored(groups, f);
    var g :| g in groups && g.prefix == f.prefix && NetAlias(f.net, f.alias) in g.nets;
    j :| 0 <= j < |groups| && groups[j] == g;
  }

  lemma MissMeansNone(groups: seq<PrefixGroup>, pairs: seq<Pair>, ip: IpAddr)
    requires ip.Valid() && AddressesValid(pairs) && Parses(pairs)
    requires HoldsFamily(groups, pairs, ip.V4?)
    requires forall j, n :: 0 <= j < |groups| && n in groups[j].nets ==> n.net != MaskBits(ip.bits, groups[j].prefix, ip.Width())
    ensures IsLongestMatch(pairs, ip, None)
  {
    forall q | q in pairs
      ensures !q.cidr.Covers(ip)
    {
      if q.cidr.Covers(ip) {
        var j := CoveringGroup(groups, pairs, ip, q);
      }
    }
  }

  // ── What the table promises ────────────────────────────────────────────────

  /** Without ambiguity the longest match is what the linear scan finds. */
  lemma LongestIsScan(pairs: seq<Pair>, ip: IpAddr, r: Option<string>)
    requires Parses(pairs) && Unambiguous(pairs) && IsLongestMatch(pairs, ip, r)
    ensures r == ScanAlias(pairs, ip)
  {
    LinearScanIsLongest(pairs, ip);
    var best := LinearScan(pairs, ip);
    var s := if best.None? then None else Some(best.value.alias);
    assert IsLongestMatch(pairs, ip, s);
    LongestMatchUnique(pairs, ip, r, s);
  }

  /** A longest match on an accepted configuration is what the linear scan finds. */
  lemma ResolveIsLinearScan(entries: seq<Config>, ip: IpAddr, r: Option<string>)
    requires Accepts(entries)
    ensures IsLongestMatch(Flat(entries), ip, r) <==> r == ScanAlias(Flat(entries), ip)
  {
    LinearScanIsLongest(Flat(entries), ip);
    if IsLongestMatch(Flat(entries), ip, r) { LongestIsScan(Flat(entries), ip, r); }
  }

  /** Neither acceptance nor any answer depends on the order or grouping of the entries. */
  lemma OrderIndependent(a: seq<Config>, b: seq<Config>, ip: IpAddr, r: Option<string>, s: Option<string>)
    requires forall p :: p in Flat(a) <==> p in Flat(b)
    requires (exists c :: c in a && c.alias == "") <==> (exists c :: c in b && c.alias == "")
    ensures Accepts(a) <==> Accepts(b)
    ensures Accepts(a) && IsLongestMatch(Flat(a), ip, r) && IsLongestMatch(Flat(b), ip, s) ==> r == s
  {
    assert Parses(Flat(a)) <==> Parses(Flat(b));
    if Accepts(a) && IsLongestMatch(Flat(a), ip, r) && IsLongestMatch(Flat(b), ip, s) {
      LongestMatchSameSet(Flat(b), Flat(a), ip, s);
      LongestMatchUnique(Flat(a), ip, r, s);
    }
  }
}
