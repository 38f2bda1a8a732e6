/**
 Random outbound IPv6 sources: the byte-wise prefix mask of the server, and its
 agreement with the two other prefix implementations of the workspace (the
 shift mask of the alias table and the range start of the routing set).
 */
module OutboundPrefix {
  import opened Wrappers
  import opened Bits
  import opened Bytes
  import Cidr
  import IpAlias

  datatype Ipv6Prefix = Ipv6Prefix(network: seq<Byte>, prefixLen: nat) {
    predicate Valid() {
      |network| == 16 && prefixLen <= 128 && MaskBytes(network, prefixLen) == network
    }
  }

  datatype PrefixError = LenRange(len: nat)

  // ── Byte-wise masking ──────────────────────────────────────────────────────

  /** The bits of byte `i` that belong to the first `len` bits. */
  function KeepByte(i: nat, len: nat): Byte {
    var bitIndex := i * 8;
    if bitIndex >= len then 0
    else if len - bitIndex >= 8 then 0xFF
    else
      ByteShl(8 - (len - bitIndex));
      Shl(0xFF, 8 - (len - bitIndex), 8)
  }

  lemma ByteShl(k: nat)
    requires k <= 8
    ensures Pow2(8) == 256 && Pow2(k) <= 256 && Shl(0xFF, k, 8) == 256 - Pow2(k)
  {
    assert Pow2(4) == 16 && Pow2(8) == 256;
    ShlOnes(k, 8);
  }

  function MaskByte(b: Byte, i: nat, len: nat): Byte {
    MaskByteIsClearLow(b, i, len);
    And(b, KeepByte(i, len))
  }

  /** How many low bits of byte `i` the prefix leaves free. */
  function FreeBits(i: nat, len: nat): (k: nat)
    ensures k <= 8
  {
    if len <= i * 8 then 8 else if len >= i * 8 + 8 then 0 else i * 8 + 8 - len
  }

  lemma KeepIsHighMask(i: nat, len: nat)
    ensures Pow2(FreeBits(i, len)) <= 256
    ensures KeepByte(i, len) == 256 - Pow2(FreeBits(i, len))
  {
    ByteShl(FreeBits(i, len));
  }

  lemma MaskByteIsClearLow(b: Byte, i: nat, len: nat)
    ensures And(b, KeepByte(i, len)) == ClearLow(b, FreeBits(i, len)) <= b
  {
    ByteShl(0);
    KeepIsHighMask(i, len);
    AndHighMask(b, FreeBits(i, len), 8);
  }

  function MaskBytes(octets: seq<Byte>, len: nat): seq<Byte> {
    seq(|octets|, i requires 0 <= i < |octets| => MaskByte(octets[i], i, len))
  }

  method MaskToPrefix(octets: seq<Byte>, len: nat) returns (out: array<Byte>)
    requires |octets| == 16
    ensures out[..] == MaskBytes(octets, len)
  {
    hide And, Pow2, KeepByte, ClearLow;
    out := new Byte[16](_ => 0);
    for i := 0 to 16
      invariant forall j :: 0 <= j < i ==> out[j] == MaskByte(octets[j], j, len)
    {
      MaskByteIsClearLow(octets[i], i, len);
      out[i] := And(octets[i], KeepByte(i, len));
    }
  }

  /** A prefix is stored masked; lengths above 128 are refused. */
  method New(octets: seq<Byte>, len: nat) returns (r: Result<Ipv6Prefix, PrefixError>)
    requires |octets| == 16
    ensures r.Ok? <==> len <= 128
    ensures r.Ok? ==> r.value.Valid() && r.value == Ipv6Prefix(MaskBytes(octets, len), len)
    ensures r.Err? ==> r.error == LenRange(len)
  {
    if len > 128 { return Err(LenRange(len)); }
    var net := MaskToPrefix(octets, len);
    MaskIdempotent(octets, len);
    r := Ok(Ipv6Prefix(net[..], len));
  }

  lemma MaskIdempotent(octets: seq<Byte>, len: nat)
    ensures MaskBytes(MaskBytes(octets, len), len) == MaskBytes(octets, len)
  {
    var m := MaskBytes(octets, len);
    forall i | 0 <= i < |octets|
      ensures MaskByte(m[i], i, len) == m[i]
    {
      var k := FreeBits(i, len);
      MaskByteIsClearLow(octets[i], i, len);
      MaskByteIsClearLow(m[i], i, len);
      ClearLowIsClear(octets[i], k);
    }
  }

  // ── Drawing a source ───────────────────────────────────────────────────────

  function DrawByte(net: Byte, random: Byte, i: nat, len: nat): Byte {
    ByteShl(0);
    DrawByteIsSum(net, random, i, len);
    Or(And(net, KeepByte(i, len)), And(random, Not(KeepByte(i, len), 8)))
  }

  lemma DrawByteIsSum(net: Byte, random: Byte, i: nat, len: nat)
    ensures KeepByte(i, len) < Pow2(8) == 256
    ensures var k := FreeBits(i, len);
            var r := Or(And(net, KeepByte(i, len)), And(random, Not(KeepByte(i, len), 8)));
            r == ClearLow(net, k) + LowBits(random, k) < 256
  {
    hide And, Or, Pow2, KeepByte, ClearLow, LowBits, Shl;
    var k := FreeBits(i, len);
    ByteShl(0);
    KeepIsHighMask(i, len);
    MaskByteIsClearLow(net, i, len);
    AndOnes(random, k);
    ClearLowIsClear(net, k);
    OrDisjoint(ClearLow(net, k), LowBits(random, k), k);
    Cidr.BlockFits(net, k, 8);
  }

  function DrawBytes(net: seq<Byte>, random: seq<Byte>, len: nat): seq<Byte>
    requires |net| == |random|
  {
    seq(|net|, i requires 0 <= i < |net| => DrawByte(net[i], random[i], i, len))
  }

  method RandomAddr(p: Ipv6Prefix, random: seq<Byte>) returns (out: array<Byte>)
    requires p.Valid() && |random| == 16
    ensures out[..] == DrawBytes(p.network, random, p.prefixLen)
  {
    hide And, Or, Pow2, KeepByte, ClearLow, LowBits;
    out := new Byte[16](_ => 0);
    for i := 0 to 16
      invariant forall j :: 0 <= j < i ==> out[j] == DrawByte(p.network[j], random[j], j, p.prefixLen)
    {
      var keep := KeepByte(i, p.prefixLen);
      DrawByteIsSum(p.network[i], random[i], i, p.prefixLen);
      out[i] := Or(And(p.network[i], keep), And(random[i], Not(keep, 8)));
    }
  }

  /** Every draw masks back to the prefix, and every address of the prefix can be drawn. */
  lemma DrawsAreThePrefix(p: Ipv6Prefix, a: seq<Byte>)
    requires p.Valid() && |a| == 16
    ensures MaskBytes(DrawBytes(p.network, a, p.prefixLen), p.prefixLen) == p.network
    ensures MaskBytes(a, p.prefixLen) == p.network ==> DrawBytes(p.network, a, p.prefixLen) == a
  {
    var len := p.prefixLen;
    var d := DrawBytes(p.network, a, len);
    forall i | 0 <= i < 16
      ensures MaskByte(d[i], i, len) == p.network[i]
      ensures MaskByte(a[i], i, len) == p.network[i] ==> d[i] == a[i]
    {
      assert MaskBytes(p.network, len)[i] == p.network[i];
      DrawnByteMasksBack(p.network[i], a[i], i, len);
    }
    if MaskBytes(a, len) == p.network {
      forall i | 0 <= i < 16
        ensures d[i] == a[i]
      {
        assert MaskBytes(a, len)[i] == p.network[i];
      }
    }
  }

  lemma DrawnByteMasksBack(net: Byte, a: Byte, i: nat, len: nat)
    requires MaskByte(net, i, len) == net
    ensures MaskByte(DrawByte(net, a, i, len), i, len) == net
    ensures MaskByte(a, i, len) == net ==> DrawByte(net, a, i, len) == a
  {
    hide And, Or, Pow2, KeepByte;
    var k := FreeBits(i, len);
    DrawByteIsSum(net, a, i, len);
    MaskByteIsClearLow(net, i, len);
    MaskByteIsClearLow(a, i, len);
    MaskByteIsClearLow(DrawByte(net, a, i, len), i, len);
    ClearLowIsClear(net, k);
    ClearLowOfSum(net, LowBits(a, k), k);
  }

  // ── Three implementations, one mask ────────────────────────────────────────

  /** `x` shifted left by `j` bits, without truncation. */
  function Scale(x: nat, j: nat): nat {
    if j == 0 then x else 2 * Scale(x, j - 1)
  }

  lemma ScaleByte(x: nat)
    ensures Scale(x, 8) == 256 * x
  {
    assert Scale(x, 1) == 2 * x;
    assert Scale(x, 2) == 4 * x;
    assert Scale(x, 4) == 4 * Scale(x, 2);
    assert Scale(x, 6) == 4 * Scale(x, 4);
  }

  lemma {:induction false} ClearAbove(x: nat, b: nat, j: nat, k: nat)
    requires b < Pow2(j)
    ensures ClearLow(Scale(x, j) + b, k + j) == Scale(ClearLow(x, k), j)
  {
    if j > 0 {
      assert (Scale(x, j) + b) / 2 == Scale(x, j - 1) + b / 2;
      ClearAbove(x, b / 2, j - 1, k);
    }
  }

  lemma {:induction false} ClearWithin(x: nat, b: nat, j: nat, k: nat)
    requires k <= j && b < Pow2(j)
    ensures ClearLow(Scale(x, j) + b, k) == Scale(x, j) + ClearLow(b, k)
  {
    if k > 0 {
      assert (Scale(x, j) + b) / 2 == Scale(x, j - 1) + b / 2;
      ClearWithin(x, b / 2, j - 1, k - 1);
    }
  }

  lemma {:induction false} BigEndianBound(s: seq<Byte>)
    ensures BigEndian(s) < Pow2(8 * |s|)
  {
    if |s| > 0 {
      var n := |s| - 1;
      BigEndianBound(s[..n]);
      Pow2Step(8 * n);
    }
  }

  lemma Pow2Step(k: nat)
    ensures Pow2(k + 8) == 256 * Pow2(k)
  {
    assert Pow2(k + 2) == 4 * Pow2(k);
    assert Pow2(k + 4) == 4 * Pow2(k + 2);
    assert Pow2(k + 6) == 4 * Pow2(k + 4);
  }

  lemma {:induction false} MaskBytesIsClearLow(s: seq<Byte>, len: nat)
    requires len <= 8 * |s|
    ensures BigEndian(MaskBytes(s, len)) == ClearLow(BigEndian(s), 8 * |s| - len)
  {
    hide Pow2, Scale, ClearLow, LowBits, MaskByte;
    if |s| == 0 {
      ClearNothing(0);
    } else {
      var n := |s| - 1;
      var m := MaskBytes(s, len);
      assert m[..n] == MaskBytes(s[..n], len);
      MaskByteIsClearLow(s[n], n, len);
      assert m[n] == ClearLow(s[n], FreeBits(n, len)) by { LastMasked(s, len); }
      if len <= 8 * n {
        MaskBytesIsClearLow(s[..n], len);
        ClearPastByte(BigEndian(s[..n]), s[n], 8 * n - len);
      } else {
        MaskNothing(s[..n], len);
        ClearInByte(BigEndian(s[..n]), s[n], FreeBits(n, len));
      }
    }
  }

  lemma LastMasked(s: seq<Byte>, len: nat)
    requires |s| > 0
    ensures MaskBytes(s, len)[|s| - 1] == ClearLow(s[|s| - 1], FreeBits(|s| - 1, len))
  {
    MaskByteIsClearLow(s[|s| - 1], |s| - 1, len);
  }

  lemma ClearNothing(x: nat)
    ensures ClearLow(x, 0) == x
  {
  }

  lemma ClearPastByte(x: nat, b: Byte, k: nat)
    ensures ClearLow(256 * x + b, 8 + k) == 256 * ClearLow(x, k) && ClearLow(b, 8) == 0
  {
    ByteShl(0);
    ScaleByte(x);
    ScaleByte(ClearLow(x, k));
    ClearAbove(x, b, 8, k);
    LowBitsId(b, 8);
  }

  lemma ClearInByte(x: nat, b: Byte, k: nat)
    requires k <= 8
    ensures ClearLow(256 * x + b, k) == 256 * x + ClearLow(b, k)
  {
    ByteShl(0);
    ScaleByte(x);
    ClearWithin(x, b, 8, k);
  }

  lemma MaskNothing(s: seq<Byte>, len: nat)
    requires len >= 8 * |s|
    ensures MaskBytes(s, len) == s
  {
    forall i | 0 <= i < |s|
      ensures MaskByte(s[i], i, len) == s[i]
    {
      MaskByteIsClearLow(s[i], i, len);
    }
  }

  /** Byte-wise mask, shift mask and range start are one number; the range is the masked class. */
  lemma MasksAgree(octets: seq<Byte>, len: nat, x: nat)
    requires |octets| == 16 && len <= 128 && x < Pow2(128)
    ensures BigEndian(octets) < Pow2(128)
    ensures var a := BigEndian(octets);
            var r := Cidr.ToRange(a, len, 128);
            && BigEndian(MaskBytes(octets, len)) == IpAlias.MaskBits(a, len, 128) == r.lo
            && (r.Has(x) <==> IpAlias.MaskBits(x, len, 128) == r.lo)
  {
    hide Pow2;
    var a := BigEndian(octets);
    BigEndianBound(octets);
    MaskBytesIsClearLow(octets, len);
    IpAlias.MaskBitsIsClearLow(a, len, 128);
    IpAlias.MaskBitsIffSamePrefix(a, x, len, 128);
    Cidr.RangeIsPrefix(a, len, 128, x);
  }
}
