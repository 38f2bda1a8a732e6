/**
 IP addresses as numbers, the connection targets the router sees, and the
 prefixes that configuration files list.
 */
module Addresses {
  import opened Wrappers
  import opened Bits

  datatype IpAddr = V4(bits: nat) | V6(bits: nat) {
    function Width(): nat { if V4? then 32 else 128 }

    predicate Valid() { bits < Pow2(Width()) }
  }

  datatype TargetAddr =
    | Ip(addr: IpAddr, ipPort: nat)
    | Domain(host: string, port: nat)
  {
    predicate Valid() { Ip? ==> addr.Valid() }
  }

  /** What follows the address in a prefix string. */
  datatype LenPart = Absent | Number(n: nat) | NotANumber

  /** One configured prefix string, with its address already parsed. */
  datatype RawPrefix = BadAddress | Prefix(addr: IpAddr, len: LenPart) {
    predicate Valid() { Prefix? ==> addr.Valid() }

    /**
     The prefix length the string stands for: a bare address is a host route, a
     length must parse as an 8-bit number and must not exceed the address width.
     */
    function Len(): (r: Option<nat>)
      ensures r.Some? ==> Prefix? && r.value <= addr.Width()
    {
      match this
      case BadAddress => None
      case Prefix(a, Absent) => Some(a.Width())
      case Prefix(a, NotANumber) => None
      case Prefix(a, Number(n)) => if n <= 255 && n <= a.Width() then Some(n) else None
    }

    /** The prefix is well-formed, of the address's family, and covers it. */
    predicate Covers(ip: IpAddr) {
      Len().Some? && addr.V4? == ip.V4? && SamePrefix(addr.bits, ip.bits, Len().value, ip.Width())
    }
  }

  /** `net` and `x` agree on their first `len` of `w` bits. */
  predicate SamePrefix(net: nat, x: nat, len: nat, w: nat)
    requires len <= w
  {
    Shr(net, w - len) == Shr(x, w - len)
  }

  lemma {:induction false} ShrIffClearLow(x: nat, y: nat, k: nat)
    ensures Shr(x, k) == Shr(y, k) <==> ClearLow(x, k) == ClearLow(y, k)
  {
    if k > 0 { ShrIffClearLow(x / 2, y / 2, k - 1); }
  }

  /**
   A prefix string covers the addresses of its family that agree with it above its
   length; a bare address covers itself alone, and a length that is no number or
   exceeds the width makes the string cover nothing.
   */
  lemma CoversIff(p: RawPrefix, ip: IpAddr)
    ensures p.Covers(ip) <==>
              && p.Prefix? && p.addr.V4? == ip.V4?
              && (match p.len
                  case Absent => p.addr == ip
                  case Number(n) => n <= ip.Width() && p.addr.bits / Pow2(ip.Width() - n) == ip.bits / Pow2(ip.Width() - n)
                  case NotANumber => false)
  {
    hide Pow2, Shr;
    if p.Len().Some? && p.addr.V4? == ip.V4? {
      var k := ip.Width() - p.Len().value;
      ShrDivides(p.addr.bits, k);
      ShrDivides(ip.bits, k);
      PowersOfTwo();
    }
  }

  /** Exactly these strings parse: a bare address, or one with a number up to its width. */
  lemma ParsesIff(p: RawPrefix)
    ensures p.Len().Some? <==> p.Prefix? && (p.len.Absent? || (p.len.Number? && p.len.n <= p.addr.Width()))
    ensures p.Len().Some? ==> forall ip: IpAddr :: ip == p.addr ==> p.Covers(ip)
  {
  }
}
