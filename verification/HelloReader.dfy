/**
 The byte reader of the ClientHello parser. `Rest` functions say what each read
 takes from the bytes that are left; the `Reader` object walks an offset over
 the whole input and is proved to do the same.
 */
module HelloReader {
  import opened Bits
  import opened Bytes
  import opened Wrappers

  datatype Error = Truncated | NotClientHello

  /** A value read and the bytes after it. */
  datatype Parsed<+T> = Parsed(value: T, rest: seq<Byte>)

  type Read<+T> = Result<Parsed<T>, Error>

  // ── Reads ──────────────────────────────────────────────────────────────────

  function Take(s: seq<Byte>, n: nat): (r: Read<seq<Byte>>)
    ensures r.Ok? <==> n <= |s|
    ensures r.Ok? ==> s == r.value.value + r.value.rest && |r.value.value| == n
    ensures r.Err? ==> r.error == Truncated
  {
    if n > |s| then Err(Truncated) else Ok(Parsed(s[..n], s[n..]))
  }

  function Uint(s: seq<Byte>, n: nat): (r: Read<nat>)
    ensures r.Ok? <==> n <= |s|
    ensures r.Ok? ==> |r.value.rest| == |s| - n
    ensures r.Err? ==> r.error == Truncated
  {
    var b :- Take(s, n);
    Ok(Parsed(BigEndian(b.value), b.rest))
  }

  /** A vector behind its own length. */
  function Vec(s: seq<Byte>, lenBytes: nat): (r: Read<seq<Byte>>)
    ensures r.Ok? ==> |r.value.rest| + |r.value.value| == |s| - lenBytes
    ensures r.Err? ==> r.error == Truncated
  {
    var n :- Uint(s, lenBytes);
    Take(n.rest, n.value)
  }

  /** Bytes after the first of a variable-length integer, by its two top bits. */
  function Following(first: Byte): nat {
    if first < 64 then 0 else if first < 128 then 1 else if first < 192 then 3 else 7
  }

  function Varint(s: seq<Byte>): (r: Read<nat>)
    ensures r.Ok? ==> |r.value.rest| < |s|
    ensures r.Err? ==> r.error == Truncated
  {
    if s == [] then Err(Truncated)
    else
      var more :- Take(s[1..], Following(s[0]));
      Ok(Parsed(BigEndian([s[0] % 64] + more.value), more.rest))
  }

  // ── Writing, and reading back ──────────────────────────────────────────────

  function EncodeVec(b: seq<Byte>, lenBytes: nat): seq<Byte> {
    ToBigEndian(|b|, lenBytes) + b
  }

  lemma TakeInverts(b: seq<Byte>, rest: seq<Byte>)
    ensures Take(b + rest, |b|) == Ok(Parsed(b, rest))
  {
    assert (b + rest)[..|b|] == b && (b + rest)[|b|..] == rest;
  }

  lemma UintInverts(v: nat, n: nat, rest: seq<Byte>)
    requires FitsBytes(v, n)
    ensures Uint(ToBigEndian(v, n) + rest, n) == Ok(Parsed(v, rest))
  {
    TakeInverts(ToBigEndian(v, n), rest);
    BigEndianInverts(v, n);
  }

  lemma VecInverts(b: seq<Byte>, lenBytes: nat, rest: seq<Byte>)
    requires FitsBytes(|b|, lenBytes)
    ensures Vec(EncodeVec(b, lenBytes) + rest, lenBytes) == Ok(Parsed(b, rest))
  {
    hide Uint, Take, FitsBytes, ToBigEndian;
    assert EncodeVec(b, lenBytes) + rest == ToBigEndian(|b|, lenBytes) + (b + rest);
    UintInverts(|b|, lenBytes, b + rest);
    TakeInverts(b, rest);
  }

  // ── Whatever is read was written ───────────────────────────────────────────

  lemma UintReads(s: seq<Byte>, n: nat)
    requires Uint(s, n).Ok?
    ensures var p := Uint(s, n).value; FitsBytes(p.value, n) && s == ToBigEndian(p.value, n) + p.rest
  {
    ToBigEndianInverts(s[..n]);
    assert s == s[..n] + s[n..];
  }

  lemma VecReads(s: seq<Byte>, lenBytes: nat)
    requires Vec(s, lenBytes).Ok?
    ensures var p := Vec(s, lenBytes).value; FitsBytes(|p.value|, lenBytes) && s == EncodeVec(p.value, lenBytes) + p.rest
  {
    hide ToBigEndian, FitsBytes;
    UintReads(s, lenBytes);
    var n := Uint(s, lenBytes).value;
    var v := Take(n.rest, n.value).value;
    assert s == ToBigEndian(n.value, lenBytes) + (v.value + v.rest);
  }

  // ── Variable-length integers, section 16 of RFC 9000 ───────────────────────

  /** Numbers of `n` bytes whose two top bits are free. */
  function Limit(n: nat): nat
    requires n >= 1
  {
    if n == 1 then 64 else 256 * Limit(n - 1)
  }

  /** The two-bit size code and the number of bytes it stands for. */
  function Size(code: nat): nat
    requires code < 4
  {
    if code == 0 then 1 else if code == 1 then 2 else if code == 2 then 4 else 8
  }

  lemma LimitsOfRfc9000()
    ensures Limit(1) == 64 && Limit(2) == 16384 && Limit(4) == 1073741824 && Limit(8) == 4611686018427387904
  {
    assert Limit(3) == 4194304;
    assert Limit(5) == 274877906944;
    assert Limit(6) == 70368744177664;
    assert Limit(7) == 18014398509481984;
  }

  lemma {:induction false} BelowLimit(v: nat, n: nat)
    requires n >= 1 && v < Limit(n)
    ensures FitsBytes(v, n) && ToBigEndian(v, n)[0] < 64
  {
    if n > 1 { BelowLimit(v / 256, n - 1); }
  }

  /** The size code in the two top bits, the number in the rest; any size that fits may be used. */
  function EncodeVarint(v: nat, code: nat): seq<Byte>
    requires code < 4 && v < Limit(Size(code))
  {
    var b := ToBigEndian(v, Size(code));
    BelowLimit(v, Size(code));
    [64 * code + b[0]] + b[1..]
  }

  /** The reader gives back every encoded number, in whichever size it was written. */
  lemma VarintInverts(v: nat, code: nat, rest: seq<Byte>)
    requires code < 4 && v < Limit(Size(code))
    ensures Varint(EncodeVarint(v, code) + rest) == Ok(Parsed(v, rest))
  {
    hide ToBigEndian, FitsBytes, Limit, BigEndian;
    var n := Size(code);
    BelowLimit(v, n);
    BigEndianInverts(v, n);
    var b := ToBigEndian(v, n);
    var s := EncodeVarint(v, code) + rest;
    assert s[0] == 64 * code + b[0] && s[1..] == b[1..] + rest;
    TakeInverts(b[1..], rest);
    assert [b[0]] + b[1..] == b;
  }

  lemma {:induction false} LimitScales(b: seq<Byte>)
    requires b != [] && b[0] < 64
    ensures BigEndian(b) < Limit(|b|)
  {
    var n := |b| - 1;
    if n > 0 { LimitScales(b[..n]); }
  }

  /** Every number read is an encoding, in the size its first byte announces. */
  lemma VarintReads(s: seq<Byte>) returns (code: nat)
    requires Varint(s).Ok?
    ensures var p := Varint(s).value;
            code < 4 && p.value < Limit(Size(code)) && s == EncodeVarint(p.value, code) + p.rest
  {
    hide BigEndian, ToBigEndian, Limit, FitsBytes;
    code := s[0] / 64;
    var more := s[1..][..Following(s[0])];
    var b := [s[0] % 64] + more;
    assert |b| == Size(code);
    LimitScales(b);
    ToBigEndianInverts(b);
    assert EncodeVarint(BigEndian(b), code) == [s[0]] + more;
    assert s == [s[0]] + s[1..] && s[1..] == more + s[1..][Following(s[0])..];
  }

  /** Below 2^62 some size fits, and the shortest that does is found by the bounds. */
  lemma VarintCovers(v: nat)
    requires v < 4611686018427387904
    ensures exists code: nat :: code < 4 && v < Limit(Size(code))
  {
    LimitsOfRfc9000();
    assert v < Limit(Size(3));
  }

  // ── Bits of the first byte ─────────────────────────────────────────────────

  lemma FirstByte(s: seq<Byte>)
    requires s != []
    ensures Uint(s, 1) == Ok(Parsed(s[0], s[1..]))
  {
    assert s[..1] == [s[0]];
    OneByte(s[0]);
  }

  lemma OneByte(b: Byte)
    ensures BigEndian([b]) == b
  {
    assert [b][..0] == [];
  }

  lemma NeedsByte(s: seq<Byte>)
    ensures Uint(s, 1).Ok? <==> s != []
  {
  }

  lemma Snoc(s: seq<Byte>, b: Byte)
    ensures BigEndian(s + [b]) == 256 * BigEndian(s) + b
  {
    assert (s + [b])[..|s|] == s;
  }

  /** Six low bits are the number so far; two top bits say how many bytes follow. */
  lemma SizeBits(b: Byte)
    ensures And(b, 0x3F) == b % 64
    ensures Pow2(Shr(b, 6)) - 1 == Following(b)
  {
    hide Pow2, And, LowBits, ClearLow, Shr;
    ShrDivides(b, 6);
    AndOnes(b, 6);
    PowersOfTwo();
  }

  /** Shifting in a byte. */
  lemma ShiftIn(v: nat, b: Byte)
    ensures Or(256 * v, b) == 256 * v + b
  {
    hide Or, Pow2, LowBits;
    TwoMore(6);
    PowersOfTwo();
    NoLowBits(v);
    EvenLow(128 * v, 7);
    EvenLow(64 * v, 6);
    EvenLow(32 * v, 5);
    EvenLow(16 * v, 4);
    EvenLow(8 * v, 3);
    EvenLow(4 * v, 2);
    EvenLow(2 * v, 1);
    EvenLow(v, 0);
    OrDisjoint(256 * v, b, 8);
  }

  lemma NoLowBits(x: nat)
    ensures LowBits(x, 0) == 0
  {
  }

  lemma EvenLow(x: nat, k: nat)
    ensures LowBits(2 * x, k + 1) == 2 * LowBits(x, k)
  {
    assert 2 * x / 2 == x && 2 * x % 2 == 0;
  }

  // ── Reading a variable-length integer byte by byte ─────────────────────────

  ghost predicate VarintProgress(s: seq<Byte>, read: seq<Byte>, rest: seq<Byte>, value: nat) {
    s != [] && s[1..] == read + rest && value == BigEndian([s[0] % 64] + read)
  }

  lemma NoVarint()
    ensures Varint([]) == Err(Truncated)
  {
  }

  lemma VarintStart(s: seq<Byte>)
    requires s != []
    ensures VarintProgress(s, [], s[1..], s[0] % 64)
  {
    OneByte(s[0] % 64);
    assert [s[0] % 64] + [] == [s[0] % 64];
  }

  lemma VarintStep(s: seq<Byte>, read: seq<Byte>, left: seq<Byte>, value: nat)
    requires VarintProgress(s, read, left, value) && left != []
    ensures VarintProgress(s, read + [left[0]], left[1..], 256 * value + left[0])
  {
    hide BigEndian;
    Snoc([s[0] % 64] + read, left[0]);
    assert [s[0] % 64] + (read + [left[0]]) == ([s[0] % 64] + read) + [left[0]];
    assert read + left == (read + [left[0]]) + left[1..];
  }

  lemma VarintEnd(s: seq<Byte>, read: seq<Byte>, rest: seq<Byte>, value: nat)
    requires VarintProgress(s, read, rest, value) && |read| == Following(s[0])
    ensures Varint(s) == Ok(Parsed(value, rest))
  {
    hide BigEndian;
    TakeInverts(read, rest);
  }

  lemma VarintShort(s: seq<Byte>, read: seq<Byte>, rest: seq<Byte>, value: nat)
    requires VarintProgress(s, read, rest, value) && |read| < Following(s[0]) && rest == []
    ensures Varint(s) == Err(Truncated)
  {
  }

  // ── The reader object ──────────────────────────────────────────────────────

  class Reader {
    const data: seq<Byte>
    var off: nat

    predicate Valid()
      reads this
    {
      off <= |data|
    }

    /** What is left to read. */
    function Rest(): seq<Byte>
      requires Valid()
      reads this
    {
      data[off..]
    }

    constructor (data: seq<Byte>)
      ensures Valid() && this.data == data && Rest() == data
    {
      this.data := data;
      off := 0;
      new;
      assert data[0..] == data;
    }

    predicate Done()
      requires Valid()
      reads this
      ensures Done() <==> Rest() == []
    {
      off >= |data|
    }

    method TakeN(n: nat) returns (r: Result<seq<Byte>, Error>)
      requires Valid()
      modifies this
      ensures Valid()
      ensures var p := Take(old(Rest()), n);
              if p.Ok? then r == Ok(p.value.value) && Rest() == p.value.rest else r == Err(p.error) && off == old(off)
    {
      if off + n > |data| { return Err(Truncated); }
      r := Ok(data[off..off + n]);
      assert data[off..][..n] == data[off..off + n] && data[off..][n..] == data[off + n..];
      off := off + n;
    }

    method ReadUint(n: nat) returns (r: Result<nat, Error>)
      requires Valid()
      modifies this
      ensures Valid()
      ensures var p := Uint(old(Rest()), n);
              if p.Ok? then r == Ok(p.value.value) && Rest() == p.value.rest else r == Err(p.error)
    {
      var b :- TakeN(n);
      return Ok(BigEndian(b));
    }

    method ReadVec(lenBytes: nat) returns (r: Result<seq<Byte>, Error>)
      requires Valid()
      modifies this
      ensures Valid()
      ensures var p := Vec(old(Rest()), lenBytes);
              if p.Ok? then r == Ok(p.value.value) && Rest() == p.value.rest else r == Err(p.error)
    {
      var n :- ReadUint(lenBytes);
      r := TakeN(n);
    }

    method ReadVarint() returns (r: Result<nat, Error>)
      requires Valid()
      modifies this
      ensures Valid()
      ensures var p := Varint(old(Rest()));
              if p.Ok? then r == Ok(p.value.value) && Rest() == p.value.rest else r == Err(p.error)
    {
      hide And, Or, Pow2, Shr, Varint, Uint, Following, VarintProgress;
      ghost var s := Rest();
      var first := ReadUint(1);
      NeedsByte(s);
      if first.Err? { NoVarint(); return Err(first.error); }
      FirstByte(s);
      SizeBits(s[0]);
      VarintStart(s);
      var value := And(first.value, 0x3F);
      var count := Pow2(Shr(first.value, 6)) - 1;
      ghost var read: seq<Byte> := [];
      var i := 0;
      while i < count
        invariant 0 <= i <= count && Valid() && s != [] && count == Following(s[0]) && |read| == i
        invariant VarintProgress(s, read, Rest(), value)
      {
        ghost var left := Rest();
        var b := ReadUint(1);
        NeedsByte(left);
        if b.Err? { VarintShort(s, read, left, value); return Err(b.error); }
        FirstByte(left);
        VarintStep(s, read, left, value);
        ShiftIn(value, left[0]);
        value := Or(256 * value, b.value);
        read := read + [left[0]];
        i := i + 1;
      }
      VarintEnd(s, read, Rest(), value);
      return Ok(value);
    }
  }
}
