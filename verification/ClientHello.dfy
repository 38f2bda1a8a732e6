/**
 Parsing a TLS ClientHello (section 4.1.2 of RFC 8446) into comparable fields
 with GREASE values (RFC 8701) masked, and the encoding it inverts.
 */
module ClientHello {
  import opened Bits
  import opened Bytes
  import opened HelloReader
  import opened Wrappers

  // ── GREASE ─────────────────────────────────────────────────────────────────

  predicate IsGrease16(v: nat) {
    And(v, 0x0F0F) == 0x0A0A && Shr(v, 8) == And(v, 0xFF)
  }

  predicate IsGreaseTp(id: nat) {
    id >= 27 && (id - 27) % 31 == 0
  }

  lemma AndOdd(x: nat, m: nat)
    ensures And(x, 2 * m + 1) == 2 * And(x / 2, m) + x % 2
  {
    assert (2 * m + 1) / 2 == m && (2 * m + 1) % 2 == 1;
  }

  lemma Halved(x: nat)
    ensures x / 2 / 2 / 2 / 2 == x / 16
    ensures 8 * (x / 2 / 2 / 2 % 2) + 4 * (x / 2 / 2 % 2) + 2 * (x / 2 % 2) + x % 2 == x % 16
  {
  }

  lemma AndNibble(x: nat, m: nat)
    ensures And(x, 16 * m + 15) == 16 * And(x / 16, m) + x % 16
    ensures And(x, 16 * m) == 16 * And(x / 16, m)
  {
    hide And;
    Halved(x);
    var x1 := x / 2;
    var x2 := x1 / 2;
    var x3 := x2 / 2;
    assert x3 / 2 == x / 16;
    AndOdd(x, 8 * m + 7);
    AndOdd(x1, 4 * m + 3);
    AndOdd(x2, 2 * m + 1);
    AndOdd(x3, m);
    AndEven(x, 8 * m);
    AndEven(x1, 4 * m);
    AndEven(x2, 2 * m);
    AndEven(x3, m);
  }

  lemma GreaseBits(v: nat)
    ensures And(v, 0x0F0F) == 256 * (v / 256 % 16) + v % 16
    ensures And(v, 0xFF) == v % 256
    ensures Shr(v, 8) == v / 256
  {
    hide And, Shr, Pow2;
    AndNibble(v, 0xF0);
    AndNibble(v / 16, 0x0F);
    AndNibble(v / 16 / 16, 0);
    AndZero(v / 16 / 16 / 16);
    AndNibble(v, 0x0F);
    AndNibble(v / 16, 0);
    AndZero(v / 16 / 16);
    ShrDivides(v, 8);
    TwoMore(6);
    PowersOfTwo();
  }

  /** The mask test picks exactly the sixteen values 0x0A0A, 0x1A1A, …, 0xFAFA. */
  lemma GreaseValues(v: nat)
    requires v < 65536
    ensures IsGrease16(v) <==> exists k: nat :: k < 16 && v == 0x0A0A + 0x1010 * k
  {
    hide And, Shr;
    GreaseBits(v);
    GreaseShape(v);
  }

  lemma GreaseShape(v: nat)
    requires v < 65536
    ensures (256 * (v / 256 % 16) + v % 16 == 0x0A0A && v / 256 == v % 256) <==> exists k: nat :: k < 16 && v == 0x0A0A + 0x1010 * k
  {
    if 256 * (v / 256 % 16) + v % 16 == 0x0A0A && v / 256 == v % 256 {
      GreaseOnly(v, v / 256);
    }
    if k: nat :| k < 16 && v == 0x0A0A + 0x1010 * k { GreaseHas(k); }
  }

  lemma GreaseOnly(v: nat, b: nat)
    requires b < 256 && v == 257 * b && 256 * (b % 16) + v % 16 == 0x0A0A
    ensures exists k: nat :: k < 16 && v == 0x0A0A + 0x1010 * k
  {
    var k := b / 16;
    assert b == 16 * k + 10;
    assert v == 0x0A0A + 0x1010 * k;
  }

  lemma GreaseHas(k: nat)
    requires k < 16
    ensures var v := 0x0A0A + 0x1010 * k; 256 * (v / 256 % 16) + v % 16 == 0x0A0A && v / 256 == v % 256
  {
    var b := 16 * k + 10;
    assert 0x0A0A + 0x1010 * k == 256 * b + b;
  }

  /** Reserved transport parameters are those of section 18.1 of RFC 9000. */
  lemma GreaseParameters(id: nat)
    ensures IsGreaseTp(id) <==> exists n: nat :: id == 31 * n + 27
  {
    if IsGreaseTp(id) { assert id == 31 * ((id - 27) / 31) + 27; }
  }

  // ── Fields ─────────────────────────────────────────────────────────────────

  datatype Masked = Grease | Value(v: nat)

  function MaskValue(v: nat): Masked { if IsGrease16(v) then Grease else Value(v) }

  function Mask16(vs: seq<nat>): seq<Masked> {
    seq(|vs|, i requires 0 <= i < |vs| => MaskValue(vs[i]))
  }

  /** ASCII, with a replacement character for every other byte. */
  function Ascii(b: seq<Byte>): string {
    seq(|b|, i requires 0 <= i < |b| => if b[i] < 128 then b[i] as char else 0xFFFD as char)
  }

  function Texts(bs: seq<seq<Byte>>): seq<string> {
    seq(|bs|, i requires 0 <= i < |bs| => Ascii(bs[i]))
  }

  datatype Param = GreaseParam | Param(id: nat, value: seq<Byte>)

  datatype Alps = Alps(codepoint: nat, protocols: seq<string>)

  datatype Fields = Fields(
    ciphers: seq<Masked>,
    extensions: seq<Masked>,
    groups: seq<Masked>,
    keyShare: seq<Masked>,
    sigAlgs: seq<Masked>,
    alpn: seq<string>,
    alps: Option<Alps>,
    compressCert: seq<nat>,
    supportedVersions: seq<Masked>,
    ech: bool,
    trustAnchors: Option<seq<seq<Byte>>>,
    transportParameters: Option<seq<Param>>)

  const EXT_SUPPORTED_GROUPS: nat := 10
  const EXT_SIG_ALGS: nat := 13
  const EXT_ALPN: nat := 16
  const EXT_COMPRESS_CERT: nat := 27
  const EXT_SUPPORTED_VERSIONS: nat := 43
  const EXT_KEY_SHARE: nat := 51
  const EXT_QUIC_TP: nat := 57
  const EXT_ALPS_OLD: nat := 17513
  const EXT_ALPS: nat := 17613
  const EXT_TRUST_ANCHORS: nat := 51764
  const EXT_ECH: nat := 65037

  function NoExtensions(ciphers: seq<nat>): Fields {
    Fields(Mask16(ciphers), [], [], [], [], [], None, [], [], false, None, None)
  }

  // ── Lists ──────────────────────────────────────────────────────────────────

  function U16s(s: seq<Byte>): (r: Result<seq<nat>, Error>)
    ensures r.Err? ==> r.error == Truncated
    decreases |s|
  {
    if s == [] then Ok([])
    else
      var v :- Uint(s, 2);
      var more :- U16s(v.rest);
      Ok([v.value] + more)
  }

  function Vecs(s: seq<Byte>): (r: Result<seq<seq<Byte>>, Error>)
    ensures r.Err? ==> r.error == Truncated
    decreases |s|
  {
    if s == [] then Ok([])
    else
      var v :- Vec(s, 1);
      var more :- Vecs(v.rest);
      Ok([v.value] + more)
  }

  /** One key share: its group, the key skipped. */
  function Share(s: seq<Byte>): (r: Read<nat>)
    ensures r.Ok? ==> |r.value.rest| < |s|
    ensures r.Err? ==> r.error == Truncated
  {
    var g :- Uint(s, 2);
    var key :- Vec(g.rest, 2);
    Ok(Parsed(g.value, key.rest))
  }

  function ShareGroups(s: seq<Byte>): (r: Result<seq<nat>, Error>)
    ensures r.Err? ==> r.error == Truncated
    decreases |s|
  {
    if s == [] then Ok([])
    else
      var g :- Share(s);
      var more :- ShareGroups(g.rest);
      Ok([g.value] + more)
  }

  function MaskParam(id: nat, value: seq<Byte>): Param {
    if IsGreaseTp(id) then GreaseParam else Param(id, value)
  }

  function OneParam(s: seq<Byte>): (r: Read<Param>)
    ensures r.Ok? ==> |r.value.rest| < |s|
    ensures r.Err? ==> r.error == Truncated
  {
    var id :- Varint(s);
    var n :- Varint(id.rest);
    var value :- Take(n.rest, n.value);
    Ok(Parsed(MaskParam(id.value, value.value), value.rest))
  }

  function Params(s: seq<Byte>): (r: Result<seq<Param>, Error>)
    ensures r.Err? ==> r.error == Truncated
    decreases |s|
  {
    if s == [] then Ok([])
    else
      var p :- OneParam(s);
      var more :- Params(p.rest);
      Ok([p.value] + more)
  }

  /** A list inside a vector; bytes of `data` after the vector are not read. */
  function U16List(data: seq<Byte>, lenBytes: nat): Result<seq<nat>, Error> {
    var v :- Vec(data, lenBytes);
    U16s(v.value)
  }

  function VecList(data: seq<Byte>): Result<seq<seq<Byte>>, Error> {
    var v :- Vec(data, 2);
    Vecs(v.value)
  }

  function ShareList(data: seq<Byte>): Result<seq<nat>, Error> {
    var v :- Vec(data, 2);
    ShareGroups(v.value)
  }

  // ── The message ────────────────────────────────────────────────────────────

  function ParseExt(f: Fields, ext: nat, data: seq<Byte>): Result<Fields, Error> {
    var g := f.(extensions := f.extensions + [MaskValue(ext)]);
    if ext == EXT_SUPPORTED_GROUPS then
      var vs :- U16List(data, 2); Ok(g.(groups := Mask16(vs)))
    else if ext == EXT_KEY_SHARE then
      var vs :- ShareList(data); Ok(g.(keyShare := Mask16(vs)))
    else if ext == EXT_SIG_ALGS then
      var vs :- U16List(data, 2); Ok(g.(sigAlgs := Mask16(vs)))
    else if ext == EXT_ALPN then
      var ps :- VecList(data); Ok(g.(alpn := Texts(ps)))
    else if ext == EXT_ALPS_OLD || ext == EXT_ALPS then
      var ps :- VecList(data); Ok(g.(alps := Some(Alps(ext, Texts(ps)))))
    else if ext == EXT_COMPRESS_CERT then
      var vs :- U16List(data, 1); Ok(g.(compressCert := vs))
    else if ext == EXT_SUPPORTED_VERSIONS then
      var vs :- U16List(data, 1); Ok(g.(supportedVersions := Mask16(vs)))
    else if ext == EXT_ECH then Ok(g.(ech := true))
    else if ext == EXT_TRUST_ANCHORS then
      var ids :- VecList(data); Ok(g.(trustAnchors := Some(ids)))
    else if ext == EXT_QUIC_TP then
      var ps :- Params(data); Ok(g.(transportParameters := Some(ps)))
    else Ok(g)
  }

  function ParseExts(f: Fields, s: seq<Byte>): Result<Fields, Error>
    decreases |s|
  {
    if s == [] then Ok(f)
    else
      var ext :- Uint(s, 2);
      var data :- Vec(ext.rest, 2);
      var g :- ParseExt(f, ext.value, data.value);
      ParseExts(g, data.rest)
  }

  function ParseBody(body: seq<Byte>): Result<Fields, Error> {
    var fixed :- Take(body, 2 + 32);
    var sessionId :- Vec(fixed.rest, 1);
    var suites :- Vec(sessionId.rest, 2);
    var ciphers :- U16s(suites.value);
    var compression :- Vec(suites.rest, 1);
    var exts :- Vec(compression.rest, 2);
    ParseExts(NoExtensions(ciphers), exts.value)
  }

  function Parse(msg: seq<Byte>): Result<Fields, Error> {
    var kind :- Uint(msg, 1);
    if kind.value != 1 then Err(NotClientHello)
    else
      var n :- Uint(kind.rest, 3);
      var body :- Take(n.rest, n.value);
      ParseBody(body.value)
  }

  /**
   How every input ends: only the first byte makes it another message, and the
   result depends on the bytes the length field covers, all of which must be there.
   */
  lemma ParseOutcome(msg: seq<Byte>)
    ensures msg == [] ==> Parse(msg) == Err(Truncated)
    ensures msg != [] && msg[0] != 1 ==> Parse(msg) == Err(NotClientHello)
    ensures msg != [] && msg[0] == 1 ==>
              if |msg| < 4 || |msg| < 4 + BigEndian(msg[1..4]) then Parse(msg) == Err(Truncated)
              else Parse(msg) == ParseBody(msg[4..4 + BigEndian(msg[1..4])])
  {
    hide BigEndian, ParseBody;
    if msg != [] {
      FirstByte(msg);
      var s := msg[1..];
      if |msg| >= 4 {
        assert s[..3] == msg[1..4] && s[3..] == msg[4..];
        var n := BigEndian(msg[1..4]);
        if |msg| >= 4 + n { assert msg[4..][..n] == msg[4..4 + n]; }
      }
    }
  }

  // ── The parser over a reader ───────────────────────────────────────────────

  function Prepend<T>(out: seq<T>, r: Result<seq<T>, Error>): Result<seq<T>, Error> {
    if r.Err? then r else Ok(out + r.value)
  }

  lemma PrependOne<T>(out: seq<T>, x: T, r: Result<seq<T>, Error>)
    ensures Prepend(out, Prepend([x], r)) == Prepend(out + [x], r)
  {
    if r.Ok? { assert out + ([x] + r.value) == out + [x] + r.value; }
  }

  lemma PrependError<T>(out: seq<T>, e: Error)
    ensures Prepend(out, Err(e)) == Err(e)
  {
  }

  lemma PrependNothing<T>(out: seq<T>, r: Result<seq<T>, Error>)
    ensures Prepend([], r) == r && Prepend(out, Ok([])) == Ok(out)
  {
    if r.Ok? { assert [] + r.value == r.value; }
    assert out + [] == out;
  }

  lemma U16sStep(s: seq<Byte>)
    ensures s == [] ==> U16s(s) == Ok([])
    ensures s != [] ==> var v := Uint(s, 2);
            U16s(s) == if v.Err? then Err(v.error) else Prepend([v.value.value], U16s(v.value.rest))
  {
  }

  lemma VecsStep(s: seq<Byte>)
    ensures s == [] ==> Vecs(s) == Ok([])
    ensures s != [] ==> var v := Vec(s, 1);
            Vecs(s) == if v.Err? then Err(v.error) else Prepend([v.value.value], Vecs(v.value.rest))
  {
  }

  lemma ShareGroupsStep(s: seq<Byte>)
    ensures s == [] ==> ShareGroups(s) == Ok([])
    ensures s != [] ==> var v := Share(s);
            ShareGroups(s) == if v.Err? then Err(v.error) else Prepend([v.value.value], ShareGroups(v.value.rest))
  {
  }

  lemma ParamsStep(s: seq<Byte>)
    ensures s == [] ==> Params(s) == Ok([])
    ensures s != [] ==> var v := OneParam(s);
            Params(s) == if v.Err? then Err(v.error) else Prepend([v.value.value], Params(v.value.rest))
  {
  }

  method ReadU16s(data: seq<Byte>) returns (r: Result<seq<nat>, Error>)
    ensures r == U16s(data)
  {
    hide Uint, U16s, Prepend;
    var reader := new Reader(data);
    var out: seq<nat> := [];
    PrependNothing(out, U16s(data));
    while !reader.Done()
      invariant reader.Valid() && fresh(reader)
      invariant U16s(data) == Prepend(out, U16s(reader.Rest()))
      decreases |reader.Rest()|
    {
      U16sStep(reader.Rest());
      var v := reader.ReadUint(2);
      if v.Err? { PrependError(out, v.error); return Err(v.error); }
      PrependOne(out, v.value, U16s(reader.Rest()));
      out := out + [v.value];
    }
    U16sStep([]);
    PrependNothing(out, U16s([]));
    return Ok(out);
  }

  method ReadVecs(data: seq<Byte>) returns (r: Result<seq<seq<Byte>>, Error>)
    ensures r == Vecs(data)
  {
    hide Vec, Vecs, Prepend;
    var reader := new Reader(data);
    var out: seq<seq<Byte>> := [];
    PrependNothing(out, Vecs(data));
    while !reader.Done()
      invariant reader.Valid() && fresh(reader)
      invariant Vecs(data) == Prepend(out, Vecs(reader.Rest()))
      decreases |reader.Rest()|
    {
      VecsStep(reader.Rest());
      var v := reader.ReadVec(1);
      if v.Err? { PrependError(out, v.error); return Err(v.error); }
      PrependOne(out, v.value, Vecs(reader.Rest()));
      out := out + [v.value];
    }
    VecsStep([]);
    PrependNothing(out, Vecs([]));
    return Ok(out);
  }

  method ReadShare(reader: Reader) returns (r: Result<nat, Error>)
    requires reader.Valid()
    modifies reader
    ensures reader.Valid()
    ensures var p := Share(old(reader.Rest()));
            if p.Ok? then r == Ok(p.value.value) && reader.Rest() == p.value.rest else r == Err(p.error)
  {
    hide Vec, Uint;
    var g :- reader.ReadUint(2);
    var key :- reader.ReadVec(2);
    return Ok(g);
  }

  method ReadParam(reader: Reader) returns (r: Result<Param, Error>)
    requires reader.Valid()
    modifies reader
    ensures reader.Valid()
    ensures var p := OneParam(old(reader.Rest()));
            if p.Ok? then r == Ok(p.value.value) && reader.Rest() == p.value.rest else r == Err(p.error)
  {
    hide Varint, Take, MaskParam;
    var id :- reader.ReadVarint();
    var n :- reader.ReadVarint();
    var value :- reader.TakeN(n);
    return Ok(MaskParam(id, value));
  }

  method ReadShareGroups(data: seq<Byte>) returns (r: Result<seq<nat>, Error>)
    ensures r == ShareGroups(data)
  {
    hide Share, ShareGroups, Prepend;
    var reader := new Reader(data);
    var out: seq<nat> := [];
    PrependNothing(out, ShareGroups(data));
    while !reader.Done()
      invariant reader.Valid() && fresh(reader)
      invariant ShareGroups(data) == Prepend(out, ShareGroups(reader.Rest()))
      decreases |reader.Rest()|
    {
      ShareGroupsStep(reader.Rest());
      var g := ReadShare(reader);
      if g.Err? { PrependError(out, g.error); return Err(g.error); }
      PrependOne(out, g.value, ShareGroups(reader.Rest()));
      out := out + [g.value];
    }
    ShareGroupsStep([]);
    PrependNothing(out, ShareGroups([]));
    return Ok(out);
  }

  method ReadParams(data: seq<Byte>) returns (r: Result<seq<Param>, Error>)
    ensures r == Params(data)
  {
    hide OneParam, Params, Prepend;
    var reader := new Reader(data);
    var out: seq<Param> := [];
    PrependNothing(out, Params(data));
    while !reader.Done()
      invariant reader.Valid() && fresh(reader)
      invariant Params(data) == Prepend(out, Params(reader.Rest()))
      decreases |reader.Rest()|
    {
      ParamsStep(reader.Rest());
      var p := ReadParam(reader);
      if p.Err? { PrependError(out, p.error); return Err(p.error); }
      PrependOne(out, p.value, Params(reader.Rest()));
      out := out + [p.value];
    }
    ParamsStep([]);
    PrependNothing(out, Params([]));
    return Ok(out);
  }

  method ReadVecOf(data: seq<Byte>, lenBytes: nat) returns (r: Result<seq<Byte>, Error>)
    ensures var v := Vec(data, lenBytes); r == if v.Ok? then Ok(v.value.value) else Err(v.error)
  {
    var reader := new Reader(data);
    r := reader.ReadVec(lenBytes);
  }

  method ReadExt(f: Fields, ext: nat, data: seq<Byte>) returns (r: Result<Fields, Error>)
    ensures r == ParseExt(f, ext, data)
  {
    hide Vec, U16s, Vecs, ShareGroups, Params, Mask16, Texts, MaskValue;
    var g := f.(extensions := f.extensions + [MaskValue(ext)]);
    if ext == EXT_SUPPORTED_GROUPS {
      var v :- ReadVecOf(data, 2);
      var vs :- ReadU16s(v);
      g := g.(groups := Mask16(vs));
    } else if ext == EXT_KEY_SHARE {
      var v :- ReadVecOf(data, 2);
      var vs :- ReadShareGroups(v);
      g := g.(keyShare := Mask16(vs));
    } else if ext == EXT_SIG_ALGS {
      var v :- ReadVecOf(data, 2);
      var vs :- ReadU16s(v);
      g := g.(sigAlgs := Mask16(vs));
    } else if ext == EXT_ALPN {
      var v :- ReadVecOf(data, 2);
      var ps :- ReadVecs(v);
      g := g.(alpn := Texts(ps));
    } else if ext == EXT_ALPS_OLD || ext == EXT_ALPS {
      var v :- ReadVecOf(data, 2);
      var ps :- ReadVecs(v);
      g := g.(alps := Some(Alps(ext, Texts(ps))));
    } else if ext == EXT_COMPRESS_CERT {
      var v :- ReadVecOf(data, 1);
      var vs :- ReadU16s(v);
      g := g.(compressCert := vs);
    } else if ext == EXT_SUPPORTED_VERSIONS {
      var v :- ReadVecOf(data, 1);
      var vs :- ReadU16s(v);
      g := g.(supportedVersions := Mask16(vs));
    } else if ext == EXT_ECH {
      g := g.(ech := true);
    } else if ext == EXT_TRUST_ANCHORS {
      var v :- ReadVecOf(data, 2);
      var ids :- ReadVecs(v);
      g := g.(trustAnchors := Some(ids));
    } else if ext == EXT_QUIC_TP {
      var ps :- ReadParams(data);
      g := g.(transportParameters := Some(ps));
    }
    return Ok(g);
  }

  method ParseClientHello(msg: seq<Byte>) returns (r: Result<Fields, Error>)
    ensures r == Parse(msg)
  {
    hide Uint, Vec, Take, U16s, ParseExt, NoExtensions;
    var reader := new Reader(msg);
    var kind :- reader.ReadUint(1);
    if kind != 1 { return Err(NotClientHello); }
    var n :- reader.ReadUint(3);
    var raw :- reader.TakeN(n);
    var body := new Reader(raw);
    var fixed :- body.TakeN(2 + 32);
    var sessionId :- body.ReadVec(1);
    var suites :- body.ReadVec(2);
    var ciphers :- ReadU16s(suites);
    var compression :- body.ReadVec(1);
    var block :- body.ReadVec(2);
    var exts := new Reader(block);
    var out := NoExtensions(ciphers);
    assert ParseBody(raw) == ParseExts(out, exts.Rest());
    while !exts.Done()
      invariant exts.Valid() && fresh(exts)
      invariant Parse(msg) == ParseExts(out, exts.Rest())
      decreases |exts.Rest()|
    {
      ghost var s := exts.Rest();
      var ext :- exts.ReadUint(2);
      var data :- exts.ReadVec(2);
      out :- ReadExt(out, ext, data);
    }
    return Ok(out);
  }
}
