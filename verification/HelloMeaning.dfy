/**
 What a parsed ClientHello says, entry by entry and without the parser's own
 masking functions, and which inputs parse: exactly the encodings of messages.
 */
module HelloMeaning {
  import opened Bits
  import opened Bytes
  import opened HelloReader
  import opened ClientHello
  import opened HelloEncoding
  import opened Wrappers

  // ── Entries ────────────────────────────────────────────────────────────────

  /** One of the sixteen values RFC 8701 reserves is masked, any other is shown. */
  ghost predicate Shows(m: Masked, v: nat) {
    && (m == Grease <==> exists k: nat :: k < 16 && v == 0x0A0A + 0x1010 * k)
    && (m.Value? ==> m.v == v)
  }

  ghost predicate ShowsAll(ms: seq<Masked>, vs: seq<nat>) {
    |ms| == |vs| && forall i :: 0 <= i < |vs| ==> Shows(ms[i], vs[i])
  }

  /** Bytes below 128 are shown as ASCII, any other as U+FFFD. */
  predicate ShowsText(t: string, b: seq<Byte>) {
    |t| == |b| && forall i :: 0 <= i < |b| ==> t[i] as int == if b[i] < 128 then b[i] else 0xFFFD
  }

  predicate ShowsTexts(ts: seq<string>, bs: seq<seq<Byte>>) {
    |ts| == |bs| && forall i :: 0 <= i < |bs| ==> ShowsText(ts[i], bs[i])
  }

  /** A transport parameter that section 18.1 of RFC 9000 reserves is masked, value and all. */
  ghost predicate ShowsParam(p: Param, id: nat, value: seq<Byte>) {
    && (p == GreaseParam <==> exists n: nat :: id == 31 * n + 27)
    && (p.Param? ==> p == Param(id, value))
  }

  ghost predicate ShowsParams(ps: seq<Param>, ts: seq<TransportParam>) {
    |ps| == |ts| && forall i :: 0 <= i < |ts| ==> ShowsParam(ps[i], ts[i].id, ts[i].value)
  }

  /** The code point IANA assigns to the extension. */
  function Assigned(e: Extension): nat {
    match e
    case Groups(_, _) => 10
    case SigAlgs(_, _) => 13
    case Alpn(_, _) => 16
    case CompressCert(_, _) => 27
    case SupportedVersions(_, _) => 43
    case KeyShare(_, _) => 51
    case QuicParameters(_) => 57
    case AlpsExt(early, _, _) => if early then 17513 else 17613
    case TrustAnchors(_, _) => 51764
    case Ech(_) => 65037
    case Other(kind, _) => kind
  }

  /** The field of the extension shows its content. */
  ghost predicate Says(f: Fields, e: Extension) {
    match e
    case Groups(vs, _) => ShowsAll(f.groups, vs)
    case KeyShare(es, _) => |f.keyShare| == |es| && forall i :: 0 <= i < |es| ==> Shows(f.keyShare[i], es[i].group)
    case SigAlgs(vs, _) => ShowsAll(f.sigAlgs, vs)
    case Alpn(ps, _) => ShowsTexts(f.alpn, ps)
    case AlpsExt(_, ps, _) => f.alps.Some? && f.alps.value.codepoint == Assigned(e) && ShowsTexts(f.alps.value.protocols, ps)
    case CompressCert(vs, _) => f.compressCert == vs
    case SupportedVersions(vs, _) => ShowsAll(f.supportedVersions, vs)
    case Ech(_) => f.ech
    case TrustAnchors(ids, _) => f.trustAnchors == Some(ids)
    case QuicParameters(ps) => f.transportParameters.Some? && ShowsParams(f.transportParameters.value, ps)
    case Other(_, _) => true
  }

  /** The extension writes the same field: both ALPS code points share one. */
  predicate SameField(a: Extension, b: Extension) {
    Assigned(a) == Assigned(b) || (a.AlpsExt? && b.AlpsExt?)
  }

  predicate Lacks(es: seq<Extension>, code: nat) {
    forall i :: 0 <= i < |es| ==> Assigned(es[i]) != code
  }

  /** Without the extension its field is empty. */
  predicate EmptyWithout(f: Fields, es: seq<Extension>) {
    && (Lacks(es, 10) ==> f.groups == [])
    && (Lacks(es, 13) ==> f.sigAlgs == [])
    && (Lacks(es, 16) ==> f.alpn == [])
    && (Lacks(es, 27) ==> f.compressCert == [])
    && (Lacks(es, 43) ==> f.supportedVersions == [])
    && (Lacks(es, 51) ==> f.keyShare == [])
    && (Lacks(es, 57) ==> f.transportParameters == None)
    && (Lacks(es, 17513) && Lacks(es, 17613) ==> f.alps == None)
    && (Lacks(es, 51764) ==> f.trustAnchors == None)
    && (Lacks(es, 65037) ==> !f.ech)
  }

  // ── The masks show what they should ────────────────────────────────────────

  lemma MaskShows(v: nat)
    requires v < 65536
    ensures Shows(MaskValue(v), v)
  {
    GreaseValues(v);
  }

  lemma Mask16Shows(vs: seq<nat>)
    requires AllU16(vs)
    ensures ShowsAll(Mask16(vs), vs)
  {
    hide MaskValue, Shows;
    forall i | 0 <= i < |vs| ensures Shows(Mask16(vs)[i], vs[i]) { MaskShows(vs[i]); }
  }

  lemma TextsShow(bs: seq<seq<Byte>>)
    ensures ShowsTexts(Texts(bs), bs)
  {
  }

  lemma ParamsShow(ps: seq<TransportParam>)
    ensures ShowsParams(ParamsOf(ps), ps)
  {
    forall i | 0 <= i < |ps| ensures ShowsParam(ParamsOf(ps)[i], ps[i].id, ps[i].value) {
      GreaseParameters(ps[i].id);
    }
  }

  lemma SharesShow(es: seq<KeyShareEntry>)
    requires forall i :: 0 <= i < |es| ==> es[i].group < 65536 && |es[i].key| < 65536
    ensures |Mask16(GroupsOf(es))| == |es| && forall i :: 0 <= i < |es| ==> Shows(Mask16(GroupsOf(es))[i], es[i].group)
  {
    hide Shows;
    Mask16Shows(GroupsOf(es));
  }

  lemma CodeIsAssigned(e: Extension)
    ensures Code(e) == Assigned(e)
  {
  }

  lemma HoldsSays(f: Fields, e: Extension)
    requires ValidItems(e) && Holds(f, e)
    ensures Says(f, e)
  {
    hide Mask16, Texts, ParamsOf, Shows, ShowsAll, ShowsTexts, ShowsParams, AllU16, AllShort, ValidParam, EncodeU16s;
    CodeIsAssigned(e);
    match e {
      case Groups(vs, _) => Mask16Shows(vs);
      case KeyShare(es, _) => SharesShow(es);
      case SigAlgs(vs, _) => Mask16Shows(vs);
      case Alpn(ps, _) => TextsShow(ps);
      case AlpsExt(_, ps, _) => TextsShow(ps);
      case SupportedVersions(vs, _) => Mask16Shows(vs);
      case QuicParameters(ps) => ParamsShow(ps);
      case _ =>
    }
  }

  lemma SlotIsField(a: Extension, b: Extension)
    requires ValidItems(a) && ValidItems(b)
    ensures Slot(a) == Slot(b) <==> SameField(a, b)
  {
    hide AllU16, AllShort, ValidParam, EncodeU16s;
  }

  lemma AbsentField(f: Fields, es: seq<Extension>, code: nat)
    requires Lacks(es, code) && (code == EXT_ALPS ==> Lacks(es, EXT_ALPS_OLD)) && code != EXT_ALPS_OLD
    ensures SameSlot(code, f, ApplyAll(f, es))
  {
    hide ApplyAll;
    forall i | 0 <= i < |es| ensures Slot(es[i]) != code { CodeIsAssigned(es[i]); }
    AbsentUnchanged(f, es, code);
  }

  lemma AbsentIsEmpty(ciphers: seq<nat>, es: seq<Extension>)
    ensures EmptyWithout(ApplyAll(NoExtensions(ciphers), es), es)
  {
    hide ApplyAll, Mask16, Lacks;
    var f := NoExtensions(ciphers);
    forall code | Lacks(es, code) && (code == EXT_ALPS ==> Lacks(es, EXT_ALPS_OLD)) && code != EXT_ALPS_OLD
      ensures SameSlot(code, f, ApplyAll(f, es))
    {
      AbsentField(f, es, code);
    }
  }

  // ── The message ────────────────────────────────────────────────────────────

  /** Extension `i` is the last one of its field. */
  predicate LastOfField(es: seq<Extension>, i: nat)
    requires i < |es|
  {
    forall j :: i < j < |es| ==> !SameField(es[j], es[i])
  }

  /** Ciphers and extension codes entry by entry, every field its last extension's content, the others empty. */
  ghost predicate Reports(f: Fields, h: Hello) {
    && ShowsAll(f.ciphers, h.ciphers)
    && |f.extensions| == |h.extensions|
    && (forall i :: 0 <= i < |h.extensions| ==> Shows(f.extensions[i], Assigned(h.extensions[i])))
    && (forall i :: 0 <= i < |h.extensions| && LastOfField(h.extensions, i) ==> Says(f, h.extensions[i]))
    && EmptyWithout(f, h.extensions)
  }

  function Codes(es: seq<Extension>): (cs: seq<nat>)
    ensures |cs| == |es| && forall i :: 0 <= i < |es| ==> cs[i] == Code(es[i])
  {
    seq(|es|, i requires 0 <= i < |es| => Code(es[i]))
  }

  lemma ListedShows(f: Fields, es: seq<Extension>)
    requires AllValid(es) && f.extensions == []
    ensures var g := ApplyAll(f, es);
            && g.ciphers == f.ciphers && |g.extensions| == |es|
            && forall i :: 0 <= i < |es| ==> Shows(g.extensions[i], Assigned(es[i]))
  {
    hide ApplyAll, Shows, MaskValue, Payload;
    ExtensionsListed(f, es);
    var codes := Codes(es);
    assert codes == seq(|es|, i requires 0 <= i < |es| => Code(es[i]));
    assert [] + Mask16(codes) == Mask16(codes);
    forall i | 0 <= i < |es| ensures Shows(Mask16(codes)[i], Assigned(es[i])) {
      CodeIsAssigned(es[i]);
      CodeIsSmall(es[i]);
      MaskShows(codes[i]);
    }
  }

  lemma CodeIsSmall(e: Extension)
    requires ValidItems(e)
    ensures Code(e) < 65536
  {
    hide AllU16, AllShort, ValidParam, EncodeU16s;
  }

  lemma LastSays(f: Fields, es: seq<Extension>, i: nat)
    requires AllValid(es) && i < |es| && LastOfField(es, i)
    ensures Says(ApplyAll(f, es), es[i])
  {
    hide ApplyAll, Says, ValidItems, Payload, Holds, SameField, Slot;
    assert ValidExt(es[i]);
    forall j | i < j < |es| ensures Slot(es[j]) != Slot(es[i]) {
      assert ValidExt(es[j]);
      SlotIsField(es[j], es[i]);
    }
    LastWins(f, es, i);
    HoldsSays(ApplyAll(f, es), es[i]);
  }

  /**
   A parsed message reports what was sent, whatever follows it in the input: GREASE
   values and nothing else masked, every list entry by entry, the last extension of a
   kind, and nothing for those that were not there.
   */
  lemma ParseReports(h: Hello, after: seq<Byte>)
    requires Valid(h)
    ensures Parse(Encode(h) + after).Ok? && Reports(Parse(Encode(h) + after).value, h)
  {
    hide Parse, Encode, EncodeExts, EncodeBody, EncodeU16s, ApplyAll, Shows, Says, AllValid, LastOfField, EmptyWithout;
    ParseInvertsEncode(h, after);
    var f := NoExtensions(h.ciphers);
    Mask16Shows(h.ciphers);
    ListedShows(f, h.extensions);
    AbsentIsEmpty(h.ciphers, h.extensions);
    forall i | 0 <= i < |h.extensions| && LastOfField(h.extensions, i) ensures Says(ApplyAll(f, h.extensions), h.extensions[i]) {
      LastSays(f, h.extensions, i);
    }
  }

  // ── Exactly the encodings parse ────────────────────────────────────────────

  lemma {:induction false} U16sRead(s: seq<Byte>)
    requires U16s(s).Ok?
    ensures AllU16(U16s(s).value) && EncodeU16s(U16s(s).value) == s
    decreases |s|
  {
    hide Uint, ToBigEndian;
    if s != [] {
      var v := Uint(s, 2).value;
      UintReads(s, 2);
      Fits2(v.value);
      U16sRead(v.rest);
      var vs := U16s(s).value;
      assert vs[0] == v.value && vs[1..] == U16s(v.rest).value;
    }
  }

  lemma {:induction false} VecsRead(s: seq<Byte>)
    requires Vecs(s).Ok?
    ensures AllShort(Vecs(s).value) && EncodeVecs(Vecs(s).value) == s
    decreases |s|
  {
    hide Vec, EncodeVec;
    if s != [] {
      var v := Vec(s, 1).value;
      VecReads(s, 1);
      Fits2(|v.value|);
      VecsRead(v.rest);
      var bs := Vecs(s).value;
      assert bs[0] == v.value && bs[1..] == Vecs(v.rest).value;
    }
  }

  predicate ValidShares(es: seq<KeyShareEntry>) {
    forall i :: 0 <= i < |es| ==> es[i].group < 65536 && |es[i].key| < 65536
  }

  lemma ShareReads(s: seq<Byte>) returns (e: KeyShareEntry)
    requires Share(s).Ok?
    ensures e.group < 65536 && |e.key| < 65536 && e.group == Share(s).value.value
    ensures s == ToBigEndian(e.group, 2) + EncodeVec(e.key, 2) + Share(s).value.rest
  {
    hide Uint, Vec, EncodeVec, ToBigEndian, FitsBytes;
    var g := Uint(s, 2).value;
    UintReads(s, 2);
    VecReads(g.rest, 2);
    var key := Vec(g.rest, 2).value;
    Fits2(g.value);
    Fits2(|key.value|);
    e := KeyShareEntry(g.value, key.value);
    assert s == ToBigEndian(g.value, 2) + EncodeVec(key.value, 2) + key.rest;
  }

  lemma {:induction false} SharesRead(s: seq<Byte>) returns (es: seq<KeyShareEntry>)
    requires ShareGroups(s).Ok?
    ensures ValidShares(es) && EncodeShares(es) == s
    decreases |s|
  {
    hide Share, EncodeVec, ToBigEndian;
    if s == [] {
      es := [];
    } else {
      var e := ShareReads(s);
      var more := SharesRead(Share(s).value.rest);
      es := [e] + more;
      assert es[1..] == more;
    }
  }

  predicate ValidParams(ps: seq<TransportParam>) { forall i :: 0 <= i < |ps| ==> ValidParam(ps[i]) }

  lemma ParamReads(s: seq<Byte>) returns (p: TransportParam)
    requires OneParam(s).Ok?
    ensures ValidParam(p) && s == EncodeParam(p) + OneParam(s).value.rest
  {
    hide Varint, EncodeVarint, Limit, MaskParam;
    var id := Varint(s).value;
    var idCode := VarintReads(s);
    var n := Varint(id.rest).value;
    var lenCode := VarintReads(id.rest);
    var value := Take(n.rest, n.value).value;
    p := TransportParam(id.value, idCode, value.value, lenCode);
    assert s == EncodeVarint(id.value, idCode) + EncodeVarint(n.value, lenCode) + value.value + value.rest;
  }

  lemma {:induction false} ParamsRead(s: seq<Byte>) returns (ps: seq<TransportParam>)
    requires Params(s).Ok?
    ensures ValidParams(ps) && EncodeParams(ps) == s
    decreases |s|
  {
    hide OneParam, EncodeParam, ValidParam;
    if s == [] {
      ps := [];
    } else {
      var p := ParamReads(s);
      var more := ParamsRead(OneParam(s).value.rest);
      ps := [p] + more;
      assert ps[1..] == more;
    }
  }

  lemma U16ListReads(data: seq<Byte>, lenBytes: nat) returns (vs: seq<nat>, slack: seq<Byte>)
    requires U16List(data, lenBytes).Ok?
    ensures AllU16(vs) && FitsBytes(|EncodeU16s(vs)|, lenBytes) && data == EncodeVec(EncodeU16s(vs), lenBytes) + slack
  {
    hide Vec, EncodeVec, FitsBytes, U16s, EncodeU16s;
    VecReads(data, lenBytes);
    var v := Vec(data, lenBytes).value;
    U16sRead(v.value);
    vs, slack := U16s(v.value).value, v.rest;
  }

  lemma VecListReads(data: seq<Byte>) returns (bs: seq<seq<Byte>>, slack: seq<Byte>)
    requires VecList(data).Ok?
    ensures AllShort(bs) && data == EncodeVec(EncodeVecs(bs), 2) + slack
  {
    hide Vec, EncodeVec, FitsBytes, Vecs, EncodeVecs;
    VecReads(data, 2);
    var v := Vec(data, 2).value;
    VecsRead(v.value);
    bs, slack := Vecs(v.value).value, v.rest;
  }

  lemma ShareListReads(data: seq<Byte>) returns (es: seq<KeyShareEntry>, slack: seq<Byte>)
    requires ShareList(data).Ok?
    ensures ValidShares(es) && data == EncodeVec(EncodeShares(es), 2) + slack
  {
    hide Vec, EncodeVec, FitsBytes, ShareGroups, EncodeShares;
    VecReads(data, 2);
    var v := Vec(data, 2).value;
    es := SharesRead(v.value);
    slack := v.rest;
  }

  /** Content an extension's parser accepts is the content of such an extension. */
  lemma ExtReads(f: Fields, code: nat, data: seq<Byte>) returns (e: Extension)
    requires ParseExt(f, code, data).Ok? && code < 65536 && |data| < 65536
    ensures ValidExt(e) && Code(e) == code && Payload(e) == data
  {
    hide U16List, VecList, ShareList, Params, Mask16, Texts, MaskValue, EncodeVec, EncodeU16s, EncodeVecs,
         EncodeShares, EncodeParams, FitsBytes, AllU16, AllShort, ValidParam;
    if code in {EXT_SUPPORTED_GROUPS, EXT_SIG_ALGS} {
      var vs, slack := U16ListReads(data, 2);
      e := if code == EXT_SUPPORTED_GROUPS then Groups(vs, slack) else SigAlgs(vs, slack);
    } else if code in {EXT_COMPRESS_CERT, EXT_SUPPORTED_VERSIONS} {
      var vs, slack := U16ListReads(data, 1);
      Fits2(|EncodeU16s(vs)|);
      e := if code == EXT_COMPRESS_CERT then CompressCert(vs, slack) else SupportedVersions(vs, slack);
    } else if code in {EXT_ALPN, EXT_ALPS_OLD, EXT_ALPS, EXT_TRUST_ANCHORS} {
      var bs, slack := VecListReads(data);
      e := if code == EXT_ALPN then Alpn(bs, slack) else if code == EXT_TRUST_ANCHORS then TrustAnchors(bs, slack)
           else AlpsExt(code == EXT_ALPS_OLD, bs, slack);
    } else if code == EXT_KEY_SHARE {
      var es, slack := ShareListReads(data);
      e := KeyShare(es, slack);
    } else if code == EXT_QUIC_TP {
      var ps := ParamsRead(data);
      e := QuicParameters(ps);
    } else {
      e := if code == EXT_ECH then Ech(data) else Other(code, data);
    }
  }

  lemma OneExtReads(f: Fields, s: seq<Byte>) returns (e: Extension, rest: seq<Byte>)
    requires s != [] && ParseExts(f, s).Ok?
    ensures ValidExt(e) && |rest| < |s| && s == ToBigEndian(Code(e), 2) + EncodeVec(Payload(e), 2) + rest
    ensures ParseExts(f, s) == ParseExts(Apply(f, e), rest)
  {
    hide Uint, Vec, EncodeVec, ToBigEndian, ParseExt, Payload, Apply, ValidItems, FitsBytes;
    var ext := Uint(s, 2).value;
    var data := Vec(ext.rest, 2).value;
    UintReads(s, 2);
    VecReads(ext.rest, 2);
    Fits2(ext.value);
    Fits2(|data.value|);
    e := ExtReads(f, ext.value, data.value);
    rest := data.rest;
    ParseExtInverts(f, e);
    assert s == ToBigEndian(ext.value, 2) + EncodeVec(data.value, 2) + rest;
  }

  lemma {:induction false} ExtsRead(f: Fields, s: seq<Byte>) returns (es: seq<Extension>)
    requires ParseExts(f, s).Ok?
    ensures AllValid(es) && EncodeExts(es) == s
    decreases |s|
  {
    hide ParseExt, Payload, ValidItems, Code, Apply, EncodeVec, ToBigEndian, Uint, Vec;
    if s == [] {
      es := [];
    } else {
      var e, rest := OneExtReads(f, s);
      var more := ExtsRead(Apply(f, e), rest);
      es := [e] + more;
      assert es[1..] == more;
    }
  }

  lemma BodyReads(body: seq<Byte>) returns (h: Hello)
    requires ParseBody(body).Ok? && |body| < 0x100_0000
    ensures Valid(h) && EncodeBody(h) == body
  {
    hide Vec, EncodeVec, U16s, EncodeU16s, ParseExts, EncodeExts, NoExtensions, FitsBytes, AllU16, AllValid;
    var fixed := Take(body, 2 + 32).value;
    var sessionId := Vec(fixed.rest, 1).value;
    var suites := Vec(sessionId.rest, 2).value;
    var compression := Vec(suites.rest, 1).value;
    var exts := Vec(compression.rest, 2).value;
    VecReads(fixed.rest, 1);
    VecReads(sessionId.rest, 2);
    VecReads(suites.rest, 1);
    VecReads(compression.rest, 2);
    U16sRead(suites.value);
    var ciphers := U16s(suites.value).value;
    var es := ExtsRead(NoExtensions(ciphers), exts.value);
    Fits2(|sessionId.value|);
    Fits2(|suites.value|);
    Fits2(|compression.value|);
    Fits2(|exts.value|);
    h := Hello(fixed.value, sessionId.value, ciphers, compression.value, es, exts.rest);
  }

  lemma MessageReads(msg: seq<Byte>) returns (h: Hello, after: seq<Byte>)
    requires Parse(msg).Ok?
    ensures Valid(h) && msg == Encode(h) + after
  {
    hide BigEndian, ToBigEndian, ParseBody, EncodeBody, FitsBytes, AllValid, Valid;
    ParseOutcome(msg);
    var n := BigEndian(msg[1..4]);
    var body := msg[4..4 + n];
    ToBigEndianInverts(msg[1..4]);
    Fits2(n);
    h := BodyReads(body);
    after := msg[4 + n..];
    ValidIsEncodable(h);
    OneIsOne();
    assert msg == [1] + (msg[1..4] + body) + after;
  }

  lemma ValidIsEncodable(h: Hello)
    requires Valid(h)
    ensures AllValid(h.extensions)
  {
  }

  lemma {:induction false} ExtsError(f: Fields, s: seq<Byte>)
    requires ParseExts(f, s).Err?
    ensures ParseExts(f, s).error == Truncated
    decreases |s|
  {
    hide Uint, Vec, Mask16, Texts, MaskValue, U16s, Vecs, ShareGroups, Params;
    if s != [] && Uint(s, 2).Ok? {
      var ext := Uint(s, 2).value;
      if Vec(ext.rest, 2).Ok? {
        var data := Vec(ext.rest, 2).value;
        var g := ParseExt(f, ext.value, data.value);
        if g.Ok? { ExtsError(g.value, data.rest); }
      }
    }
  }

  /** Only the first byte makes an input another message; everything else that does not parse is cut short. */
  lemma ErrorIs(msg: seq<Byte>)
    requires Parse(msg).Err?
    ensures Parse(msg).error == if msg != [] && msg[0] != 1 then NotClientHello else Truncated
  {
    hide BigEndian, ParseExts, Vec, U16s, NoExtensions;
    ParseOutcome(msg);
    forall f: Fields, s: seq<Byte> | ParseExts(f, s).Err? ensures ParseExts(f, s).error == Truncated { ExtsError(f, s); }
  }

  ghost predicate IsEncoding(msg: seq<Byte>, h: Hello, after: seq<Byte>) {
    Valid(h) && msg == Encode(h) + after
  }

  /** The inputs that parse are exactly the encodings of messages, followed by anything, and what they parse to is determined. */
  lemma ParsesIffEncoding(msg: seq<Byte>)
    ensures Parse(msg).Ok? <==> exists h: Hello, after: seq<Byte> :: IsEncoding(msg, h, after)
    ensures forall h: Hello, after: seq<Byte> :: IsEncoding(msg, h, after) ==> Parse(msg) == Ok(FieldsOf(h)) && Reports(FieldsOf(h), h)
    ensures Parse(msg).Err? ==> Parse(msg).error == if msg != [] && msg[0] != 1 then NotClientHello else Truncated
  {
    hide Parse, Encode, Valid, FieldsOf, Reports;
    if Parse(msg).Ok? {
      var h, after := MessageReads(msg);
      assert IsEncoding(msg, h, after);
    } else {
      ErrorIs(msg);
    }
    forall h: Hello, after: seq<Byte> | IsEncoding(msg, h, after)
      ensures Parse(msg) == Ok(FieldsOf(h)) && Reports(FieldsOf(h), h)
    {
      ParseInvertsEncode(h, after);
      ParseReports(h, after);
    }
  }
}
