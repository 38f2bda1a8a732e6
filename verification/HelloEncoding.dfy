/**
 ClientHello messages as section 4.1.2 of RFC 8446 lays them out, with the
 extensions the parser looks into, and the proof that parsing inverts encoding.
 */
module HelloEncoding {
  import opened Bits
  import opened Bytes
  import opened HelloReader
  import opened ClientHello
  import opened Wrappers

  datatype KeyShareEntry = KeyShareEntry(group: nat, key: seq<Byte>)

  /** A transport parameter with the varint sizes its sender chose. */
  datatype TransportParam = TransportParam(id: nat, idCode: nat, value: seq<Byte>, lenCode: nat)

  /** `slack` is what a sender puts behind a list inside the extension; the parser does not look at it. */
  datatype Extension =
    | Groups(groups: seq<nat>, slack: seq<Byte>)
    | KeyShare(shares: seq<KeyShareEntry>, slack: seq<Byte>)
    | SigAlgs(algs: seq<nat>, slack: seq<Byte>)
    | Alpn(protocols: seq<seq<Byte>>, slack: seq<Byte>)
    | AlpsExt(early: bool, protocols: seq<seq<Byte>>, slack: seq<Byte>)
    | CompressCert(compressors: seq<nat>, slack: seq<Byte>)
    | SupportedVersions(versions: seq<nat>, slack: seq<Byte>)
    | Ech(payload: seq<Byte>)
    | TrustAnchors(ids: seq<seq<Byte>>, slack: seq<Byte>)
    | QuicParameters(params: seq<TransportParam>)
    | Other(kind: nat, payload: seq<Byte>)

  /** `tail` follows the extensions inside the message and is not looked at either. */
  datatype Hello = Hello(
    versionAndRandom: seq<Byte>,
    sessionId: seq<Byte>,
    ciphers: seq<nat>,
    compression: seq<Byte>,
    extensions: seq<Extension>,
    tail: seq<Byte>)

  // ── Encoding ───────────────────────────────────────────────────────────────

  function EncodeU16s(vs: seq<nat>): seq<Byte> {
    if vs == [] then [] else ToBigEndian(vs[0], 2) + EncodeU16s(vs[1..])
  }

  function EncodeVecs(bs: seq<seq<Byte>>): seq<Byte> {
    if bs == [] then [] else EncodeVec(bs[0], 1) + EncodeVecs(bs[1..])
  }

  function EncodeShares(es: seq<KeyShareEntry>): seq<Byte> {
    if es == [] then [] else ToBigEndian(es[0].group, 2) + EncodeVec(es[0].key, 2) + EncodeShares(es[1..])
  }

  function EncodeParam(p: TransportParam): seq<Byte>
    requires ValidParam(p)
  {
    EncodeVarint(p.id, p.idCode) + EncodeVarint(|p.value|, p.lenCode) + p.value
  }

  function EncodeParams(ps: seq<TransportParam>): seq<Byte>
    requires forall i :: 0 <= i < |ps| ==> ValidParam(ps[i])
  {
    if ps == [] then [] else EncodeParam(ps[0]) + EncodeParams(ps[1..])
  }

  function Code(e: Extension): nat {
    match e
    case Groups(_, _) => EXT_SUPPORTED_GROUPS
    case KeyShare(_, _) => EXT_KEY_SHARE
    case SigAlgs(_, _) => EXT_SIG_ALGS
    case Alpn(_, _) => EXT_ALPN
    case AlpsExt(early, _, _) => if early then EXT_ALPS_OLD else EXT_ALPS
    case CompressCert(_, _) => EXT_COMPRESS_CERT
    case SupportedVersions(_, _) => EXT_SUPPORTED_VERSIONS
    case Ech(_) => EXT_ECH
    case TrustAnchors(_, _) => EXT_TRUST_ANCHORS
    case QuicParameters(_) => EXT_QUIC_TP
    case Other(kind, _) => kind
  }

  function Payload(e: Extension): seq<Byte>
    requires ValidItems(e)
  {
    match e
    case Groups(vs, slack) => EncodeVec(EncodeU16s(vs), 2) + slack
    case KeyShare(es, slack) => EncodeVec(EncodeShares(es), 2) + slack
    case SigAlgs(vs, slack) => EncodeVec(EncodeU16s(vs), 2) + slack
    case Alpn(ps, slack) => EncodeVec(EncodeVecs(ps), 2) + slack
    case AlpsExt(_, ps, slack) => EncodeVec(EncodeVecs(ps), 2) + slack
    case CompressCert(vs, slack) => EncodeVec(EncodeU16s(vs), 1) + slack
    case SupportedVersions(vs, slack) => EncodeVec(EncodeU16s(vs), 1) + slack
    case Ech(b) => b
    case TrustAnchors(ids, slack) => EncodeVec(EncodeVecs(ids), 2) + slack
    case QuicParameters(ps) => EncodeParams(ps)
    case Other(_, b) => b
  }

  function EncodeExts(es: seq<Extension>): seq<Byte>
    requires AllValid(es)
  {
    if es == [] then [] else ToBigEndian(Code(es[0]), 2) + EncodeVec(Payload(es[0]), 2) + EncodeExts(es[1..])
  }

  function EncodeBody(h: Hello): seq<Byte>
    requires AllValid(h.extensions)
  {
    h.versionAndRandom + (EncodeVec(h.sessionId, 1) + (EncodeVec(EncodeU16s(h.ciphers), 2)
      + (EncodeVec(h.compression, 1) + (EncodeVec(EncodeExts(h.extensions), 2) + h.tail))))
  }

  function Encode(h: Hello): seq<Byte>
    requires AllValid(h.extensions)
  {
    ToBigEndian(1, 1) + EncodeVec(EncodeBody(h), 3)
  }

  // ── Which messages can be written ──────────────────────────────────────────

  predicate AllU16(vs: seq<nat>) { forall i :: 0 <= i < |vs| ==> vs[i] < 65536 }

  predicate AllShort(bs: seq<seq<Byte>>) { forall i :: 0 <= i < |bs| ==> |bs[i]| < 256 }

  predicate ValidParam(p: TransportParam) {
    && p.idCode < 4 && p.lenCode < 4
    && p.id < Limit(Size(p.idCode)) && |p.value| < Limit(Size(p.lenCode))
  }

  const KNOWN: set<nat> := {EXT_SUPPORTED_GROUPS, EXT_SIG_ALGS, EXT_ALPN, EXT_COMPRESS_CERT, EXT_SUPPORTED_VERSIONS,
    EXT_KEY_SHARE, EXT_QUIC_TP, EXT_ALPS_OLD, EXT_ALPS, EXT_TRUST_ANCHORS, EXT_ECH}

  predicate ValidItems(e: Extension) {
    match e
    case Groups(vs, _) => AllU16(vs)
    case KeyShare(es, _) => forall i :: 0 <= i < |es| ==> es[i].group < 65536 && |es[i].key| < 65536
    case SigAlgs(vs, _) => AllU16(vs)
    case Alpn(ps, _) => AllShort(ps)
    case AlpsExt(_, ps, _) => AllShort(ps)
    case CompressCert(vs, _) => AllU16(vs) && |EncodeU16s(vs)| < 256
    case SupportedVersions(vs, _) => AllU16(vs) && |EncodeU16s(vs)| < 256
    case Ech(_) => true
    case TrustAnchors(ids, _) => AllShort(ids)
    case QuicParameters(ps) => forall i :: 0 <= i < |ps| ==> ValidParam(ps[i])
    case Other(kind, _) => kind < 65536 && kind !in KNOWN
  }

  predicate ValidExt(e: Extension) { ValidItems(e) && |Payload(e)| < 65536 }

  predicate AllValid(es: seq<Extension>) { forall i :: 0 <= i < |es| ==> ValidExt(es[i]) }

  predicate Valid(h: Hello) {
    && |h.versionAndRandom| == 34 && |h.sessionId| < 256 && |h.compression| < 256
    && AllU16(h.ciphers) && |EncodeU16s(h.ciphers)| < 65536
    && AllValid(h.extensions) && |EncodeExts(h.extensions)| < 65536
    && |EncodeBody(h)| < 0x100_0000
  }

  // ── What a message says ────────────────────────────────────────────────────

  function GroupsOf(es: seq<KeyShareEntry>): seq<nat> {
    seq(|es|, i requires 0 <= i < |es| => es[i].group)
  }

  function ParamsOf(ps: seq<TransportParam>): seq<Param> {
    seq(|ps|, i requires 0 <= i < |ps| => MaskParam(ps[i].id, ps[i].value))
  }

  /** An extension is listed, and its content replaces what its field held. */
  function Apply(f: Fields, e: Extension): Fields {
    var g := f.(extensions := f.extensions + [MaskValue(Code(e))]);
    match e
    case Groups(vs, _) => g.(groups := Mask16(vs))
    case KeyShare(es, _) => g.(keyShare := Mask16(GroupsOf(es)))
    case SigAlgs(vs, _) => g.(sigAlgs := Mask16(vs))
    case Alpn(ps, _) => g.(alpn := Texts(ps))
    case AlpsExt(_, ps, _) => g.(alps := Some(Alps(Code(e), Texts(ps))))
    case CompressCert(vs, _) => g.(compressCert := vs)
    case SupportedVersions(vs, _) => g.(supportedVersions := Mask16(vs))
    case Ech(_) => g.(ech := true)
    case TrustAnchors(ids, _) => g.(trustAnchors := Some(ids))
    case QuicParameters(ps) => g.(transportParameters := Some(ParamsOf(ps)))
    case Other(_, _) => g
  }

  function ApplyAll(f: Fields, es: seq<Extension>): Fields
    decreases |es|
  {
    if es == [] then f else ApplyAll(Apply(f, es[0]), es[1..])
  }

  function FieldsOf(h: Hello): Fields {
    ApplyAll(NoExtensions(h.ciphers), h.extensions)
  }

  // ── Lists round trip ───────────────────────────────────────────────────────

  lemma {:induction false} U16sInvert(vs: seq<nat>)
    requires AllU16(vs)
    ensures U16s(EncodeU16s(vs)) == Ok(vs)
  {
    hide Uint, ToBigEndian;
    if vs != [] {
      Fits2(vs[0]);
      UintInverts(vs[0], 2, EncodeU16s(vs[1..]));
      U16sInvert(vs[1..]);
      assert [vs[0]] + vs[1..] == vs;
    }
  }

  lemma Fits2(v: nat)
    ensures FitsBytes(v, 2) <==> v < 65536
    ensures FitsBytes(v, 1) <==> v < 256
    ensures FitsBytes(v, 3) <==> v < 16777216
  {
    assert FitsBytes(v / 256, 1) <==> v / 256 < 256;
    assert FitsBytes(v / 256, 2) <==> v / 256 < 65536 by { assert FitsBytes(v / 256 / 256, 1) <==> v / 256 / 256 < 256; }
  }

  lemma {:induction false} VecsInvert(bs: seq<seq<Byte>>)
    requires AllShort(bs)
    ensures Vecs(EncodeVecs(bs)) == Ok(bs)
  {
    hide Vec, EncodeVec;
    if bs != [] {
      Fits2(|bs[0]|);
      VecInverts(bs[0], 1, EncodeVecs(bs[1..]));
      NonEmptyVec(bs[0], 1);
      VecsInvert(bs[1..]);
      assert [bs[0]] + bs[1..] == bs;
    }
  }

  lemma NonEmptyVec(b: seq<Byte>, lenBytes: nat)
    ensures |EncodeVec(b, lenBytes)| == lenBytes + |b|
  {
  }

  lemma ShareInverts(e: KeyShareEntry, rest: seq<Byte>)
    requires e.group < 65536 && |e.key| < 65536
    ensures var bytes := ToBigEndian(e.group, 2) + EncodeVec(e.key, 2) + rest;
            bytes != [] && Share(bytes) == Ok(Parsed(e.group, rest))
  {
    hide Vec, EncodeVec, Uint, ToBigEndian, FitsBytes;
    var key := EncodeVec(e.key, 2);
    Fits2(e.group);
    Fits2(|e.key|);
    UintInverts(e.group, 2, key + rest);
    VecInverts(e.key, 2, rest);
    assert ToBigEndian(e.group, 2) + key + rest == ToBigEndian(e.group, 2) + (key + rest);
  }

  lemma GroupsCons(es: seq<KeyShareEntry>)
    requires es != []
    ensures GroupsOf(es) == [es[0].group] + GroupsOf(es[1..])
  {
  }

  lemma {:induction false} SharesInvert(es: seq<KeyShareEntry>)
    requires forall i :: 0 <= i < |es| ==> es[i].group < 65536 && |es[i].key| < 65536
    ensures ShareGroups(EncodeShares(es)) == Ok(GroupsOf(es))
  {
    hide Share;
    if es == [] {
      assert GroupsOf(es) == [];
    } else {
      ShareInverts(es[0], EncodeShares(es[1..]));
      SharesInvert(es[1..]);
      GroupsCons(es);
    }
  }

  lemma ParamInverts(p: TransportParam, rest: seq<Byte>)
    requires ValidParam(p)
    ensures OneParam(EncodeParam(p) + rest) == Ok(Parsed(MaskParam(p.id, p.value), rest))
    ensures EncodeParam(p) != []
  {
    hide Varint, EncodeVarint, Take, Limit, MaskParam;
    var id, n := EncodeVarint(p.id, p.idCode), EncodeVarint(|p.value|, p.lenCode);
    assert EncodeParam(p) + rest == id + (n + (p.value + rest));
    VarintInverts(p.id, p.idCode, n + (p.value + rest));
    VarintInverts(|p.value|, p.lenCode, p.value + rest);
    TakeInverts(p.value, rest);
    assert id != [] by { VarintIsSome(p.id, p.idCode); }
  }

  lemma VarintIsSome(v: nat, code: nat)
    requires code < 4 && v < Limit(Size(code))
    ensures EncodeVarint(v, code) != []
  {
    BelowLimit(v, Size(code));
  }

  lemma {:induction false} ParamsInvert(ps: seq<TransportParam>)
    requires forall i :: 0 <= i < |ps| ==> ValidParam(ps[i])
    ensures Params(EncodeParams(ps)) == Ok(ParamsOf(ps))
  {
    hide OneParam, EncodeParam, ValidParam, MaskParam;
    if ps != [] {
      ParamInverts(ps[0], EncodeParams(ps[1..]));
      ParamsInvert(ps[1..]);
      assert ParamsOf(ps) == [MaskParam(ps[0].id, ps[0].value)] + ParamsOf(ps[1..]);
    }
  }

  // ── Extensions round trip ──────────────────────────────────────────────────

  lemma U16ListInverts(vs: seq<nat>, lenBytes: nat, slack: seq<Byte>)
    requires AllU16(vs) && FitsBytes(|EncodeU16s(vs)|, lenBytes)
    ensures U16List(EncodeVec(EncodeU16s(vs), lenBytes) + slack, lenBytes) == Ok(vs)
  {
    hide Vec, EncodeVec, FitsBytes, U16s, EncodeU16s;
    VecInverts(EncodeU16s(vs), lenBytes, slack);
    U16sInvert(vs);
  }

  lemma VecListInverts(bs: seq<seq<Byte>>, slack: seq<Byte>)
    requires AllShort(bs) && FitsBytes(|EncodeVecs(bs)|, 2)
    ensures VecList(EncodeVec(EncodeVecs(bs), 2) + slack) == Ok(bs)
  {
    hide Vec, EncodeVec, FitsBytes, Vecs, EncodeVecs;
    VecInverts(EncodeVecs(bs), 2, slack);
    VecsInvert(bs);
  }

  lemma ShareListInverts(es: seq<KeyShareEntry>, slack: seq<Byte>)
    requires forall i :: 0 <= i < |es| ==> es[i].group < 65536 && |es[i].key| < 65536
    requires FitsBytes(|EncodeShares(es)|, 2)
    ensures ShareList(EncodeVec(EncodeShares(es), 2) + slack) == Ok(GroupsOf(es))
  {
    hide Vec, EncodeVec, FitsBytes, ShareGroups, EncodeShares;
    VecInverts(EncodeShares(es), 2, slack);
    SharesInvert(es);
  }

  lemma ParseExtInverts(f: Fields, e: Extension)
    requires ValidExt(e)
    ensures ParseExt(f, Code(e), Payload(e)) == Ok(Apply(f, e))
  {
    hide U16List, VecList, ShareList, Params, Mask16, Texts, MaskValue, EncodeVec, EncodeU16s, EncodeVecs,
         EncodeShares, EncodeParams, FitsBytes, AllU16, AllShort, GroupsOf, ParamsOf;
    match e {
      case Groups(vs, slack) => Room(EncodeU16s(vs), 2); U16ListInverts(vs, 2, slack);
      case SigAlgs(vs, slack) => Room(EncodeU16s(vs), 2); U16ListInverts(vs, 2, slack);
      case CompressCert(vs, slack) => Room(EncodeU16s(vs), 1); U16ListInverts(vs, 1, slack);
      case SupportedVersions(vs, slack) => Room(EncodeU16s(vs), 1); U16ListInverts(vs, 1, slack);
      case KeyShare(es, slack) => Room(EncodeShares(es), 2); ShareListInverts(es, slack);
      case Alpn(ps, slack) => Room(EncodeVecs(ps), 2); VecListInverts(ps, slack);
      case AlpsExt(_, ps, slack) => Room(EncodeVecs(ps), 2); VecListInverts(ps, slack);
      case TrustAnchors(ids, slack) => Room(EncodeVecs(ids), 2); VecListInverts(ids, slack);
      case QuicParameters(ps) => ParamsInvert(ps);
      case Ech(_) =>
      case Other(_, _) =>
    }
  }

  /** A vector that fits the extension fits its own length field. */
  lemma Room(b: seq<Byte>, lenBytes: nat)
    requires lenBytes == 1 || lenBytes == 2
    ensures |EncodeVec(b, lenBytes)| == lenBytes + |b|
    ensures lenBytes == 2 && |EncodeVec(b, lenBytes)| < 65536 ==> FitsBytes(|b|, lenBytes)
    ensures lenBytes == 1 && |b| < 256 ==> FitsBytes(|b|, lenBytes)
  {
    Fits2(|b|);
  }

  lemma {:induction false} ExtsInvert(f: Fields, es: seq<Extension>)
    requires AllValid(es)
    ensures ParseExts(f, EncodeExts(es)) == Ok(ApplyAll(f, es))
    decreases |es|
  {
    hide Uint, Vec, EncodeVec, ToBigEndian, ParseExt, Payload, Code, Apply, ValidItems;
    if es != [] {
      var code, data, rest := Code(es[0]), Payload(es[0]), EncodeExts(es[1..]);
      CodeFits(es[0]);
      UintInverts(code, 2, EncodeVec(data, 2) + rest);
      VecInverts(data, 2, rest);
      assert EncodeExts(es) == ToBigEndian(code, 2) + (EncodeVec(data, 2) + rest);
      ParseExtInverts(f, es[0]);
      ExtsInvert(Apply(f, es[0]), es[1..]);
    }
  }

  lemma CodeFits(e: Extension)
    requires ValidExt(e)
    ensures FitsBytes(Code(e), 2) && FitsBytes(|Payload(e)|, 2)
  {
    hide EncodeVec, FitsBytes, EncodeU16s, EncodeVecs, EncodeShares, EncodeParams, AllU16, AllShort;
    Fits2(Code(e));
    Fits2(|Payload(e)|);
  }

  // ── The message round trip ─────────────────────────────────────────────────

  lemma BodyInverts(h: Hello)
    requires Valid(h)
    ensures ParseBody(EncodeBody(h)) == Ok(FieldsOf(h))
  {
    hide Take, Vec, EncodeVec, U16s, EncodeU16s, ParseExts, EncodeExts, ApplyAll, NoExtensions, FitsBytes, AllU16, AllValid;
    var exts := EncodeVec(EncodeExts(h.extensions), 2) + h.tail;
    var compression := EncodeVec(h.compression, 1);
    var suites := EncodeVec(EncodeU16s(h.ciphers), 2);
    Fits2(|h.sessionId|);
    Fits2(|h.compression|);
    Fits2(|EncodeU16s(h.ciphers)|);
    Fits2(|EncodeExts(h.extensions)|);
    TakeInverts(h.versionAndRandom, EncodeVec(h.sessionId, 1) + (suites + (compression + exts)));
    VecInverts(h.sessionId, 1, suites + (compression + exts));
    VecInverts(EncodeU16s(h.ciphers), 2, compression + exts);
    VecInverts(h.compression, 1, exts);
    VecInverts(EncodeExts(h.extensions), 2, h.tail);
    U16sInvert(h.ciphers);
    ExtsInvert(NoExtensions(h.ciphers), h.extensions);
  }

  /** Parsing gives back what the message says, whatever follows it in the input. */
  lemma ParseInvertsEncode(h: Hello, after: seq<Byte>)
    requires Valid(h)
    ensures Parse(Encode(h) + after) == Ok(FieldsOf(h))
  {
    hide Uint, Take, EncodeBody, ParseBody, FieldsOf, AllValid, ToBigEndian, FitsBytes;
    var body := EncodeBody(h);
    var n := ToBigEndian(|body|, 3);
    assert Encode(h) + after == ToBigEndian(1, 1) + (n + (body + after));
    Fits2(1);
    UintInverts(1, 1, n + (body + after));
    BodyFits(h);
    UintInverts(|body|, 3, body + after);
    TakeInverts(body, after);
    BodyInverts(h);
  }

  /** Every message cut short is refused as truncated. */
  lemma PrefixIsTruncated(h: Hello, k: nat)
    requires Valid(h) && k < |Encode(h)|
    ensures Parse(Encode(h)[..k]) == Err(Truncated)
  {
    hide BigEndian, ToBigEndian, EncodeBody, ParseBody, Parse, AllValid, FitsBytes;
    var msg, body := Encode(h), EncodeBody(h);
    var n := ToBigEndian(|body|, 3);
    BodyFits(h);
    BigEndianInverts(|body|, 3);
    OneIsOne();
    assert msg == [1] + (n + body);
    assert msg[1..4] == n;
    ParseOutcome(msg[..k]);
    if k >= 4 { assert msg[..k][1..4] == n; }
  }

  lemma OneIsOne()
    ensures ToBigEndian(1, 1) == [1]
  {
  }

  lemma BodyFits(h: Hello)
    requires Valid(h)
    ensures FitsBytes(|EncodeBody(h)|, 3)
  {
    hide EncodeU16s, EncodeExts, AllU16, AllValid, FitsBytes;
    Fits2(|EncodeBody(h)|);
  }

  // ── What the fields hold ───────────────────────────────────────────────────

  /** The field an extension writes; both ALPS code points share one. */
  function Slot(e: Extension): nat {
    if Code(e) == EXT_ALPS_OLD then EXT_ALPS else Code(e)
  }

  predicate SameSlot(slot: nat, f: Fields, g: Fields) {
    && (slot == EXT_SUPPORTED_GROUPS ==> f.groups == g.groups)
    && (slot == EXT_KEY_SHARE ==> f.keyShare == g.keyShare)
    && (slot == EXT_SIG_ALGS ==> f.sigAlgs == g.sigAlgs)
    && (slot == EXT_ALPN ==> f.alpn == g.alpn)
    && (slot == EXT_ALPS ==> f.alps == g.alps)
    && (slot == EXT_COMPRESS_CERT ==> f.compressCert == g.compressCert)
    && (slot == EXT_SUPPORTED_VERSIONS ==> f.supportedVersions == g.supportedVersions)
    && (slot == EXT_ECH ==> f.ech == g.ech)
    && (slot == EXT_TRUST_ANCHORS ==> f.trustAnchors == g.trustAnchors)
    && (slot == EXT_QUIC_TP ==> f.transportParameters == g.transportParameters)
  }

  predicate Holds(f: Fields, e: Extension) {
    match e
    case Groups(vs, _) => f.groups == Mask16(vs)
    case KeyShare(es, _) => f.keyShare == Mask16(GroupsOf(es))
    case SigAlgs(vs, _) => f.sigAlgs == Mask16(vs)
    case Alpn(ps, _) => f.alpn == Texts(ps)
    case AlpsExt(_, ps, _) => f.alps == Some(Alps(Code(e), Texts(ps)))
    case CompressCert(vs, _) => f.compressCert == vs
    case SupportedVersions(vs, _) => f.supportedVersions == Mask16(vs)
    case Ech(_) => f.ech
    case TrustAnchors(ids, _) => f.trustAnchors == Some(ids)
    case QuicParameters(ps) => f.transportParameters == Some(ParamsOf(ps))
    case Other(_, _) => true
  }

  /** A field no extension writes stays as it was. */
  lemma {:induction false} AbsentUnchanged(f: Fields, es: seq<Extension>, slot: nat)
    requires forall i :: 0 <= i < |es| ==> Slot(es[i]) != slot
    ensures SameSlot(slot, f, ApplyAll(f, es))
    decreases |es|
  {
    hide Mask16, Texts, GroupsOf, ParamsOf, MaskValue;
    if es != [] {
      assert Slot(es[0]) != slot;
      assert SameSlot(slot, f, Apply(f, es[0]));
      AbsentUnchanged(Apply(f, es[0]), es[1..], slot);
    }
  }

  /** The last extension of a kind decides its field. */
  lemma {:induction false} LastWins(f: Fields, es: seq<Extension>, i: nat)
    requires i < |es| && forall j :: i < j < |es| ==> Slot(es[j]) != Slot(es[i])
    ensures Holds(ApplyAll(f, es), es[i])
    decreases |es|
  {
    hide Mask16, Texts, GroupsOf, ParamsOf, MaskValue;
    if i > 0 {
      LastWins(Apply(f, es[0]), es[1..], i - 1);
    } else {
      AbsentUnchanged(Apply(f, es[0]), es[1..], Slot(es[0]));
    }
  }

  /** Every extension is listed once, in order, and the ciphers stay. */
  lemma {:induction false} ExtensionsListed(f: Fields, es: seq<Extension>)
    ensures ApplyAll(f, es).extensions == f.extensions + Mask16(seq(|es|, i requires 0 <= i < |es| => Code(es[i])))
    ensures ApplyAll(f, es).ciphers == f.ciphers
    decreases |es|
  {
    hide Texts, GroupsOf, ParamsOf, MaskValue;
    if es != [] {
      ExtensionsListed(Apply(f, es[0]), es[1..]);
      var codes := seq(|es|, i requires 0 <= i < |es| => Code(es[i]));
      assert Mask16(codes) == [MaskValue(Code(es[0]))] + Mask16(codes[1..]);
      assert codes[1..] == seq(|es| - 1, i requires 0 <= i < |es| - 1 => Code(es[1..][i]));
    }
  }
}
