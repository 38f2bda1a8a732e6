/**
 What a client makes of the HTTP/2 scanner's output: the settings and, for every
 request in order, a header block that reads back as the response headers (RFC 7541)
 and the page, however the client's bytes were split.
 */
module H2Replies {
  import opened Bits
  import opened Bytes
  import opened Wrappers
  import opened H2Scanner

  // ── Header blocks, as RFC 7541 writes and reads them ───────────────────────

  /** The rest of an integer in groups of seven bits, lowest first (section 5.1). */
  function Continued(m: nat): seq<Byte> {
    if m < 128 then [m] else [128 + m % 128] + Continued(m / 128)
  }

  /** An integer behind one flag bit, which is clear. */
  function Prefixed(n: nat): seq<Byte> {
    if n < 127 then [n] else [127] + Continued(n - 127)
  }

  /** A string without Huffman coding (section 5.2). */
  function RfcString(b: seq<Byte>): seq<Byte> { Prefixed(|b|) + b }

  /** A literal field without indexing, with a new name (section 6.2.2). */
  function RfcLiteral(h: Header): seq<Byte> { [0] + RfcString(h.name) + RfcString(h.value) }

  function RfcLiterals(hs: seq<Header>): seq<Byte> {
    if hs == [] then [] else RfcLiteral(hs[0]) + RfcLiterals(hs[1..])
  }

  /** A value read and the bytes after it. */
  datatype Got<+T> = Got(value: T, rest: seq<Byte>)

  function ReadContinued(s: seq<Byte>): (r: Option<Got<nat>>)
    ensures r.Some? ==> |r.value.rest| < |s|
  {
    if s == [] then None
    else if s[0] < 128 then Some(Got(s[0], s[1..]))
    else
      match ReadContinued(s[1..])
      case None => None
      case Some(more) => Some(Got(s[0] - 128 + 128 * more.value, more.rest))
  }

  /** A length; Huffman-coded strings are not read. */
  function ReadLength(s: seq<Byte>): (r: Option<Got<nat>>)
    ensures r.Some? ==> |r.value.rest| < |s|
  {
    if s == [] || s[0] >= 128 then None
    else if s[0] < 127 then Some(Got(s[0], s[1..]))
    else
      match ReadContinued(s[1..])
      case None => None
      case Some(more) => Some(Got(127 + more.value, more.rest))
  }

  function ReadString(s: seq<Byte>): (r: Option<Got<seq<Byte>>>)
    ensures r.Some? ==> |r.value.rest| < |s|
  {
    match ReadLength(s)
    case None => None
    case Some(n) => if n.value > |n.rest| then None else Some(Got(n.rest[..n.value], n.rest[n.value..]))
  }

  function ReadLiteral(s: seq<Byte>): (r: Option<Got<Header>>)
    ensures r.Some? ==> |r.value.rest| < |s|
  {
    if s == [] || s[0] != 0 then None
    else
      match ReadString(s[1..])
      case None => None
      case Some(name) =>
        match ReadString(name.rest)
        case None => None
        case Some(value) => Some(Got(Header(name.value, value.value), value.rest))
  }

  function AsciiBytes(s: string): (b: seq<Byte>)
    requires forall i :: 0 <= i < |s| ==> s[i] < 128 as char
    ensures |b| == |s| && forall i :: 0 <= i < |s| ==> b[i] == s[i] as int
  {
    seq(|s|, i requires 0 <= i < |s| => s[i] as int)
  }

  /** Entry 8 of the static table (appendix A). */
  const STATUS_200: Header := Header(AsciiBytes(":status"), AsciiBytes("200"))

  /** The fields of a block that uses that entry and literals. */
  function ReadFields(s: seq<Byte>): Option<seq<Header>>
    decreases |s|
  {
    if s == [] then Some([])
    else if s[0] == 128 + 8 then Prepended(STATUS_200, ReadFields(s[1..]))
    else
      match ReadLiteral(s)
      case None => None
      case Some(h) => Prepended(h.value, ReadFields(h.rest))
  }

  function Prepended(h: Header, more: Option<seq<Header>>): Option<seq<Header>> {
    match more
    case None => None
    case Some(hs) => Some([h] + hs)
  }

  lemma {:induction false} ContinuedReads(m: nat, rest: seq<Byte>)
    ensures ReadContinued(Continued(m) + rest) == Some(Got(m, rest))
  {
    var s := Continued(m) + rest;
    if m < 128 {
      assert s[1..] == rest;
    } else {
      assert s[1..] == Continued(m / 128) + rest;
      ContinuedReads(m / 128, rest);
    }
  }

  lemma LengthReads(n: nat, rest: seq<Byte>)
    ensures ReadLength(Prefixed(n) + rest) == Some(Got(n, rest))
  {
    hide ReadContinued, Continued;
    var s := Prefixed(n) + rest;
    if n < 127 {
      assert s[1..] == rest;
    } else {
      assert s[1..] == Continued(n - 127) + rest;
      ContinuedReads(n - 127, rest);
    }
  }

  lemma StringReads(b: seq<Byte>, rest: seq<Byte>)
    ensures ReadString(RfcString(b) + rest) == Some(Got(b, rest))
  {
    hide ReadLength, Prefixed;
    LengthReads(|b|, b + rest);
    assert RfcString(b) + rest == Prefixed(|b|) + (b + rest);
    assert (b + rest)[..|b|] == b && (b + rest)[|b|..] == rest;
  }

  /** Every literal field the standard writes is read back. */
  lemma LiteralReads(h: Header, rest: seq<Byte>)
    ensures RfcLiteral(h) + rest != [] && (RfcLiteral(h) + rest)[0] == 0
    ensures ReadLiteral(RfcLiteral(h) + rest) == Some(Got(h, rest))
  {
    hide ReadString, RfcString;
    var s, value := RfcLiteral(h) + rest, RfcString(h.value) + rest;
    assert s == [0] + (RfcString(h.name) + value);
    assert s[1..] == RfcString(h.name) + value;
    StringReads(h.name, value);
    StringReads(h.value, rest);
  }

  lemma {:induction false} LiteralsRead(hs: seq<Header>)
    ensures ReadFields(RfcLiterals(hs)) == Some(hs)
  {
    hide ReadLiteral, RfcLiteral;
    if hs != [] {
      LiteralReads(hs[0], RfcLiterals(hs[1..]));
      LiteralsRead(hs[1..]);
      assert [hs[0]] + hs[1..] == hs;
    }
  }

  // ── The scanner's blocks ───────────────────────────────────────────────────

  /** Names and values short enough for a length of seven bits. */
  predicate Tiny(hs: seq<Header>) {
    forall i :: 0 <= i < |hs| ==> |hs[i].name| < 127 && |hs[i].value| < 127
  }

  lemma ContinuedSome(m: nat)
    ensures |Continued(m)| >= 1
  {
  }

  lemma LiteralSizes(h: Header)
    requires |h.name| < 256 && |h.value| < 256
    ensures |HpackLiteral(h)| <= |RfcLiteral(h)|
    ensures |HpackLiteral(h)| == |RfcLiteral(h)| <==> |h.name| < 127 && |h.value| < 127
    ensures |h.name| < 127 && |h.value| < 127 ==> HpackLiteral(h) == RfcLiteral(h)
  {
    hide Continued;
    if |h.name| >= 127 { ContinuedSome(|h.name| - 127); }
    if |h.value| >= 127 { ContinuedSome(|h.value| - 127); }
  }

  lemma {:induction false} LiteralsSizes(hs: seq<Header>)
    requires ShortHeaders(hs)
    ensures |Literals(hs)| <= |RfcLiterals(hs)|
    ensures |Literals(hs)| == |RfcLiterals(hs)| <==> Tiny(hs)
    ensures Tiny(hs) ==> Literals(hs) == RfcLiterals(hs)
  {
    hide HpackLiteral, RfcLiteral;
    if hs != [] {
      LiteralSizes(hs[0]);
      LiteralsSizes(hs[1..]);
      if Tiny(hs[1..]) && |hs[0].name| < 127 && |hs[0].value| < 127 {
        forall i | 0 <= i < |hs| ensures |hs[i].name| < 127 && |hs[i].value| < 127 { assert i > 0 ==> hs[i] == hs[1..][i - 1]; }
      }
    }
  }

  /** The response headers: the status, the content type and the extra ones. */
  function ResponseHeaders(site: Site): seq<Header> {
    [STATUS_200, Header(AsciiBytes("content-type"), AsciiBytes("text/html"))] + site.extra
  }

  /**
   One byte for each length is what RFC 7541 asks for exactly when no extra name or
   value has 127 bytes or more; then the block reads back as the response headers.
   */
  lemma BlockReadsBackIff(site: Site)
    requires ShortHeaders(site.extra)
    ensures Block(site) == [128 + 8] + RfcLiterals(ResponseHeaders(site)[1..]) <==> Tiny(site.extra)
    ensures Tiny(site.extra) ==> ReadFields(Block(site)) == Some(ResponseHeaders(site))
  {
    hide HpackLiteral, RfcLiteral, ReadLiteral, AsciiBytes;
    ContentTypeIs();
    LiteralSizes(CONTENT_TYPE);
    LiteralsSizes(site.extra);
    var hs := [CONTENT_TYPE] + site.extra;
    assert ResponseHeaders(site)[1..] == hs;
    assert hs[1..] == site.extra;
    var lit, rest := RfcLiteral(CONTENT_TYPE), RfcLiterals(site.extra);
    assert RfcLiterals(hs) == lit + rest;
    assert [0x88] + HpackLiteral(CONTENT_TYPE) + Literals(site.extra) == [0x88] + (HpackLiteral(CONTENT_TYPE) + Literals(site.extra));
    if Tiny(site.extra) {
      LiteralsRead(hs);
      assert Block(site)[1..] == RfcLiterals(hs);
      assert ResponseHeaders(site) == [STATUS_200] + hs;
    }
  }

  lemma ContentTypeIs()
    ensures CONTENT_TYPE == Header(AsciiBytes("content-type"), AsciiBytes("text/html"))
    ensures |CONTENT_TYPE.name| == 12 && |CONTENT_TYPE.value| == 9
  {
    var n, v := AsciiBytes("content-type"), AsciiBytes("text/html");
    assert n == [99, 111, 110, 116, 101, 110, 116, 45, 116, 121, 112, 101];
    assert v == [116, 101, 120, 116, 47, 104, 116, 109, 108];
  }

  // ── A whole session ────────────────────────────────────────────────────────

  /** SETTINGS with ENABLE_CONNECT_PROTOCOL (8) set to 1, and the acknowledgement of the client's. */
  const GREETING: seq<Frame> := [Frame(4, 0, 0, [0, 8, 0, 0, 0, 1]), Frame(4, 1, 0, [])]

  /** A request gets a HEADERS frame that ends the headers and a DATA frame that ends the stream, on its stream. */
  function AnswerTo(site: Site, f: Frame): seq<Frame>
    requires Encodable(site)
  {
    if f.kind == 1 then
      [Frame(1, 4, f.stream % 0x8000_0000, Block(site)), Frame(0, 1, f.stream % 0x8000_0000, site.page)]
    else []
  }

  function Answers(site: Site, fs: seq<Frame>): seq<Frame>
    requires Encodable(site)
  {
    if fs == [] then [] else AnswerTo(site, fs[0]) + Answers(site, fs[1..])
  }

  lemma {:induction false} EncodeAppend(a: seq<Frame>, b: seq<Frame>)
    ensures EncodeFrames(a + b) == EncodeFrames(a) + EncodeFrames(b)
  {
    hide EncodeFrame;
    if a == [] {
      assert a + b == b;
    } else {
      assert (a + b)[1..] == a[1..] + b;
      EncodeAppend(a[1..], b);
    }
  }

  lemma GreetingIs()
    ensures SERVER_SETTINGS + SETTINGS_ACK == EncodeFrames(GREETING)
  {
    hide EncodeFrame, EncodeFrames;
    var a, b := GREETING[0], GREETING[1];
    EncodeCons(a, [b]);
    EncodeCons(b, []);
    assert GREETING == [a] + [b];
    assert EncodeFrame(a) == SERVER_SETTINGS by { Settings(a, 6); }
    assert EncodeFrame(b) == SETTINGS_ACK by { Settings(b, 0); }
  }

  lemma Settings(f: Frame, n: nat)
    requires |f.payload| == n < 256 && f.stream == 0
    ensures EncodeFrame(f) == [0, 0, n, f.kind, f.flags, 0, 0, 0, 0] + f.payload
  {
    Small(n);
    Small(0);
  }

  lemma Small(n: nat)
    requires n < 256
    ensures ToBigEndian(n, 3) == [0, 0, n] && ToBigEndian(n, 4) == [0, 0, 0, n]
  {
    assert ToBigEndian(0, 1) == [0];
    assert ToBigEndian(0, 2) == [0, 0];
    assert ToBigEndian(0, 3) == [0, 0, 0];
  }

  lemma ReplyIs(site: Site, f: Frame)
    requires Encodable(site)
    ensures Reply(site, f) == EncodeFrames(AnswerTo(site, f))
  {
    hide EncodeFrame, EncodeFrames, Block, StreamId, Encodable;
    StreamIdDropsReservedBit(f.stream);
    if f.kind == 1 {
      var fs := AnswerTo(site, f);
      assert fs == [fs[0]] + [fs[1]];
      EncodeCons(fs[0], [fs[1]]);
      EncodeCons(fs[1], []);
    } else {
      NoFrames();
    }
  }

  lemma NoFrames()
    ensures EncodeFrames([]) == []
  {
  }

  lemma {:induction false} RepliesAre(site: Site, fs: seq<Frame>)
    requires Encodable(site)
    ensures Replies(site, fs) == EncodeFrames(Answers(site, fs))
  {
    hide EncodeFrames, Reply, AnswerTo, Encodable;
    if fs == [] {
      NoFrames();
    } else {
      ReplyIs(site, fs[0]);
      RepliesAre(site, fs[1..]);
      EncodeAppend(AnswerTo(site, fs[0]), Answers(site, fs[1..]));
    }
  }

  predicate AllFrames(fs: seq<Frame>) { forall i :: 0 <= i < |fs| ==> ValidFrame(fs[i]) }

  lemma {:induction false} AnswersValid(site: Site, fs: seq<Frame>)
    requires Encodable(site)
    ensures AllFrames(Answers(site, fs))
  {
    hide Block;
    if fs != [] { AnswersValid(site, fs[1..]); }
  }

  lemma FramesReadBack(fs: seq<Frame>)
    requires AllFrames(fs)
    ensures Complete(EncodeFrames(fs), false) == (fs, |EncodeFrames(fs)|, false)
  {
    hide Complete, EncodeFrames;
    CompleteInverts(fs, [], false);
    UpToAll(fs);
    assert EncodeFrames(fs) + [] == EncodeFrames(fs);
  }

  /** The scanner's state once the preface, whole frames and an unfinished one are in, in any chunks. */
  lemma SessionState(site: Site, preface: seq<Byte>, fs: seq<Frame>, tail: seq<Byte>, chunks: seq<seq<Byte>>)
    requires |preface| == 24 && AllFrames(fs) && !HasFrame(tail) && Joined(chunks) == preface + (EncodeFrames(fs) + tail)
    ensures Settled(site, Start)
    ensures var c, handled := DeliverAll(site, Start, chunks), UpTo(fs, !Encodable(site));
            && c.answered == 24 + |EncodeFrames(handled)|
            && c.sent == (SERVER_SETTINGS + SETTINGS_ACK) + Replies(site, handled)
            && c.failed == (!Encodable(site) && HasHeaders(fs))
  {
    hide Complete, EncodeFrames, Encodable, Scan, HasHeaders, HasFrame, Replies, UpTo;
    ChunkingIsIrrelevant(site, chunks);
    DeliverSettles(site, Start, Joined(chunks));
    var all := Joined(chunks);
    assert [] + all == all;
    assert all[24..] == EncodeFrames(fs) + tail;
    CompleteInverts(fs, tail, !Encodable(site));
  }

  /**
   However the client's bytes are split: after any 24 bytes, whole frames and an
   unfinished one, the output reads as the settings and, for every HEADERS frame in
   order, the response headers and the page on its stream, and nothing else.
   */
  lemma SessionReadsBack(site: Site, preface: seq<Byte>, fs: seq<Frame>, tail: seq<Byte>, chunks: seq<seq<Byte>>)
    requires Encodable(site)
    requires |preface| == 24 && AllFrames(fs) && !HasFrame(tail) && Joined(chunks) == preface + (EncodeFrames(fs) + tail)
    ensures Settled(site, Start)
    ensures var c := DeliverAll(site, Start, chunks);
            && !c.failed && c.answered == 24 + |EncodeFrames(fs)|
            && Complete(c.sent, false) == (GREETING + Answers(site, fs), |c.sent|, false)
  {
    hide Complete, EncodeFrames, Encodable, Settled, HasHeaders, HasFrame, Replies, UpTo, Answers;
    SessionState(site, preface, fs, tail, chunks);
    UpToAll(fs);
    GreetingIs();
    RepliesAre(site, fs);
    EncodeAppend(GREETING, Answers(site, fs));
    AnswersValid(site, fs);
    FramesReadBack(GREETING + Answers(site, fs));
  }

  /** Until 24 bytes are in, nothing is sent and nothing handled. */
  lemma SilentBeforePreface(site: Site, chunks: seq<seq<Byte>>)
    requires |Joined(chunks)| < 24
    ensures Settled(site, Start)
    ensures DeliverAll(site, Start, chunks) == Conn(Joined(chunks), 0, [], false)
  {
    hide Complete, Replies, Encodable;
    ChunkingIsIrrelevant(site, chunks);
    assert [] + Joined(chunks) == Joined(chunks);
  }

  lemma GreetingReadsBack()
    ensures var greeting := SERVER_SETTINGS + SETTINGS_ACK;
            greeting + [] == greeting && Complete(greeting, false) == (GREETING, |greeting|, false)
  {
    hide Complete, EncodeFrames;
    GreetingIs();
    FramesReadBack(GREETING);
  }

  lemma {:induction false} NothingReplied(site: Site, fs: seq<Frame>)
    requires !Encodable(site)
    ensures Replies(site, fs) == []
  {
    hide Encodable;
    if fs != [] { NothingReplied(site, fs[1..]); }
  }

  lemma {:induction false} HasHeadersIff(fs: seq<Frame>)
    ensures HasHeaders(fs) <==> exists i :: 0 <= i < |fs| && fs[i].kind == 1
  {
    if fs != [] {
      HasHeadersIff(fs[1..]);
      if i :| 0 <= i < |fs| && fs[i].kind == 1 { assert i == 0 || fs[1..][i - 1].kind == 1; }
      if i :| 0 <= i < |fs[1..]| && fs[1..][i].kind == 1 { assert fs[i + 1].kind == 1; }
    }
  }

  /** With a response that does not fit its length fields the connection ends exactly at the first request, and sends only the settings. */
  lemma FailsAtFirstRequest(site: Site, preface: seq<Byte>, fs: seq<Frame>, tail: seq<Byte>, chunks: seq<seq<Byte>>)
    requires !Encodable(site)
    requires |preface| == 24 && AllFrames(fs) && !HasFrame(tail) && Joined(chunks) == preface + (EncodeFrames(fs) + tail)
    ensures Settled(site, Start)
    ensures var c := DeliverAll(site, Start, chunks);
            && (c.failed <==> exists i :: 0 <= i < |fs| && fs[i].kind == 1)
            && Complete(c.sent, false) == (GREETING, |c.sent|, false)
  {
    hide Complete, EncodeFrames, Encodable, Settled, HasHeaders, HasFrame, UpTo, Replies;
    SessionState(site, preface, fs, tail, chunks);
    HasHeadersIff(fs);
    NothingReplied(site, UpTo(fs, true));
    GreetingReadsBack();
  }
}
