/**
 The incremental HTTP/2 scanner of the TLS sink: it walks the frames of what the
 client has sent so far (section 4.1 of RFC 9113) and answers every complete
 HEADERS frame. `Handle` is one call on the bytes received so far; `Outcome` is
 what the bytes alone determine. A response whose headers or page do not fit their
 length fields raises an error, which ends the connection.
 */
module H2Scanner {
  import opened Bits
  import opened Bytes

  const PREFACE_LEN: nat := 24
  const SERVER_SETTINGS: seq<Byte> := [0, 0, 6, 4, 0, 0, 0, 0, 0, 0, 8, 0, 0, 0, 1]
  const SETTINGS_ACK: seq<Byte> := [0, 0, 0, 4, 1, 0, 0, 0, 0]
  const HEADERS: Byte := 1
  const END_HEADERS: Byte := 4
  const DATA: Byte := 0
  const END_STREAM: Byte := 1

  datatype Header = Header(name: seq<Byte>, value: seq<Byte>)

  /** What is served: the page and extra response headers. */
  datatype Site = Site(page: seq<Byte>, extra: seq<Header>)

  // ── Frames ─────────────────────────────────────────────────────────────────

  datatype Frame = Frame(kind: Byte, flags: Byte, stream: nat, payload: seq<Byte>)

  predicate ValidFrame(f: Frame) { f.stream < 0x1_0000_0000 && |f.payload| < 0x100_0000 }

  function EncodeFrame(f: Frame): seq<Byte> {
    ToBigEndian(|f.payload|, 3) + [f.kind, f.flags] + ToBigEndian(f.stream, 4) + f.payload
  }

  function PayloadLen(s: seq<Byte>): nat
    requires |s| >= 9
  {
    BigEndian(s[..3])
  }

  predicate HasFrame(s: seq<Byte>) { |s| >= 9 && |s| >= 9 + PayloadLen(s) }

  function FirstFrame(s: seq<Byte>): Frame
    requires HasFrame(s)
  {
    Frame(s[3], s[4], BigEndian(s[5..9]), s[9..9 + PayloadLen(s)])
  }

  /**
   The complete frames at the front, the bytes they take, and whether a HEADERS
   frame ended the scan, as it does when `stop` is set.
   */
  function Complete(s: seq<Byte>, stop: bool): (r: (seq<Frame>, nat, bool))
    ensures r.1 <= |s| && (r.2 || !HasFrame(s[r.1..]))
    decreases |s|
  {
    if !HasFrame(s) then ([], 0, false)
    else
      var n := 9 + PayloadLen(s);
      if stop && FirstFrame(s).kind == HEADERS then ([FirstFrame(s)], n, true)
      else
        var more := Complete(s[n..], stop);
        assert s[n..][more.1..] == s[n + more.1..];
        ([FirstFrame(s)] + more.0, n + more.1, more.2)
  }

  // ── Replies ────────────────────────────────────────────────────────────────

  /** Literal header field without indexing, new name; each length takes one byte. */
  function HpackLiteral(h: Header): seq<Byte>
    requires |h.name| < 256 && |h.value| < 256
  {
    [0, |h.name|] + h.name + [|h.value|] + h.value
  }

  predicate ShortHeaders(hs: seq<Header>) {
    forall i :: 0 <= i < |hs| ==> |hs[i].name| < 256 && |hs[i].value| < 256
  }

  function Literals(hs: seq<Header>): seq<Byte>
    requires ShortHeaders(hs)
  {
    if hs == [] then [] else HpackLiteral(hs[0]) + Literals(hs[1..])
  }

  const CONTENT_TYPE: Header := Header(
    [99, 111, 110, 116, 101, 110, 116, 45, 116, 121, 112, 101], [116, 101, 120, 116, 47, 104, 116, 109, 108])

  /** Status 200, the content type and the extra headers. */
  function Block(site: Site): seq<Byte>
    requires ShortHeaders(site.extra)
  {
    [0x88] + HpackLiteral(CONTENT_TYPE) + Literals(site.extra)
  }

  /** Headers, header block and page fit their length fields; otherwise building a response raises an error. */
  predicate Encodable(site: Site) {
    ShortHeaders(site.extra) && |Block(site)| < 0x100_0000 && |site.page| < 0x100_0000
  }

  function StreamId(raw: nat): nat { And(raw, 0x7FFF_FFFF) }

  function Response(site: Site, stream: nat): seq<Byte>
    requires Encodable(site)
  {
    EncodeFrame(Frame(HEADERS, END_HEADERS, stream, Block(site))) + EncodeFrame(Frame(DATA, END_STREAM, stream, site.page))
  }

  /** A HEADERS frame gets a response on its stream; other frames get none. */
  function Reply(site: Site, f: Frame): seq<Byte> {
    if f.kind == HEADERS && Encodable(site) then Response(site, StreamId(f.stream)) else []
  }

  function Replies(site: Site, fs: seq<Frame>): seq<Byte> {
    if fs == [] then [] else Reply(site, fs[0]) + Replies(site, fs[1..])
  }

  // ── One call ───────────────────────────────────────────────────────────────

  /** `failed`: a call raised an error, after which the connection is not read any more. */
  datatype Conn = Conn(received: seq<Byte>, answered: nat, sent: seq<Byte>, failed: bool)

  const Start: Conn := Conn([], 0, [], false)

  /** The frame loop from the position reached; the position is moved before the response is built. */
  function Scan(site: Site, c: Conn): Conn
    requires c.answered <= |c.received|
    decreases |c.received| - c.answered
  {
    var s := c.received[c.answered..];
    if !HasFrame(s) then c
    else
      var next := c.(answered := c.answered + 9 + PayloadLen(s), sent := c.sent + Reply(site, FirstFrame(s)));
      if FirstFrame(s).kind == HEADERS && !Encodable(site) then next.(failed := true) else Scan(site, next)
  }

  function Handle(site: Site, c: Conn): Conn
    requires c.answered <= |c.received|
  {
    if c.answered == 0 then
      if |c.received| < PREFACE_LEN then c
      else Scan(site, c.(answered := PREFACE_LEN, sent := c.sent + (SERVER_SETTINGS + SETTINGS_ACK)))
    else Scan(site, c)
  }

  function Deliver(site: Site, c: Conn, chunk: seq<Byte>): Conn
    requires c.answered <= |c.received|
  {
    if c.failed then c else Handle(site, c.(received := c.received + chunk))
  }

  // ── What the bytes determine ───────────────────────────────────────────────

  /** Nothing before the preface is in; then the settings, and one response per complete HEADERS frame. */
  function Outcome(site: Site, received: seq<Byte>): (nat, seq<Byte>, bool) {
    if |received| < PREFACE_LEN then (0, [], false)
    else
      var frames := Complete(received[PREFACE_LEN..], !Encodable(site));
      (PREFACE_LEN + frames.1, (SERVER_SETTINGS + SETTINGS_ACK) + Replies(site, frames.0), frames.2)
  }

  predicate Settled(site: Site, c: Conn) {
    c.answered <= |c.received| && (c.answered, c.sent, c.failed) == Outcome(site, c.received)
  }

  lemma HasFrameGrows(a: seq<Byte>, b: seq<Byte>)
    requires HasFrame(a)
    ensures HasFrame(a + b) && PayloadLen(a + b) == PayloadLen(a) && FirstFrame(a + b) == FirstFrame(a)
  {
    hide BigEndian;
    assert (a + b)[..3] == a[..3] && (a + b)[5..9] == a[5..9];
    assert (a + b)[9..9 + PayloadLen(a)] == a[9..9 + PayloadLen(a)];
  }

  lemma CompleteStep(s: seq<Byte>, stop: bool)
    ensures !HasFrame(s) ==> Complete(s, stop) == ([], 0, false)
    ensures HasFrame(s) ==>
              var n := 9 + PayloadLen(s);
              if stop && FirstFrame(s).kind == HEADERS then Complete(s, stop) == ([FirstFrame(s)], n, true)
              else var more := Complete(s[n..], stop); Complete(s, stop) == ([FirstFrame(s)] + more.0, n + more.1, more.2)
  {
  }

  lemma RepliesCons(site: Site, f: Frame, fs: seq<Frame>)
    ensures Replies(site, [f] + fs) == Reply(site, f) + Replies(site, fs)
    ensures Replies(site, [f]) == Reply(site, f)
  {
    assert ([f] + fs)[1..] == fs && [f][1..] == [];
  }

  lemma Regroup(a: seq<Byte>, b: seq<Byte>, c: seq<Byte>)
    ensures (a + b) + c == a + (b + c)
  {
  }

  /** The loop handles exactly the complete frames ahead. */
  lemma {:induction false} ScanIsComplete(site: Site, c: Conn)
    requires c.answered <= |c.received| && !c.failed
    ensures var frames := Complete(c.received[c.answered..], !Encodable(site));
            Scan(site, c) == Conn(c.received, c.answered + frames.1, c.sent + Replies(site, frames.0), frames.2)
    decreases |c.received| - c.answered
  {
    hide Complete, Reply, FirstFrame, PayloadLen, Encodable;
    var s, stop := c.received[c.answered..], !Encodable(site);
    CompleteStep(s, stop);
    if !HasFrame(s) {
      assert c.sent + [] == c.sent;
    } else {
      hide Replies, HasFrame;
      var f, n := FirstFrame(s), 9 + PayloadLen(s);
      var r := Reply(site, f);
      var more := Complete(s[n..], stop);
      RepliesCons(site, f, more.0);
      if !(stop && f.kind == HEADERS) {
        ScanIsComplete(site, c.(answered := c.answered + n, sent := c.sent + r));
        assert s[n..] == c.received[c.answered + n..];
        Regroup(c.sent, r, Replies(site, more.0));
      }
    }
  }

  /** More bytes leave the complete frames found so far as they are, and add none to an ended scan. */
  lemma {:induction false} CompleteAppend(a: seq<Byte>, b: seq<Byte>, stop: bool)
    ensures var x := Complete(a, stop);
            if x.2 then Complete(a + b, stop) == x
            else var y := Complete((a + b)[x.1..], stop); Complete(a + b, stop) == (x.0 + y.0, x.1 + y.1, y.2)
    decreases |a|
  {
    hide Complete, FirstFrame, PayloadLen;
    CompleteStep(a, stop);
    if !HasFrame(a) {
      assert (a + b)[0..] == a + b;
      assert [] + Complete(a + b, stop).0 == Complete(a + b, stop).0;
    } else {
      HasFrameGrows(a, b);
      CompleteStep(a + b, stop);
      var n := 9 + PayloadLen(a);
      if !(stop && FirstFrame(a).kind == HEADERS) {
        assert (a + b)[n..] == a[n..] + b;
        CompleteAppend(a[n..], b, stop);
        var x, first := Complete(a[n..], stop), [FirstFrame(a)];
        if !x.2 {
          assert (a[n..] + b)[x.1..] == (a + b)[n + x.1..];
          var y := Complete((a + b)[n + x.1..], stop);
          assert (first + x.0) + y.0 == first + (x.0 + y.0);
        }
      }
    }
  }

  lemma {:induction false} RepliesAppend(site: Site, a: seq<Frame>, b: seq<Frame>)
    ensures Replies(site, a + b) == Replies(site, a) + Replies(site, b)
  {
    hide Reply;
    if a == [] {
      assert a + b == b;
    } else {
      assert (a + b)[1..] == a[1..] + b;
      RepliesAppend(site, a[1..], b);
    }
  }

  /** What an ended connection has done is not changed by bytes that follow. */
  lemma FailedIsFinal(site: Site, received: seq<Byte>, more: seq<Byte>)
    requires Outcome(site, received).2
    ensures Outcome(site, received + more) == Outcome(site, received)
  {
    hide Complete, Replies, Encodable;
    var a := received[PREFACE_LEN..];
    assert (received + more)[PREFACE_LEN..] == a + more;
    CompleteAppend(a, more, !Encodable(site));
  }

  lemma DeliverMore(site: Site, c: Conn, chunk: seq<Byte>)
    requires Settled(site, c) && c.answered != 0 && !c.failed
    ensures Settled(site, Deliver(site, c, chunk)) && Deliver(site, c, chunk).received == c.received + chunk
  {
    hide Scan, Complete, Replies, Encodable;
    var all, greeting, stop := c.received + chunk, SERVER_SETTINGS + SETTINGS_ACK, !Encodable(site);
    var a := c.received[PREFACE_LEN..];
    assert all[PREFACE_LEN..] == a + chunk;
    CompleteAppend(a, chunk, stop);
    var x := Complete(a, stop);
    assert (a + chunk)[x.1..] == all[c.answered..];
    var y := Complete(all[c.answered..], stop);
    RepliesAppend(site, x.0, y.0);
    assert (greeting + Replies(site, x.0)) + Replies(site, y.0) == greeting + (Replies(site, x.0) + Replies(site, y.0));
    ScanIsComplete(site, c.(received := all));
  }

  /** Whatever arrives next, position, replies and failure are again what the bytes determine. */
  lemma DeliverSettles(site: Site, c: Conn, chunk: seq<Byte>)
    requires Settled(site, c)
    ensures var d := Deliver(site, c, chunk);
            && Settled(site, d) && Outcome(site, d.received) == Outcome(site, c.received + chunk)
            && d.received == if c.failed then c.received else c.received + chunk
  {
    hide Scan, Complete, Replies, Encodable;
    var all := c.received + chunk;
    if c.failed {
      FailedIsFinal(site, c.received, chunk);
    } else if |all| >= PREFACE_LEN {
      if c.answered == 0 {
        var greeting := SERVER_SETTINGS + SETTINGS_ACK;
        assert [] + greeting == greeting;
        ScanIsComplete(site, Conn(all, PREFACE_LEN, greeting, false));
      } else {
        DeliverMore(site, c, chunk);
      }
    }
  }

  function DeliverAll(site: Site, c: Conn, chunks: seq<seq<Byte>>): Conn
    requires Settled(site, c)
    decreases |chunks|
  {
    if chunks == [] then c
    else
      DeliverSettles(site, c, chunks[0]);
      DeliverAll(site, Deliver(site, c, chunks[0]), chunks[1..])
  }

  /** What the connection has read of the bytes sent to it: all, unless it failed before. */
  predicate ReadOf(c: Conn, all: seq<Byte>) {
    c.received <= all && (!c.failed ==> c.received == all)
  }

  lemma {:induction false} DeliverAllSettles(site: Site, c: Conn, chunks: seq<seq<Byte>>, all: seq<Byte>)
    requires Settled(site, c) && ReadOf(c, all) && Outcome(site, c.received) == Outcome(site, all)
    ensures var d := DeliverAll(site, c, chunks);
            && Settled(site, d) && ReadOf(d, all + Joined(chunks))
            && Outcome(site, d.received) == Outcome(site, all + Joined(chunks))
    decreases |chunks|
  {
    hide Outcome, Handle;
    if chunks == [] {
      assert all + [] == all;
    } else {
      var chunk, d := chunks[0], Deliver(site, c, chunks[0]);
      DeliverSettles(site, c, chunk);
      if c.failed {
        assert all == c.received + all[|c.received|..];
        FailedIsFinal(site, c.received, all[|c.received|..] + chunk);
        assert c.received + (all[|c.received|..] + chunk) == all + chunk;
      }
      DeliverAllSettles(site, d, chunks[1..], all + chunk);
      assert (all + chunk) + Joined(chunks[1..]) == all + (chunk + Joined(chunks[1..]));
    }
  }

  /**
   Any split of the client's bytes ends where delivering them at once ends, with
   the same replies and the same failure; only what is left unread after a failure
   may differ.
   */
  lemma ChunkingIsIrrelevant(site: Site, chunks: seq<seq<Byte>>)
    ensures Settled(site, Start)
    ensures var a, b := DeliverAll(site, Start, chunks), Deliver(site, Start, Joined(chunks));
            && a.answered == b.answered && a.sent == b.sent && a.failed == b.failed
            && a.received <= b.received && (!a.failed ==> a == b)
  {
    hide Complete, Replies, Scan, Encodable;
    DeliverAllSettles(site, Start, chunks, []);
    DeliverSettles(site, Start, Joined(chunks));
    assert [] + Joined(chunks) == Joined(chunks);
  }

  /** Without an error in building responses nothing fails. */
  lemma {:induction false} EncodableNeverFails(s: seq<Byte>)
    ensures !Complete(s, false).2
    decreases |s|
  {
    hide FirstFrame, PayloadLen;
    if HasFrame(s) { EncodableNeverFails(s[9 + PayloadLen(s)..]); }
  }

  // ── Frames as the standard lays them out ───────────────────────────────────

  function EncodeFrames(fs: seq<Frame>): seq<Byte> {
    if fs == [] then [] else EncodeFrame(fs[0]) + EncodeFrames(fs[1..])
  }

  lemma Fits(v: nat)
    ensures v < 0x100_0000 ==> FitsBytes(v, 3)
    ensures v < 0x1_0000_0000 ==> FitsBytes(v, 4)
  {
    var a := v / 256;
    var b := a / 256;
    assert v < 0x100_0000 ==> FitsBytes(a, 2) by { assert v < 0x100_0000 ==> b < 256 && FitsBytes(b, 1); }
    assert v < 0x1_0000_0000 ==> FitsBytes(a, 3) by {
      assert v < 0x1_0000_0000 ==> b / 256 < 256 && FitsBytes(b / 256, 1);
      assert v < 0x1_0000_0000 ==> FitsBytes(b, 2);
    }
  }

  lemma FrameInverts(f: Frame, rest: seq<Byte>)
    requires ValidFrame(f)
    ensures var s := EncodeFrame(f) + rest;
            && HasFrame(s) && FirstFrame(s) == f && 9 + PayloadLen(s) == |EncodeFrame(f)|
            && s[9 + PayloadLen(s)..] == rest
  {
    hide ToBigEndian, BigEndian, FitsBytes;
    var s, n := EncodeFrame(f) + rest, |f.payload|;
    Fits(n);
    Fits(f.stream);
    BigEndianInverts(n, 3);
    BigEndianInverts(f.stream, 4);
    assert s[..3] == ToBigEndian(n, 3);
    assert s[5..9] == ToBigEndian(f.stream, 4);
    assert s[9..9 + n] == f.payload;
    assert s[9 + n..] == rest;
  }

  /** The frames up to and with the first HEADERS frame, or all of them. */
  function UpTo(fs: seq<Frame>, stop: bool): seq<Frame> {
    if fs == [] then []
    else if stop && fs[0].kind == HEADERS then [fs[0]]
    else [fs[0]] + UpTo(fs[1..], stop)
  }

  predicate HasHeaders(fs: seq<Frame>) {
    fs != [] && (fs[0].kind == HEADERS || HasHeaders(fs[1..]))
  }

  lemma {:induction false} UpToAll(fs: seq<Frame>)
    ensures UpTo(fs, false) == fs
  {
    if fs != [] {
      UpToAll(fs[1..]);
      assert [fs[0]] + fs[1..] == fs;
    }
  }

  lemma EncodeCons(f: Frame, fs: seq<Frame>)
    ensures EncodeFrames([f] + fs) == EncodeFrame(f) + EncodeFrames(fs) && EncodeFrames([f]) == EncodeFrame(f)
  {
    assert ([f] + fs)[1..] == fs && [f][1..] == [];
  }

  /** The scanner finds exactly the frames that were sent, up to an unfinished one or the one that ends it. */
  lemma {:induction false} CompleteInverts(fs: seq<Frame>, tail: seq<Byte>, stop: bool)
    requires (forall i :: 0 <= i < |fs| ==> ValidFrame(fs[i])) && !HasFrame(tail)
    ensures Complete(EncodeFrames(fs) + tail, stop) == (UpTo(fs, stop), |EncodeFrames(UpTo(fs, stop))|, stop && HasHeaders(fs))
    decreases |fs|
  {
    hide Complete, EncodeFrame, FirstFrame, PayloadLen, HasFrame;
    if fs == [] {
      assert EncodeFrames(fs) + tail == tail;
      CompleteStep(tail, stop);
    } else {
      var rest := EncodeFrames(fs[1..]) + tail;
      var s := EncodeFrame(fs[0]) + rest;
      assert EncodeFrames(fs) + tail == s;
      FrameInverts(fs[0], rest);
      CompleteStep(s, stop);
      CompleteInverts(fs[1..], tail, stop);
      EncodeCons(fs[0], UpTo(fs[1..], stop));
    }
  }

  /** The reserved bit of the stream number is dropped. */
  lemma StreamIdDropsReservedBit(raw: nat)
    ensures StreamId(raw) == raw % 0x8000_0000
  {
    hide And, Pow2, Shr, LowBits;
    ShrDivides(raw, 31);
    AndOnes(raw, 31);
    Pow31();
  }

  lemma Pow31()
    ensures Pow2(31) == 0x8000_0000
  {
    hide Pow2;
    PowersOfTwo();
    TwoMore(3);
    TwoMore(5);
    TwoMore(7);
    TwoMore(9);
    TwoMore(11);
    TwoMore(13);
    TwoMore(15);
    TwoMore(17);
    TwoMore(19);
    TwoMore(21);
    TwoMore(23);
    TwoMore(25);
    TwoMore(27);
    TwoMore(29);
  }

  /** A response reads back as HEADERS and DATA on the request's stream, the page in the second. */
  lemma ReplyReadsBack(site: Site, f: Frame)
    requires f.kind == HEADERS && Encodable(site)
    ensures Complete(Reply(site, f), false)
         == ([Frame(HEADERS, END_HEADERS, f.stream % 0x8000_0000, Block(site)),
              Frame(DATA, END_STREAM, f.stream % 0x8000_0000, site.page)], |Reply(site, f)|, false)
  {
    hide Complete, EncodeFrame, Block, StreamId, EncodeFrames;
    StreamIdDropsReservedBit(f.stream);
    var a := Frame(HEADERS, END_HEADERS, StreamId(f.stream), Block(site));
    var b := Frame(DATA, END_STREAM, StreamId(f.stream), site.page);
    var fs := [a] + [b];
    EncodeCons(a, [b]);
    EncodeCons(b, []);
    CompleteInverts(fs, [], false);
    UpToAll(fs);
    assert EncodeFrames(fs) + [] == EncodeFrames(fs);
    assert fs == [a, b];
  }

  // ── The object ─────────────────────────────────────────────────────────────

  class Connection {
    const site: Site
    var received: seq<Byte>
    var answered: nat
    var sent: seq<Byte>
    var failed: bool

    ghost function View(): Conn
      reads this
    {
      Conn(received, answered, sent, failed)
    }

    ghost predicate Valid()
      reads this
    {
      Settled(site, View())
    }

    constructor (site: Site)
      ensures this.site == site && View() == Start && Valid()
    {
      this.site, received, answered, sent, failed := site, [], 0, [], false;
    }

    method HandleH2()
      requires answered <= |received| && !failed
      modifies `answered, `sent, `failed
      ensures View() == Handle(site, old(View()))
    {
      hide Scan, Complete, Response, StreamId, Encodable, HasFrame;
      if answered == 0 {
        if |received| < PREFACE_LEN { return; }
        sent := sent + (SERVER_SETTINGS + SETTINGS_ACK);
        answered := PREFACE_LEN;
      }
      ghost var begin := View();
      while |received| >= answered + 9
        invariant answered <= |received| && !failed
        invariant Scan(site, View()) == Scan(site, begin)
        decreases |received| - answered
      {
        var off := answered;
        ScanStep(site, View());
        var length := BigEndian(received[off..off + 3]);
        if |received| < off + 9 + length { return; }
        var frameType := received[off + 3];
        var stream := StreamId(BigEndian(received[off + 5..off + 9]));
        answered := off + 9 + length;
        if frameType == HEADERS {
          if !Encodable(site) {
            failed := true;
            return;
          }
          sent := sent + Response(site, stream);
        }
      }
      ScanStep(site, View());
    }

    /** A chunk arrives; after a failure none is read. */
    method Receive(chunk: seq<Byte>)
      requires Valid()
      modifies this
      ensures Valid()
      ensures received == if old(failed) then old(received) else old(received) + chunk
      ensures Outcome(site, received) == Outcome(site, old(received) + chunk)
    {
      DeliverSettles(site, View(), chunk);
      if failed { return; }
      received := received + chunk;
      HandleH2();
    }
  }

  /** The frame loop in terms of positions in the buffer. */
  lemma ScanStep(site: Site, c: Conn)
    requires c.answered <= |c.received|
    ensures var buf, off := c.received, c.answered;
            if |buf| < off + 9 || |buf| < off + 9 + BigEndian(buf[off..off + 3]) then Scan(site, c) == c
            else
              var stream := StreamId(BigEndian(buf[off + 5..off + 9]));
              var next := c.(answered := off + 9 + BigEndian(buf[off..off + 3]));
              if buf[off + 3] != HEADERS then Scan(site, c) == Scan(site, next)
              else if !Encodable(site) then Scan(site, c) == next.(failed := true)
              else Scan(site, c) == Scan(site, next.(sent := c.sent + Response(site, stream)))
  {
    hide BigEndian, StreamId, Response, Complete, Encodable;
    var buf, off := c.received, c.answered;
    var s := buf[off..];
    if |buf| >= off + 9 {
      assert s[..3] == buf[off..off + 3] && s[5..9] == buf[off + 5..off + 9];
      assert c.sent + [] == c.sent;
    }
  }
}
