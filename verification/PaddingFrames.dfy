/**
 Padding frames `real_len | pad_len | real | pad` with big-endian 16-bit
 lengths, the streaming decoder that drops the pad, and the control signals a
 pad-only frame may carry.

 The decoder is specified one byte at a time (`Fold`); the bulk copies of the
 implementation are shown to compute the same.
 */
module PaddingFrames {
  import opened Bits
  import opened Bytes
  import opened Wrappers

  const PADDING_FRAME_HEADER_LEN: nat := 4
  const MAX_PADDING_SEGMENT: nat := 65535
  const CONTROL_MAGIC: seq<Byte> := [79, 67, 84, 76]
  const CONTROL_VERSION: Byte := 1
  const OP_THROTTLE_SWITCH: Byte := 1
  const CONTROL_PREFIX_LEN: nat := 6

  datatype ControlSignal = ThrottleSwitchUplink

  datatype PaddingError = RealTooLarge(len: nat) | PadTooLarge(len: nat)

  // ── How much to pad ────────────────────────────────────────────────────────

  datatype Scheme = Scheme(minPad: nat, maxPad: nat) {
    predicate Valid() { minPad <= maxPad <= MAX_PADDING_SEGMENT }

    predicate Enabled() { maxPad > 0 }

    /** One random 16-bit value mapped onto the range. */
    function PadLen(rand: nat): (n: nat)
      requires Valid()
      ensures minPad <= n <= maxPad
    {
      minPad + rand % (maxPad - minPad + 1)
    }

    /** The range clipped to `cap`, then drawn from. */
    function PadLenCapped(rand: nat, cap: nat): (n: nat)
      requires Valid()
      ensures n <= cap && n <= maxPad
      ensures maxPad <= cap ==> n == PadLen(rand)
      ensures cap <= minPad ==> n == cap
    {
      var cap16 := if cap > MAX_PADDING_SEGMENT then MAX_PADDING_SEGMENT else cap;
      New(if minPad < cap16 then minPad else cap16, if maxPad < cap16 then maxPad else cap16).PadLen(rand)
    }
  }

  function New(minPad: nat, maxPad: nat): (s: Scheme)
    requires minPad <= MAX_PADDING_SEGMENT && maxPad <= MAX_PADDING_SEGMENT
    ensures s.Valid() && s.minPad == minPad && (minPad <= maxPad ==> s.maxPad == maxPad)
  {
    Scheme(minPad, if maxPad < minPad then minPad else maxPad)
  }

  /** Every length of the range is drawn for some 16-bit value, and no other length ever is. */
  lemma PadLenCoversRange(s: Scheme, n: nat)
    requires s.Valid()
    ensures s.minPad <= n <= s.maxPad <==> exists rand: nat :: rand <= 65535 && s.PadLen(rand) == n
  {
    if s.minPad <= n <= s.maxPad {
      var rand := n - s.minPad;
      DivisionIsUnique(rand, s.maxPad - s.minPad + 1, 0, rand);
      assert s.PadLen(rand) == n;
    }
  }

  /** With a cap the drawn lengths are exactly the part of the range that fits, or the cap itself below the range. */
  lemma CappedCoversRange(s: Scheme, cap: nat, n: nat)
    requires s.Valid()
    ensures (exists rand: nat :: rand <= 65535 && s.PadLenCapped(rand, cap) == n)
            <==> if cap <= s.minPad then n == cap else s.minPad <= n <= s.maxPad && n <= cap
  {
    var c := if cap > MAX_PADDING_SEGMENT then MAX_PADDING_SEGMENT else cap;
    var clipped := New(if s.minPad < c then s.minPad else c, if s.maxPad < c then s.maxPad else c);
    assert forall rand: nat :: s.PadLenCapped(rand, cap) == clipped.PadLen(rand);
    PadLenCoversRange(clipped, n);
    if rand: nat :| rand <= 65535 && clipped.PadLen(rand) == n { assert s.PadLenCapped(rand, cap) == n; }
    if rand: nat :| rand <= 65535 && s.PadLenCapped(rand, cap) == n { assert clipped.PadLen(rand) == n; }
  }

  // ── Encoding ───────────────────────────────────────────────────────────────

  lemma U16RoundTrip(n: nat)
    requires n <= MAX_PADDING_SEGMENT
    ensures BigEndian(ToBigEndian(n, 2)) == n
  {
    assert FitsBytes(n / 256, 1);
    BigEndianInverts(n, 2);
  }

  function Frame(body: seq<Byte>, pad: seq<Byte>): seq<Byte>
    requires |body| <= MAX_PADDING_SEGMENT && |pad| <= MAX_PADDING_SEGMENT
  {
    (ToBigEndian(|body|, 2) + ToBigEndian(|pad|, 2)) + (body + pad)
  }

  /** The wire layout: both lengths as two bytes, high byte first, then the payload, then the pad. */
  lemma FrameLayout(body: seq<Byte>, pad: seq<Byte>)
    requires |body| <= MAX_PADDING_SEGMENT && |pad| <= MAX_PADDING_SEGMENT
    ensures var f := Frame(body, pad);
            && |f| == 4 + |body| + |pad|
            && f[0] as int * 256 + f[1] as int == |body| && f[2] as int * 256 + f[3] as int == |pad|
            && f[4..4 + |body|] == body && f[4 + |body|..] == pad
  {
    TwoBytes(|body|);
    TwoBytes(|pad|);
  }

  lemma TwoBytes(n: nat)
    requires n <= MAX_PADDING_SEGMENT
    ensures ToBigEndian(n, 2) == [n / 256, n % 256]
  {
    assert ToBigEndian(n / 256, 1) == [n / 256];
  }

  method EncodeFrameInto(out: seq<Byte>, body: seq<Byte>, pad: seq<Byte>) returns (r: Result<seq<Byte>, PaddingError>)
    ensures r == if |body| > MAX_PADDING_SEGMENT then Err(RealTooLarge(|body|))
                 else if |pad| > MAX_PADDING_SEGMENT then Err(PadTooLarge(|pad|))
                 else Ok(out + Frame(body, pad))
  {
    if |body| > MAX_PADDING_SEGMENT { return Err(RealTooLarge(|body|)); }
    if |pad| > MAX_PADDING_SEGMENT { return Err(PadTooLarge(|pad|)); }
    var bytes := out + ToBigEndian(|body|, 2);
    bytes := bytes + ToBigEndian(|pad|, 2);
    bytes := bytes + body;
    bytes := bytes + pad;
    assert bytes == out + Frame(body, pad);
    return Ok(bytes);
  }

  // ── Decoding, one byte at a time ───────────────────────────────────────────

  datatype Phase =
    | Header
    | Real(realRem: nat, pad: nat)
    | Pad(padRem: nat, inspect: bool)

  datatype Decoder = Decoder(
    phase: Phase,
    header: seq<Byte>,           // header bytes collected
    probe: seq<Byte>,            // head of a pad-only frame's pad
    control: Option<ControlSignal>)

  predicate WellFormed(d: Decoder) {
    && |d.header| < PADDING_FRAME_HEADER_LEN && |d.probe| <= CONTROL_PREFIX_LEN
    && (d.phase.Real? ==> d.phase.realRem > 0 && d.header == [])
    && (d.phase.Pad? ==> d.phase.padRem > 0 && d.header == [])
  }

  predicate AtFrameBoundary(d: Decoder) {
    d.phase.Header? && d.header == []
  }

  const Fresh: Decoder := Decoder(Header, [], [], None)

  function ParseControl(probe: seq<Byte>): Option<ControlSignal>
    requires |probe| == CONTROL_PREFIX_LEN
  {
    if probe[..4] != CONTROL_MAGIC || probe[4] != CONTROL_VERSION || probe[5] != OP_THROTTLE_SWITCH then None
    else Some(ThrottleSwitchUplink)
  }

  function AfterHeader(body: nat, pad: nat): Phase {
    if body > 0 then Real(body, pad) else if pad > 0 then Pad(pad, true) else Header
  }

  /** Header bytes arrive; a full header starts the frame. */
  function TakeHeader(d: Decoder, data: seq<Byte>): Decoder
    requires |d.header + data| <= PADDING_FRAME_HEADER_LEN
  {
    var h := d.header + data;
    if |h| < PADDING_FRAME_HEADER_LEN then d.(header := h)
    else
      var body, pad := BigEndian(h[..2]), BigEndian(h[2..]);
      d.(header := [], probe := if body == 0 then [] else d.probe, phase := AfterHeader(body, pad))
  }

  function TakeReal(d: Decoder, n: nat): Decoder
    requires d.phase.Real? && n <= d.phase.realRem
  {
    var rem := d.phase.realRem - n;
    d.(phase := if rem > 0 then Real(rem, d.phase.pad) else if d.phase.pad > 0 then Pad(d.phase.pad, false) else Header)
  }

  /** The probe holds these bytes; a full one is looked at. */
  function Probed(d: Decoder, probe: seq<Byte>): Decoder {
    d.(probe := probe,
       control := if |probe| == CONTROL_PREFIX_LEN && ParseControl(probe).Some? then ParseControl(probe) else d.control)
  }

  function Probe(d: Decoder, data: seq<Byte>): Decoder
    requires |d.probe| <= CONTROL_PREFIX_LEN
  {
    if |d.probe| < CONTROL_PREFIX_LEN then
      var want := if CONTROL_PREFIX_LEN - |d.probe| < |data| then CONTROL_PREFIX_LEN - |d.probe| else |data|;
      Probed(d, d.probe + data[..want])
    else d
  }

  function TakePad(d: Decoder, data: seq<Byte>): Decoder
    requires d.phase.Pad? && |data| <= d.phase.padRem && |d.probe| <= CONTROL_PREFIX_LEN
  {
    var rem := d.phase.padRem - |data|;
    (if d.phase.inspect then Probe(d, data) else d).(phase := if rem > 0 then Pad(rem, d.phase.inspect) else Header)
  }

  /** Bytes the current phase can still take. */
  function Room(d: Decoder): nat {
    match d.phase
    case Header => if |d.header| < PADDING_FRAME_HEADER_LEN then PADDING_FRAME_HEADER_LEN - |d.header| else 0
    case Real(rem, _) => rem
    case Pad(rem, _) => rem
  }

  /** A run of bytes within one phase: the decoder after it and the payload recovered. */
  function Bulk(d: Decoder, data: seq<Byte>): (r: (Decoder, seq<Byte>))
    requires WellFormed(d) && 0 < |data| <= Room(d)
    ensures WellFormed(r.0)
  {
    match d.phase
    case Header => (TakeHeader(d, data), [])
    case Real(_, _) => (TakeReal(d, |data|), data)
    case Pad(_, _) => (TakePad(d, data), [])
  }

  function Fold(d: Decoder, input: seq<Byte>): (r: (Decoder, seq<Byte>))
    requires WellFormed(d)
    ensures WellFormed(r.0)
    decreases |input|
  {
    if input == [] then (d, [])
    else
      var first := Bulk(d, [input[0]]);
      var rest := Fold(first.0, input[1..]);
      (rest.0, first.1 + rest.1)
  }

  // ── Chunks do not matter ───────────────────────────────────────────────────

  lemma {:induction false} FoldAppend(d: Decoder, a: seq<Byte>, b: seq<Byte>)
    requires WellFormed(d)
    ensures var x := Fold(d, a); var y := Fold(x.0, b); Fold(d, a + b) == (y.0, x.1 + y.1)
    decreases |a|
  {
    hide Bulk;
    if a == [] {
      assert a + b == b;
      assert [] + Fold(d, b).1 == Fold(d, b).1;
    } else {
      var first := Bulk(d, [a[0]]);
      assert (a + b)[0] == a[0] && (a + b)[1..] == a[1..] + b;
      FoldAppend(first.0, a[1..], b);
      var x := Fold(first.0, a[1..]);
      var y := Fold(x.0, b);
      assert first.1 + (x.1 + y.1) == (first.1 + x.1) + y.1;
    }
  }

  /** Bytes pushed in any chunks. */
  function FoldChunks(d: Decoder, chunks: seq<seq<Byte>>): (r: (Decoder, seq<Byte>))
    requires WellFormed(d)
    ensures WellFormed(r.0)
    decreases |chunks|
  {
    if chunks == [] then (d, [])
    else
      var first := Fold(d, chunks[0]);
      var rest := FoldChunks(first.0, chunks[1..]);
      (rest.0, first.1 + rest.1)
  }

  lemma {:induction false} ChunkingIsIrrelevant(d: Decoder, chunks: seq<seq<Byte>>)
    requires WellFormed(d)
    ensures FoldChunks(d, chunks) == Fold(d, Joined(chunks))
    decreases |chunks|
  {
    hide Bulk, WellFormed;
    if chunks != [] {
      FoldAppend(d, chunks[0], Joined(chunks[1..]));
      ChunkingIsIrrelevant(Fold(d, chunks[0]).0, chunks[1..]);
    }
  }

  // ── Bulk copies ────────────────────────────────────────────────────────────

  /** Taking a run at once is taking its first byte and then the rest. */
  lemma BulkStep(d: Decoder, data: seq<Byte>)
    requires WellFormed(d) && 1 < |data| <= Room(d)
    ensures var first := Bulk(d, [data[0]]);
            && |data| - 1 <= Room(first.0)
            && Bulk(d, data) == (Bulk(first.0, data[1..]).0, first.1 + Bulk(first.0, data[1..]).1)
  {
    hide ParseControl;
    assert data == [data[0]] + data[1..];
    match d.phase {
      case Header =>
        var d' := TakeHeader(d, [data[0]]);
        assert d' == d.(header := d.header + [data[0]]);
        assert d'.header + data[1..] == d.header + data;
        assert Bulk(d, [data[0]]).1 + Bulk(d', data[1..]).1 == [];
      case Real(_, _) =>
      case Pad(_, _) =>
        PadStep(d, data);
        assert Bulk(d, [data[0]]).1 + Bulk(TakePad(d, [data[0]]), data[1..]).1 == [];
    }
  }

  lemma PadStep(d: Decoder, data: seq<Byte>)
    requires WellFormed(d) && d.phase.Pad? && 1 < |data| <= Room(d)
    ensures TakePad(d, data) == TakePad(TakePad(d, [data[0]]), data[1..])
  {
    hide ParseControl;
    ProbeStep(d, data);
    assert data == [data[0]] + data[1..];
  }

  lemma ProbedAgain(d: Decoder, a: seq<Byte>, b: seq<Byte>)
    requires |a| < CONTROL_PREFIX_LEN
    ensures Probed(Probed(d, a), b) == Probed(d, b)
  {
    hide ParseControl;
  }

  lemma ProbeStep(d: Decoder, data: seq<Byte>)
    requires |d.probe| <= CONTROL_PREFIX_LEN && |data| > 1
    ensures |Probe(d, [data[0]]).probe| <= CONTROL_PREFIX_LEN
    ensures Probe(d, data) == Probe(Probe(d, [data[0]]), data[1..])
  {
    hide ParseControl, Probed;
    var n := CONTROL_PREFIX_LEN - |d.probe|;
    if n > 0 {
      var want := if n < |data| then n else |data|;
      var one := d.probe + [data[0]];
      assert [data[0]][..1] == [data[0]];
      ProbeHolds(d, one);
      assert data[..want] == [data[0]] + data[1..][..want - 1];
      assert d.probe + data[..want] == one + data[1..][..want - 1];
      if n > 1 {
        ProbedAgain(d, one, one + data[1..][..want - 1]);
      } else {
        assert one + data[1..][..0] == one;
      }
    }
  }

  lemma ProbeHolds(d: Decoder, probe: seq<Byte>)
    ensures Probed(d, probe).probe == probe
  {
  }

  lemma {:induction false} FoldIsBulk(d: Decoder, data: seq<Byte>)
    requires WellFormed(d) && 0 < |data| <= Room(d)
    ensures Fold(d, data) == Bulk(d, data)
    decreases |data|
  {
    hide Bulk, Room, WellFormed;
    var first := Bulk(d, [data[0]]);
    if |data| == 1 {
      assert data == [data[0]];
      FoldNone(first.0, data[1..]);
      assert first.1 + [] == first.1;
    } else {
      BulkStep(d, data);
      FoldIsBulk(first.0, data[1..]);
    }
  }

  lemma FoldNone(d: Decoder, none: seq<Byte>)
    requires WellFormed(d) && none == []
    ensures Fold(d, none) == (d, [])
  {
  }

  // ── Round trip ─────────────────────────────────────────────────────────────

  /** The signal a pad-only frame carries. */
  function SignalOf(pad: seq<Byte>): Option<ControlSignal> {
    if |pad| < CONTROL_PREFIX_LEN then None else ParseControl(pad[..CONTROL_PREFIX_LEN])
  }

  lemma DecodeHeader(d: Decoder, body: nat, pad: nat)
    requires WellFormed(d) && AtFrameBoundary(d) && body <= MAX_PADDING_SEGMENT && pad <= MAX_PADDING_SEGMENT
    ensures Fold(d, ToBigEndian(body, 2) + ToBigEndian(pad, 2))
         == (d.(probe := if body == 0 then [] else d.probe, phase := AfterHeader(body, pad)), [])
  {
    hide Fold;
    var h := ToBigEndian(body, 2) + ToBigEndian(pad, 2);
    FoldIsBulk(d, h);
    U16RoundTrip(body);
    U16RoundTrip(pad);
    assert d.header + h == h;
    assert h[0] == ToBigEndian(body, 2)[0] && h[1] == ToBigEndian(body, 2)[1] && h[2] == ToBigEndian(pad, 2)[0] && h[3] == ToBigEndian(pad, 2)[1];
  }

  lemma DecodeBody(d: Decoder, body: seq<Byte>, pad: seq<Byte>)
    requires WellFormed(d) && d.header == [] && d.phase == AfterHeader(|body|, |pad|)
    requires body == [] ==> d.probe == []
    ensures var r := Fold(d, body + pad);
            && AtFrameBoundary(r.0) && r.1 == body
            && r.0.control == if body == [] && SignalOf(pad).Some? then SignalOf(pad) else d.control
  {
    hide Fold, ParseControl;
    FoldAppend(d, body, pad);
    if body != [] { FoldIsBulk(d, body); } else { FoldNone(d, body); }
    var x := Fold(d, body);
    if pad != [] { FoldIsBulk(x.0, pad); } else { FoldNone(x.0, pad); }
    if body == [] && pad != [] { ProbeWhole(x.0, pad); }
    assert body + [] == body;
  }

  lemma ProbeWhole(d: Decoder, pad: seq<Byte>)
    requires d.probe == []
    ensures Probe(d, pad).control == if SignalOf(pad).Some? then SignalOf(pad) else d.control
  {
    hide ParseControl;
    var want := if CONTROL_PREFIX_LEN < |pad| then CONTROL_PREFIX_LEN else |pad|;
    assert d.probe + pad[..want] == pad[..want];
  }

  /** A whole frame yields its payload and nothing of its pad, and a signal exactly when a pad-only frame carries one. */
  lemma DecodeFrame(d: Decoder, body: seq<Byte>, pad: seq<Byte>)
    requires WellFormed(d) && AtFrameBoundary(d)
    requires |body| <= MAX_PADDING_SEGMENT && |pad| <= MAX_PADDING_SEGMENT
    ensures var r := Fold(d, Frame(body, pad));
            && AtFrameBoundary(r.0) && r.1 == body
            && r.0.control == if body == [] && SignalOf(pad).Some? then SignalOf(pad) else d.control
  {
    hide Fold, SignalOf, ToBigEndian;
    var h := ToBigEndian(|body|, 2) + ToBigEndian(|pad|, 2);
    FoldAppend(d, h, body + pad);
    DecodeHeader(d, |body|, |pad|);
    DecodeBody(Fold(d, h).0, body, pad);
    assert [] + body == body;
  }

  lemma PartialBody(d: Decoder, body: seq<Byte>, pad: seq<Byte>, k: nat)
    requires WellFormed(d) && d.header == [] && d.phase == AfterHeader(|body|, |pad|) && k <= |body| + |pad|
    ensures Fold(d, (body + pad)[..k]).1 == if k <= |body| then body[..k] else body
  {
    hide Fold, ParseControl;
    if k <= |body| {
      assert (body + pad)[..k] == body[..k];
      if k > 0 { FoldIsBulk(d, body[..k]); } else { FoldNone(d, body[..k]); }
    } else {
      var part := pad[..k - |body|];
      assert (body + pad)[..k] == body + part;
      FoldAppend(d, body, part);
      if body != [] { FoldIsBulk(d, body); } else { FoldNone(d, body); }
      FoldIsBulk(Fold(d, body).0, part);
      assert body + [] == body;
    }
  }

  /** The payload is handed out as it arrives: after any part of a frame, exactly the payload bytes in that part. */
  lemma PartialFrame(d: Decoder, body: seq<Byte>, pad: seq<Byte>, k: nat)
    requires WellFormed(d) && AtFrameBoundary(d)
    requires |body| <= MAX_PADDING_SEGMENT && |pad| <= MAX_PADDING_SEGMENT && k <= |Frame(body, pad)|
    ensures Fold(d, Frame(body, pad)[..k]).1 == if k <= 4 then [] else if k - 4 <= |body| then body[..k - 4] else body
  {
    hide Fold, ToBigEndian;
    var h := ToBigEndian(|body|, 2) + ToBigEndian(|pad|, 2);
    if k < 4 {
      var part := Frame(body, pad)[..k];
      if k > 0 { FoldIsBulk(d, part); } else { FoldNone(d, part); }
    } else {
      assert Frame(body, pad)[..k] == h + (body + pad)[..k - 4];
      FoldAppend(d, h, (body + pad)[..k - 4]);
      DecodeHeader(d, |body|, |pad|);
      PartialBody(Fold(d, h).0, body, pad, k - 4);
      assert forall x: seq<Byte> :: [] + x == x;
    }
  }

  /** A pad carries the signal exactly when it starts with `OCTL`, version 1 and operation 1. */
  lemma SignalIff(pad: seq<Byte>)
    ensures SignalOf(pad).Some? <==> [79, 67, 84, 76, 1, 1] <= pad
  {
    var magic: seq<Byte> := [79, 67, 84, 76, 1, 1];
    if |pad| >= 6 {
      assert pad[..6][..4] == pad[..4];
      assert magic[..4] == CONTROL_MAGIC;
      if magic <= pad {
        assert pad[..6] == magic;
      }
      if SignalOf(pad).Some? {
        assert pad[..6] == pad[..4] + [pad[4], pad[5]];
        assert magic == magic[..4] + [1, 1];
      }
    }
  }

  /** One whole frame raises the signal exactly when it has no payload and its pad carries it; a signal not yet taken stays. */
  lemma SignalRaisedIff(d: Decoder, body: seq<Byte>, pad: seq<Byte>)
    requires WellFormed(d) && AtFrameBoundary(d)
    requires |body| <= MAX_PADDING_SEGMENT && |pad| <= MAX_PADDING_SEGMENT
    ensures Fold(d, Frame(body, pad)).0.control.Some?
            <==> d.control.Some? || (body == [] && [79, 67, 84, 76, 1, 1] <= pad)
  {
    hide Fold, Frame, SignalOf;
    DecodeFrame(d, body, pad);
    SignalIff(pad);
  }

  /** A control frame delivers its signal and no payload. */
  lemma DecodeControlFrame(d: Decoder, extraPad: seq<Byte>)
    requires WellFormed(d) && AtFrameBoundary(d) && |extraPad| <= MAX_PADDING_SEGMENT - CONTROL_PREFIX_LEN
    ensures var r := Fold(d, Frame([], CONTROL_MAGIC + [CONTROL_VERSION, OP_THROTTLE_SWITCH] + extraPad));
            AtFrameBoundary(r.0) && r.1 == [] && r.0.control == Some(ThrottleSwitchUplink)
  {
    hide Fold, Frame;
    var pad := CONTROL_MAGIC + [CONTROL_VERSION, OP_THROTTLE_SWITCH] + extraPad;
    assert pad[..6][..4] == CONTROL_MAGIC && pad[4] == CONTROL_VERSION && pad[5] == OP_THROTTLE_SWITCH;
    DecodeFrame(d, [], pad);
  }

  // ── The decoder object ─────────────────────────────────────────────────────

  /** Copies bytes into a buffer behind those already in it. */
  method CopyTo(buffer: array<Byte>, filled: nat, data: seq<Byte>)
    requires filled + |data| <= buffer.Length
    modifies buffer
    ensures buffer[..filled + |data|] == old(buffer[..filled]) + data
  {
    forall k | 0 <= k < |data| { buffer[filled + k] := data[k]; }
  }

  class PaddingDecoder {
    var phase: Phase
    const header: array<Byte>
    var headerFilled: nat
    const ctrlBuf: array<Byte>
    var ctrlFilled: nat
    var pendingControl: Option<ControlSignal>

    ghost predicate Valid()
      reads this, header, ctrlBuf
    {
      && header.Length == PADDING_FRAME_HEADER_LEN && ctrlBuf.Length == CONTROL_PREFIX_LEN && header != ctrlBuf
      && headerFilled < PADDING_FRAME_HEADER_LEN && ctrlFilled <= CONTROL_PREFIX_LEN
      && WellFormed(View())
    }

    ghost function View(): Decoder
      requires header.Length == PADDING_FRAME_HEADER_LEN && ctrlBuf.Length == CONTROL_PREFIX_LEN
      requires headerFilled < PADDING_FRAME_HEADER_LEN && ctrlFilled <= CONTROL_PREFIX_LEN
      reads this, header, ctrlBuf
    {
      Decoder(phase, header[..headerFilled], ctrlBuf[..ctrlFilled], pendingControl)
    }

    constructor ()
      ensures Valid() && fresh(header) && fresh(ctrlBuf) && View() == Fresh
    {
      phase := Header;
      header := new Byte[PADDING_FRAME_HEADER_LEN](_ => 0);
      headerFilled := 0;
      ctrlBuf := new Byte[CONTROL_PREFIX_LEN](_ => 0);
      ctrlFilled := 0;
      pendingControl := None;
    }

    method TakeControl() returns (signal: Option<ControlSignal>)
      requires Valid()
      modifies this
      ensures Valid() && signal == old(View()).control && View() == old(View()).(control := None)
    {
      signal := pendingControl;
      pendingControl := None;
    }

    method PushHeader(data: seq<Byte>)
      requires Valid() && phase.Header? && 0 < |data| <= Room(View())
      modifies this, header
      ensures Valid() && View() == TakeHeader(old(View()), data)
    {
      ghost var was := View();
      CopyTo(header, headerFilled, data);
      headerFilled := headerFilled + |data|;
      if headerFilled == PADDING_FRAME_HEADER_LEN {
        assert header[..2] == (was.header + data)[..2] && header[2..] == (was.header + data)[2..];
        headerFilled := 0;
        var body, pad := BigEndian(header[..2]), BigEndian(header[2..]);
        if body == 0 { ctrlFilled := 0; }
        phase := AfterHeader(body, pad);
      }
    }

    method Inspect(data: seq<Byte>)
      requires Valid()
      modifies this`ctrlFilled, this`pendingControl, ctrlBuf
      ensures Valid() && View() == Probe(old(View()), data)
    {
      hide ParseControl;
      if ctrlFilled < CONTROL_PREFIX_LEN {
        var want := if CONTROL_PREFIX_LEN - ctrlFilled < |data| then CONTROL_PREFIX_LEN - ctrlFilled else |data|;
        CopyTo(ctrlBuf, ctrlFilled, data[..want]);
        ctrlFilled := ctrlFilled + want;
        if ctrlFilled == CONTROL_PREFIX_LEN {
          assert ctrlBuf[..] == ctrlBuf[..ctrlFilled];
          var signal := ParseControl(ctrlBuf[..]);
          if signal.Some? { pendingControl := signal; }
        }
      }
    }

    method PushPad(data: seq<Byte>)
      requires Valid() && phase.Pad? && 0 < |data| <= Room(View())
      modifies this, ctrlBuf
      ensures Valid() && View() == TakePad(old(View()), data)
    {
      hide Probe;
      if phase.inspect { Inspect(data); }
      var padRem := phase.padRem - |data|;
      phase := if padRem > 0 then Pad(padRem, phase.inspect) else Header;
    }

    /** The part of the input that belongs to the current phase. */
    method PushPart(input: seq<Byte>) returns (take: nat, part: seq<Byte>)
      requires Valid() && input != []
      modifies this, header, ctrlBuf
      ensures Valid() && 0 < take <= |input| && take <= Room(old(View()))
      ensures (View(), part) == Bulk(old(View()), input[..take])
    {
      hide TakeHeader, TakePad;
      part := [];
      match phase {
        case Header =>
          var need := PADDING_FRAME_HEADER_LEN - headerFilled;
          take := if need < |input| then need else |input|;
          PushHeader(input[..take]);
        case Real(realRem, pad) =>
          take := if realRem < |input| then realRem else |input|;
          part := input[..take];
          var rem := realRem - take;
          phase := if rem > 0 then Real(rem, pad) else if pad > 0 then Pad(pad, false) else Header;
        case Pad(padRem, _) =>
          take := if padRem < |input| then padRem else |input|;
          PushPad(input[..take]);
      }
    }

    /** Consumes all input in bulk; the payload is appended to `sink`. */
    method Push(bytes: seq<Byte>, sink: seq<Byte>) returns (out: seq<Byte>)
      requires Valid()
      modifies this, header, ctrlBuf
      ensures Valid()
      ensures View() == Fold(old(View()), bytes).0
      ensures out == sink + Fold(old(View()), bytes).1
    {
      hide Fold, WellFormed, Bulk, Room;
      out := sink;
      var input := bytes;
      ghost var start, eaten: seq<Byte> := View(), [];
      FoldNone(start, eaten);
      while input != []
        invariant Valid()
        invariant bytes == eaten + input && WellFormed(start)
        invariant View() == Fold(start, eaten).0
        invariant out == sink + Fold(start, eaten).1
        decreases |input|
      {
        ghost var before := View();
        var take, part := PushPart(input);
        ghost var data := input[..take];
        FoldAppend(start, eaten, data);
        FoldIsBulk(before, data);
        out := out + part;
        assert bytes == (eaten + data) + input[take..];
        eaten := eaten + data;
        input := input[take..];
      }
      assert eaten == bytes;
    }
  }
}
