/**
 Cutting and padding of uplink frames: even pieces, the cap that keeps a message
 in one h2 DATA frame and one TLS record, and the messages that go out.

 The random pads are arguments; what they must satisfy is what the draw gives.
 */
module CarrierPadding {
  import opened Bits
  import opened Bytes
  import opened Wrappers
  import opened PaddingFrames
  import EarlyShape

  const H2_DATA_PAYLOAD_MAX: nat := 16384 - 9
  const H2_WS_CLIENT_HEADER_LEN: nat := 8
  const MIN_H2_PLAINTEXT_CAP: nat := 1024

  // ── Even pieces ────────────────────────────────────────────────────────────

  /** Lengths within one byte of each other, the longer ones first. */
  function EvenLens(n: nat, base: nat, extra: nat): (ls: seq<nat>)
    ensures |ls| == n
    ensures forall i :: 0 <= i < n ==> ls[i] == base + if i < extra then 1 else 0
  {
    seq(n, i requires 0 <= i < n => base + if i < extra then 1 else 0)
  }

  function PieceCount(len: nat, cap: nat): (n: nat)
    ensures n >= 1
  {
    var c := if cap < 1 then 1 else cap;
    var n := (len + c - 1) / c;
    if n < 1 then 1 else n
  }

  function EvenPieceLens(len: nat, cap: nat): seq<nat> {
    var n := PieceCount(len, cap);
    EvenLens(n, len / n, len % n)
  }

  lemma {:induction false} SumEven(n: nat, base: nat, extra: nat)
    requires extra <= n
    ensures EarlyShape.Sum(EvenLens(n, base, extra)) == n * base + extra
  {
    if n > 0 {
      var m := n - 1;
      assert EvenLens(n, base, extra)[..m] == EvenLens(m, base, if extra < n then extra else m);
      SumEven(m, base, if extra < n then extra else m);
      assert n * base == m * base + base;
    }
  }

  /** Rounding up: enough pieces, and one fewer would not do. */
  lemma PieceCountIsCeiling(len: nat, cap: nat)
    requires cap >= 1
    ensures len <= PieceCount(len, cap) * cap
    ensures PieceCount(len, cap) > 1 ==> (PieceCount(len, cap) - 1) * cap < len
  {
    var q, r := (len + cap - 1) / cap, (len + cap - 1) % cap;
    assert len + cap - 1 == q * cap + r;
    assert q < 1 ==> q * cap == 0;
    assert (q - 1) * cap == q * cap - cap;
  }

  lemma EvenBound(len: nat, n: nat, cap: nat)
    requires n >= 1 && len <= n * cap
    ensures len / n <= cap && (len % n > 0 ==> len / n < cap)
  {
    var q, r := len / n, len % n;
    assert len == q * n + r;
    assert (cap + 1) * n == cap * n + n;
    MulMono(cap + 1, q, n);
    MulMono(cap, q, n);
  }

  /** `len` shared out over `n` pieces that can hold it. */
  lemma EvenShares(len: nat, n: nat, cap: nat)
    requires n >= 1 && len <= n * cap
    ensures var ls := EvenLens(n, len / n, len % n);
            && EarlyShape.Sum(ls) == len
            && (forall i :: 0 <= i < |ls| ==> ls[i] <= cap)
            && (forall i, j :: 0 <= i < |ls| && 0 <= j < |ls| ==> ls[i] <= ls[j] + 1)
  {
    hide EarlyShape.Sum, EvenLens;
    EvenBound(len, n, cap);
    SumEven(n, len / n, len % n);
    DivMod(len, n);
  }

  lemma DivMod(len: nat, n: nat)
    requires n >= 1
    ensures n * (len / n) + len % n == len && len % n < n
  {
  }

  /** The pieces make up the length, are within the cap, and differ by at most one. */
  lemma EvenPieces(len: nat, cap: nat)
    ensures var ls := EvenPieceLens(len, cap);
            && EarlyShape.Sum(ls) == len
            && |ls| == PieceCount(len, cap)
            && (forall i :: 0 <= i < |ls| ==> ls[i] <= (if cap < 1 then 1 else cap))
            && (forall i, j :: 0 <= i < |ls| && 0 <= j < |ls| ==> ls[i] <= ls[j] + 1)
            && (len <= cap ==> ls == [len])
  {
    hide EarlyShape.Sum, PieceCount, EvenLens;
    var n, c := PieceCount(len, cap), if cap < 1 then 1 else cap;
    SameCount(len, cap);
    PieceCountIsCeiling(len, c);
    EvenShares(len, n, c);
    if len <= cap {
      OnePiece(len, cap);
      assert EvenLens(1, len, 0) == [len];
    }
  }

  lemma SameCount(len: nat, cap: nat)
    ensures PieceCount(len, cap) == PieceCount(len, if cap < 1 then 1 else cap)
  {
  }

  lemma OnePiece(len: nat, cap: nat)
    requires len <= cap
    ensures PieceCount(len, cap) == 1 && len / 1 == len && len % 1 == 0
  {
    hide PieceCount;
    SameCount(len, cap);
    var c := if cap < 1 then 1 else cap;
    var n := PieceCount(len, c);
    PieceCountIsCeiling(len, c);
    MulMono(1, n - 1, c);
  }

  lemma {:induction false} SumAtMost(ls: seq<nat>, cap: nat)
    requires forall i :: 0 <= i < |ls| ==> ls[i] <= cap
    ensures EarlyShape.Sum(ls) <= |ls| * cap
  {
    if ls != [] {
      SumAtMost(ls[..|ls| - 1], cap);
      assert |ls| * cap == (|ls| - 1) * cap + cap;
    }
  }

  /** No cut into pieces within the cap has fewer pieces. */
  lemma FewestPieces(len: nat, cap: nat, ls: seq<nat>)
    requires ls != [] && EarlyShape.Sum(ls) == len
    requires forall i :: 0 <= i < |ls| ==> ls[i] <= (if cap < 1 then 1 else cap)
    ensures |EvenPieceLens(len, cap)| <= |ls|
  {
    hide PieceCount, EarlyShape.Sum;
    var c := if cap < 1 then 1 else cap;
    SameCount(len, cap);
    SumAtMost(ls, c);
    PieceCountIsCeiling(len, c);
    MulMono(|ls|, PieceCount(len, c) - 1, c);
  }

  // ── The one-record cap ─────────────────────────────────────────────────────

  /** Bytes the padding adds to a message at most. */
  function PaddingOverhead(scheme: Scheme): nat {
    if scheme.Enabled() then PADDING_FRAME_HEADER_LEN + scheme.maxPad else 0
  }

  function H2UplinkCap(scheme: Scheme): Option<nat> {
    var used := H2_WS_CLIENT_HEADER_LEN + PaddingOverhead(scheme);
    if H2_DATA_PAYLOAD_MAX >= used + MIN_H2_PLAINTEXT_CAP then Some(H2_DATA_PAYLOAD_MAX - used) else None
  }

  /** Header of a masked client message, section 5.2 of RFC 6455: flags, length, mask. */
  function WsHeaderLen(len: nat): nat {
    2 + (if len <= 125 then 0 else if len <= 65535 then 2 else 8) + 4
  }

  /** With its WebSocket header the message fills at most one DATA frame of one TLS record. */
  predicate FitsOneRecord(len: nat) {
    WsHeaderLen(len) + len <= H2_DATA_PAYLOAD_MAX
  }

  // ── Framing a payload ──────────────────────────────────────────────────────

  predicate IsPad(scheme: Scheme, pad: seq<Byte>) {
    scheme.minPad <= |pad| <= scheme.maxPad
  }

  /** Full segments without pad, then the last one with it; no data is one pad-only frame. */
  function Framed(data: seq<Byte>, pad: seq<Byte>): seq<Byte>
    requires |pad| <= MAX_PADDING_SEGMENT
  {
    if |data| <= MAX_PADDING_SEGMENT then Frame(data, pad)
    else Frame(data[..MAX_PADDING_SEGMENT], []) + Framed(data[MAX_PADDING_SEGMENT..], pad)
  }

  method FramePayloadInto(scheme: Scheme, data: seq<Byte>, pad: seq<Byte>, into: seq<Byte>) returns (out: seq<Byte>)
    requires scheme.Valid() && scheme.Enabled() && IsPad(scheme, pad)
    ensures out == into + Framed(data, pad)
  {
    hide Frame;
    out := into;
    if data == [] {
      var r := EncodeFrameInto(out, [], pad);
      return r.value;
    }
    var i := 0;
    assert data[0..] == data;
    while i < |data|
      invariant 0 <= i <= |data|
      invariant i < |data| ==> out + Framed(data[i..], pad) == into + Framed(data, pad)
      invariant i == |data| ==> out == into + Framed(data, pad)
    {
      var end := if |data| - i > MAX_PADDING_SEGMENT then i + MAX_PADDING_SEGMENT else |data|;
      var last := end == |data|;
      var r := EncodeFrameInto(out, data[i..end], if last then pad else []);
      assert data[i..] == data[i..end] + data[end..];
      if !last {
        assert data[i..][..MAX_PADDING_SEGMENT] == data[i..end] && data[i..][MAX_PADDING_SEGMENT..] == data[end..];
        assert out + (Frame(data[i..end], []) + Framed(data[end..], pad)) == r.value + Framed(data[end..], pad);
      } else {
        assert data[i..end] == data[i..];
      }
      out := r.value;
      i := end;
    }
  }

  /** Decoding gives the payload back and ends at a frame boundary. */
  lemma {:induction false} DecodeFramed(d: Decoder, data: seq<Byte>, pad: seq<Byte>)
    requires WellFormed(d) && AtFrameBoundary(d) && |pad| <= MAX_PADDING_SEGMENT
    ensures var r := Fold(d, Framed(data, pad)); AtFrameBoundary(r.0) && r.1 == data
    decreases |data|
  {
    hide Fold, Frame, SignalOf;
    if |data| <= MAX_PADDING_SEGMENT {
      DecodeFrame(d, data, pad);
    } else {
      var head, tail := data[..MAX_PADDING_SEGMENT], data[MAX_PADDING_SEGMENT..];
      DecodeFrame(d, head, []);
      DecodeFramed(Fold(d, Frame(head, [])).0, tail, pad);
      FoldAppend(d, Frame(head, []), Framed(tail, pad));
      assert head + tail == data;
    }
  }

  /** The wire carries the payload, one header per segment and the pad once. */
  lemma {:induction false} FramedLength(data: seq<Byte>, pad: seq<Byte>)
    requires |pad| <= MAX_PADDING_SEGMENT
    ensures |Framed(data, pad)|
         == |data| + PADDING_FRAME_HEADER_LEN * PieceCount(|data|, MAX_PADDING_SEGMENT) + |pad|
    decreases |data|
  {
    if |data| > MAX_PADDING_SEGMENT { FramedLength(data[MAX_PADDING_SEGMENT..], pad); }
  }

  /** Only the last segment is padded: the wire ends in the pad, and a longer payload starts with a full segment without one. */
  lemma {:induction false} PadIsLast(data: seq<Byte>, pad: seq<Byte>)
    requires |pad| <= MAX_PADDING_SEGMENT
    ensures |pad| <= |Framed(data, pad)| && Framed(data, pad)[|Framed(data, pad)| - |pad|..] == pad
    ensures |data| > MAX_PADDING_SEGMENT ==> Frame(data[..MAX_PADDING_SEGMENT], []) <= Framed(data, pad)
    decreases |data|
  {
    hide ToBigEndian;
    if |data| > MAX_PADDING_SEGMENT { PadIsLast(data[MAX_PADDING_SEGMENT..], pad); }
  }

  // ── Cutting a frame into messages ──────────────────────────────────────────

  /** One piece as it goes out: framed, or as it is when padding is off. */
  function Message(scheme: Scheme, piece: seq<Byte>, pad: seq<Byte>): seq<Byte>
    requires scheme.Valid() && IsPad(scheme, pad)
  {
    if scheme.Enabled() then Framed(piece, pad) else piece
  }

  ghost predicate AllPads(scheme: Scheme, pads: nat -> seq<Byte>) {
    forall i :: IsPad(scheme, pads(i))
  }

  /** What the receiver makes of the messages: the decoder's payload, or the bytes themselves. */
  function Received(scheme: Scheme, d: Decoder, msgs: seq<seq<Byte>>): (Decoder, seq<Byte>)
    requires WellFormed(d)
  {
    if scheme.Enabled() then FoldChunks(d, msgs) else (d, Joined(msgs))
  }

  ghost predicate Delivers(scheme: Scheme, msgs: seq<seq<Byte>>, data: seq<Byte>) {
    forall d: Decoder :: WellFormed(d) && AtFrameBoundary(d) ==>
      var r := Received(scheme, d, msgs); AtFrameBoundary(r.0) && r.1 == data
  }

  lemma NothingDelivers(scheme: Scheme)
    ensures Delivers(scheme, [], [])
  {
  }

  lemma FoldChunksAppend(d: Decoder, a: seq<seq<Byte>>, b: seq<seq<Byte>>)
    requires WellFormed(d)
    ensures var x := FoldChunks(d, a); var y := FoldChunks(x.0, b); FoldChunks(d, a + b) == (y.0, x.1 + y.1)
  {
    hide Fold, FoldChunks, Joined;
    var x := FoldChunks(d, a);
    ChunkingIsIrrelevant(d, a);
    ChunkingIsIrrelevant(x.0, b);
    ChunkingIsIrrelevant(d, a + b);
    JoinedAppend(a, b);
    FoldAppend(d, Joined(a), Joined(b));
  }

  /** Messages one after the other deliver their data one after the other. */
  lemma DeliversAppend(scheme: Scheme, a: seq<seq<Byte>>, x: seq<Byte>, b: seq<seq<Byte>>, y: seq<Byte>)
    requires Delivers(scheme, a, x) && Delivers(scheme, b, y)
    ensures Delivers(scheme, a + b, x + y)
  {
    hide FoldChunks, Joined, WellFormed;
    forall d: Decoder | WellFormed(d) && AtFrameBoundary(d)
      ensures var r := Received(scheme, d, a + b); AtFrameBoundary(r.0) && r.1 == x + y
    {
      var first := Received(scheme, d, a);
      var second := Received(scheme, first.0, b);
      if scheme.Enabled() { FoldChunksAppend(d, a, b); } else { JoinedAppend(a, b); }
    }
  }

  /** What messages deliver is determined by them. */
  lemma DeliversUnique(scheme: Scheme, msgs: seq<seq<Byte>>, x: seq<Byte>, y: seq<Byte>)
    requires Delivers(scheme, msgs, x) && Delivers(scheme, msgs, y)
    ensures x == y
  {
    hide FoldChunks, Joined;
    assert Received(scheme, Fresh, msgs).1 == x && Received(scheme, Fresh, msgs).1 == y;
  }

  lemma FoldOne(d: Decoder, m: seq<Byte>)
    requires WellFormed(d)
    ensures FoldChunks(d, [m]) == Fold(d, m)
  {
    hide Fold, FoldChunks;
    ChunkingIsIrrelevant(d, [m]);
    JoinedOne(m);
  }

  /** A message delivers its piece. */
  lemma MessageDelivers(scheme: Scheme, piece: seq<Byte>, pad: seq<Byte>)
    requires scheme.Valid() && IsPad(scheme, pad)
    ensures Delivers(scheme, [Message(scheme, piece, pad)], piece)
  {
    hide Fold, FoldChunks, Framed, WellFormed, Joined;
    forall d: Decoder | WellFormed(d) && AtFrameBoundary(d)
      ensures var r := Received(scheme, d, [Message(scheme, piece, pad)]); AtFrameBoundary(r.0) && r.1 == piece
    {
      if scheme.Enabled() {
        FoldOne(d, Framed(piece, pad));
        DecodeFramed(d, piece, pad);
      } else {
        JoinedOne(piece);
      }
    }
  }

  /** A pad-only frame delivers nothing to a decoder; without one it is data like any other. */
  lemma CoverDelivers(scheme: Scheme, pad: seq<Byte>)
    requires |pad| <= MAX_PADDING_SEGMENT
    ensures Delivers(scheme, [Frame([], pad)], if scheme.Enabled() then [] else Frame([], pad))
  {
    hide Fold, FoldChunks, Frame, WellFormed, SignalOf, Joined;
    var cover := Frame([], pad);
    forall d: Decoder | WellFormed(d) && AtFrameBoundary(d)
      ensures var r := Received(scheme, d, [cover]); AtFrameBoundary(r.0) && r.1 == if scheme.Enabled() then [] else cover
    {
      if scheme.Enabled() {
        FoldOne(d, cover);
        DecodeFrame(d, [], pad);
      } else {
        JoinedOne(cover);
      }
    }
  }

  /** Each message delivers its own piece. */
  ghost predicate AllCarry(scheme: Scheme, msgs: seq<seq<Byte>>, pieces: seq<seq<Byte>>) {
    |msgs| == |pieces| && forall i :: 0 <= i < |msgs| ==> Delivers(scheme, [msgs[i]], pieces[i])
  }

  lemma {:induction false} AllCarryDelivers(scheme: Scheme, msgs: seq<seq<Byte>>, pieces: seq<seq<Byte>>)
    requires AllCarry(scheme, msgs, pieces)
    ensures Delivers(scheme, msgs, Joined(pieces))
  {
    hide Delivers;
    if msgs == [] {
      NothingDelivers(scheme);
    } else {
      AllCarryDelivers(scheme, msgs[1..], pieces[1..]);
      DeliversAppend(scheme, [msgs[0]], pieces[0], msgs[1..], Joined(pieces[1..]));
      assert [msgs[0]] + msgs[1..] == msgs;
    }
  }

  /** The messages are a frame cut into pieces, message by message. */
  ghost predicate IsCut(scheme: Scheme, frame: seq<Byte>, msgs: seq<seq<Byte>>) {
    exists pieces :: AllCarry(scheme, msgs, pieces) && Joined(pieces) == frame
  }

  lemma CutDelivers(scheme: Scheme, frame: seq<Byte>, msgs: seq<seq<Byte>>)
    requires IsCut(scheme, frame, msgs)
    ensures Delivers(scheme, msgs, frame)
  {
    hide AllCarry, Delivers;
    var pieces :| AllCarry(scheme, msgs, pieces) && Joined(pieces) == frame;
    AllCarryDelivers(scheme, msgs, pieces);
  }

  /** A piece within the cap leaves as a message of one record. */
  lemma CappedFitsOneRecord(scheme: Scheme, piece: seq<Byte>, pad: seq<Byte>)
    requires scheme.Valid() && IsPad(scheme, pad) && H2UplinkCap(scheme).Some? && |piece| <= H2UplinkCap(scheme).value
    ensures |Message(scheme, piece, pad)| <= |piece| + PaddingOverhead(scheme)
    ensures FitsOneRecord(|Message(scheme, piece, pad)|)
  {
  }

  /** Whatever its bytes and its pad, a piece of `n` bytes leaves as a message of one record. */
  ghost predicate AlwaysFits(scheme: Scheme, n: nat)
    requires scheme.Valid()
  {
    forall piece: seq<Byte>, pad: seq<Byte> ::
      |piece| == n && IsPad(scheme, pad) ==> FitsOneRecord(|Message(scheme, piece, pad)|)
  }

  /** What the largest pad leaves room for. */
  lemma FitsIffRoom(scheme: Scheme, n: nat)
    requires scheme.Valid() && n >= MIN_H2_PLAINTEXT_CAP
    ensures AlwaysFits(scheme, n) <==> 8 + n + PaddingOverhead(scheme) <= H2_DATA_PAYLOAD_MAX
  {
    hide Framed;
    if 8 + n + PaddingOverhead(scheme) <= H2_DATA_PAYLOAD_MAX {
      forall piece: seq<Byte>, pad: seq<Byte> | |piece| == n && IsPad(scheme, pad)
        ensures FitsOneRecord(|Message(scheme, piece, pad)|)
      {
        FramedLength(piece, pad);
        OnePiece(n, MAX_PADDING_SEGMENT);
      }
    } else {
      var piece: seq<Byte>, pad: seq<Byte> := seq(n, _ => 0), seq(scheme.maxPad, _ => 0);
      FramedLength(piece, pad);
      assert !FitsOneRecord(|Message(scheme, piece, pad)|);
    }
  }

  /**
   There is a cap exactly when pieces of 1024 bytes or more can always leave in one
   record, padding on or off, and it is the largest length of which that is true.
   */
  lemma CapIsLargestFit(scheme: Scheme)
    requires scheme.Valid()
    ensures H2UplinkCap(scheme).Some? <==> exists n: nat :: n >= 1024 && AlwaysFits(scheme, n)
    ensures H2UplinkCap(scheme).Some? ==>
              var cap := H2UplinkCap(scheme).value;
              cap >= 1024 && AlwaysFits(scheme, cap) && forall n: nat :: AlwaysFits(scheme, n) ==> n <= cap
  {
    hide AlwaysFits;
    forall n: nat | n >= 1024
      ensures AlwaysFits(scheme, n) <==> 8 + n + PaddingOverhead(scheme) <= H2_DATA_PAYLOAD_MAX
    {
      FitsIffRoom(scheme, n);
    }
    if H2UplinkCap(scheme).Some? { assert AlwaysFits(scheme, H2UplinkCap(scheme).value); }
  }

  predicate AllFitOneRecord(msgs: seq<seq<Byte>>) {
    forall i :: 0 <= i < |msgs| ==> FitsOneRecord(|msgs[i]|)
  }

  lemma SumOfPrefix(lens: seq<nat>, i: nat)
    requires i < |lens|
    ensures EarlyShape.Sum(lens[..i]) + lens[i] == EarlyShape.Sum(lens[..i + 1]) <= EarlyShape.Sum(lens)
  {
    hide EarlyShape.Sum;
    assert lens[..i + 1] == lens[..i] + [lens[i]];
    EarlyShape.SumSnoc(lens[..i], lens[i]);
    EarlyShape.SumAppend(lens[..i + 1], lens[i + 1..]);
    assert lens == lens[..i + 1] + lens[i + 1..];
  }

  /** The messages carry the frame in pieces of these lengths. */
  ghost predicate CarriesPieces(scheme: Scheme, frame: seq<Byte>, msgs: seq<seq<Byte>>, pieces: seq<seq<Byte>>, lens: seq<nat>) {
    && AllCarry(scheme, msgs, pieces) && Joined(pieces) == frame
    && |pieces| == |lens| && forall i :: 0 <= i < |lens| ==> |pieces[i]| == lens[i]
  }

  /** One message per piece, each framed with its own pad. */
  ghost predicate AllFramed(scheme: Scheme, msgs: seq<seq<Byte>>, pieces: seq<seq<Byte>>, pads: nat -> seq<Byte>)
    requires scheme.Valid() && AllPads(scheme, pads)
  {
    |msgs| == |pieces| && forall i :: 0 <= i < |msgs| ==> msgs[i] == Message(scheme, pieces[i], pads(i))
  }

  /** Sends the pieces one after the other. */
  method SendPieces(scheme: Scheme, lens: seq<nat>, frame: seq<Byte>, pads: nat -> seq<Byte>)
    returns (msgs: seq<seq<Byte>>, ghost pieces: seq<seq<Byte>>)
    requires scheme.Valid() && AllPads(scheme, pads) && EarlyShape.Sum(lens) == |frame|
    ensures CarriesPieces(scheme, frame, msgs, pieces, lens) && AllFramed(scheme, msgs, pieces, pads)
    ensures H2UplinkCap(scheme).Some? && (forall i :: 0 <= i < |lens| ==> lens[i] <= H2UplinkCap(scheme).value)
            ==> AllFitOneRecord(msgs)
  {
    hide EarlyShape.Sum, Delivers, Framed, FitsOneRecord, H2UplinkCap, Joined;
    msgs, pieces := [], [];
    var offset, i := 0, 0;
    assert lens[..0] == [] && frame[..0] == [];
    JoinedNone();
    assert EarlyShape.Sum([]) == 0 by { EarlyShape.NoSum(); }
    while i < |lens|
      invariant 0 <= i <= |lens| && offset == EarlyShape.Sum(lens[..i]) <= |frame|
      invariant CarriesPieces(scheme, frame[..offset], msgs, pieces, lens[..i]) && AllFramed(scheme, msgs, pieces, pads)
      invariant H2UplinkCap(scheme).Some? && (forall k :: 0 <= k < i ==> lens[k] <= H2UplinkCap(scheme).value)
                ==> AllFitOneRecord(msgs)
    {
      SumOfPrefix(lens, i);
      var piece, pad := frame[offset..offset + lens[i]], pads(i);
      var m := piece;
      if scheme.Enabled() { m := FramePayloadInto(scheme, piece, pad, []); assert m == [] + Framed(piece, pad) == Framed(piece, pad); }
      MessageDelivers(scheme, piece, pad);
      if H2UplinkCap(scheme).Some? && lens[i] <= H2UplinkCap(scheme).value { CappedFitsOneRecord(scheme, piece, pad); }
      JoinedSnoc(pieces, piece);
      assert frame[..offset] + piece == frame[..offset + lens[i]];
      assert lens[..i + 1] == lens[..i] + [lens[i]];
      msgs, pieces := msgs + [m], pieces + [piece];
      offset := offset + lens[i];
      i := i + 1;
    }
    assert lens[..i] == lens && frame[..offset] == frame;
  }

  /** A frame past the shaping window on an h2 carrier: even pieces, lossless, each message in one record. */
  method H2CappedMessages(scheme: Scheme, cap: nat, frame: seq<Byte>, pads: nat -> seq<Byte>)
    returns (msgs: seq<seq<Byte>>, ghost pieces: seq<seq<Byte>>)
    requires scheme.Valid() && AllPads(scheme, pads)
    ensures CarriesPieces(scheme, frame, msgs, pieces, EvenPieceLens(|frame|, cap)) && AllFramed(scheme, msgs, pieces, pads)
    ensures IsCut(scheme, frame, msgs) && Delivers(scheme, msgs, frame)
    ensures H2UplinkCap(scheme) == Some(cap) ==> AllFitOneRecord(msgs)
  {
    hide Delivers, PieceCount, EvenPieceLens, EarlyShape.Sum, FitsOneRecord;
    var lens := EvenPieceLens(|frame|, cap);
    EvenPieces(|frame|, cap);
    msgs, pieces := SendPieces(scheme, lens, frame, pads);
    assert IsCut(scheme, frame, msgs);
    CutDelivers(scheme, frame, msgs);
  }

  // ── Shaped messages ────────────────────────────────────────────────────────

  /** Every planned piece cut to the cap, in order. */
  function CutPieces(pieces: seq<nat>, cap: nat): seq<nat> {
    if pieces == [] then [] else CutPieces(pieces[..|pieces| - 1], cap) + EvenPieceLens(pieces[|pieces| - 1], cap)
  }

  lemma CutOne(len: nat, cap: nat)
    ensures CutPieces([len], cap) == EvenPieceLens(len, cap)
  {
    hide EvenPieceLens;
    assert [len][..0] == [];
    assert [] + EvenPieceLens(len, cap) == EvenPieceLens(len, cap);
  }

  lemma {:induction false} CutPiecesKeepSum(pieces: seq<nat>, cap: nat)
    ensures EarlyShape.Sum(CutPieces(pieces, cap)) == EarlyShape.Sum(pieces)
    ensures cap >= 1 ==> forall i :: 0 <= i < |CutPieces(pieces, cap)| ==> CutPieces(pieces, cap)[i] <= cap
  {
    hide EvenPieceLens;
    if pieces != [] {
      var n := |pieces| - 1;
      CutPiecesKeepSum(pieces[..n], cap);
      EvenPieces(pieces[n], cap);
      EarlyShape.SumAppend(CutPieces(pieces[..n], cap), EvenPieceLens(pieces[n], cap));
    }
  }

  /** Pieces within the cap stay as planned. */
  lemma {:induction false} SmallPiecesStay(pieces: seq<nat>, cap: nat)
    requires forall i :: 0 <= i < |pieces| ==> pieces[i] <= cap
    ensures CutPieces(pieces, cap) == pieces
  {
    if pieces != [] {
      var n := |pieces| - 1;
      SmallPiecesStay(pieces[..n], cap);
      EvenPieces(pieces[n], cap);
      assert pieces[..n] + [pieces[n]] == pieces;
    }
  }

  /** The cap leaves a client's pieces inside the window alone and cuts only what is past the byte budget. */
  lemma WindowPiecesStay(scheme: Scheme, w: EarlyShape.Window, len: nat, plan: EarlyShape.Plan)
    requires EarlyShape.Fits(EarlyShape.ClientToServer, w, len, plan) && EarlyShape.Splits(EarlyShape.ClientToServer, w, len)
    requires H2UplinkCap(scheme).Some?
    ensures var cap, rest := H2UplinkCap(scheme).value, len - EarlyShape.Shaped(w, len);
            var k := |plan.pieces| - (if rest > 0 then 1 else 0);
            CutPieces(plan.pieces, cap) == plan.pieces[..k] + (if rest > 0 then EvenPieceLens(rest, cap) else [])
  {
    hide EvenPieceLens, EarlyShape.Sum;
    var cap, rest := H2UplinkCap(scheme).value, len - EarlyShape.Shaped(w, len);
    var k := |plan.pieces| - (if rest > 0 then 1 else 0);
    SmallPiecesStay(plan.pieces[..k], cap);
    assert rest == 0 ==> plan.pieces[..k] == plan.pieces;
  }

  /** The lengths a plan asks for, cut to the cap if there is one. */
  function PlannedLens(plan: EarlyShape.Plan, h2Cap: Option<nat>): seq<nat> {
    if h2Cap.Some? then CutPieces(plan.pieces, h2Cap.value) else plan.pieces
  }

  /**
   A plan carried out: the covers, then the pieces. With padding off, covers are bytes
   like any other, so such a plan delivers the frame only without them.
   */
  method ShapedMessages(scheme: Scheme, shaper: EarlyShape.EarlyShaper, frame: seq<Byte>, h2Cap: Option<nat>,
                        draw: nat -> nat, noise: nat -> Byte, pads: nat -> seq<Byte>)
    returns (msgs: seq<seq<Byte>>, ghost plan: EarlyShape.Plan, ghost pieces: seq<seq<Byte>>)
    requires scheme.Valid() && AllPads(scheme, pads)
    modifies shaper
    ensures EarlyShape.Fits(shaper.direction, old(shaper.View()), |frame|, plan)
    ensures shaper.View() == EarlyShape.After(shaper.direction, old(shaper.View()), |frame|)
    ensures |plan.covers| <= |msgs|
    ensures forall i :: 0 <= i < |plan.covers| ==> |msgs[i]| == PADDING_FRAME_HEADER_LEN + plan.covers[i]
    ensures CarriesPieces(scheme, frame, msgs[|plan.covers|..], pieces, PlannedLens(plan, h2Cap))
    ensures AllFramed(scheme, msgs[|plan.covers|..], pieces, pads)
    ensures IsCut(scheme, frame, msgs) <==> scheme.Enabled() || plan.covers == []
    ensures Delivers(scheme, msgs, frame) <==> scheme.Enabled() || plan.covers == []
    ensures h2Cap.Some? && H2UplinkCap(scheme) == h2Cap ==> AllFitOneRecord(msgs)
  {
    hide Delivers, EarlyShape.Sum, CutPieces, EarlyShape.PiecesFit, Joined, IsCut, CarriesPieces, AllFramed, AllCarry;
    var p := shaper.MakePlan(|frame|, draw);
    plan := p;
    var lens := p.pieces;
    if h2Cap.Some? {
      CutPiecesKeepSum(p.pieces, h2Cap.value);
      lens := CutPieces(p.pieces, h2Cap.value);
    }
    PlanCovers(shaper.direction, old(shaper.View()), |frame|, p);
    var covers, carried := SendCovers(scheme, p.covers, noise);
    var own;
    own, pieces := SendPieces(scheme, lens, frame, pads);
    msgs := covers + own;
    assert msgs[|p.covers|..] == own;
    CoversThenPieces(scheme, frame, covers, carried, own, pieces, lens);
  }

  lemma CarryAppend(scheme: Scheme, a: seq<seq<Byte>>, x: seq<seq<Byte>>, b: seq<seq<Byte>>, y: seq<seq<Byte>>)
    requires AllCarry(scheme, a, x) && AllCarry(scheme, b, y)
    ensures AllCarry(scheme, a + b, x + y)
  {
    hide Delivers;
  }

  lemma CoversThenPieces(scheme: Scheme, frame: seq<Byte>, covers: seq<seq<Byte>>, carried: seq<seq<Byte>>,
                         own: seq<seq<Byte>>, pieces: seq<seq<Byte>>, lens: seq<nat>)
    requires AllCarry(scheme, covers, carried) && CarriesPieces(scheme, frame, own, pieces, lens)
    ensures IsCut(scheme, frame, covers + own) <==> Joined(carried) == []
    ensures Delivers(scheme, covers + own, frame) <==> Joined(carried) == []
  {
    hide Delivers, AllCarry, Joined, IsCut;
    CarryAppend(scheme, covers, carried, own, pieces);
    JoinedAppend(carried, pieces);
    CutIff(scheme, frame, covers + own, carried + pieces, Joined(carried));
  }

  lemma CutIff(scheme: Scheme, frame: seq<Byte>, msgs: seq<seq<Byte>>, pieces: seq<seq<Byte>>, extra: seq<Byte>)
    requires AllCarry(scheme, msgs, pieces) && Joined(pieces) == extra + frame
    ensures IsCut(scheme, frame, msgs) <==> extra == []
    ensures Delivers(scheme, msgs, frame) <==> extra == []
  {
    hide Delivers, AllCarry;
    AllCarryDelivers(scheme, msgs, pieces);
    if extra == [] { assert extra + frame == frame; }
    if IsCut(scheme, frame, msgs) { CutDelivers(scheme, frame, msgs); }
    if Delivers(scheme, msgs, frame) { DeliversUnique(scheme, msgs, frame, extra + frame); assert |extra + frame| == |frame|; }
  }

  lemma PlanCovers(d: EarlyShape.Direction, w: EarlyShape.Window, len: nat, plan: EarlyShape.Plan)
    requires EarlyShape.Fits(d, w, len, plan)
    ensures forall i :: 0 <= i < |plan.covers| ==> plan.covers[i] <= 100
    ensures plan.covers != [] ==> w.coversPending
  {
  }

  method SendCovers(scheme: Scheme, covers: seq<nat>, noise: nat -> Byte)
    returns (msgs: seq<seq<Byte>>, ghost carried: seq<seq<Byte>>)
    requires forall i :: 0 <= i < |covers| ==> covers[i] <= 100
    ensures |msgs| == |covers|
    ensures forall i :: 0 <= i < |covers| ==> |msgs[i]| == PADDING_FRAME_HEADER_LEN + covers[i]
    ensures AllCarry(scheme, msgs, carried) && AllFitOneRecord(msgs)
    ensures Joined(carried) == [] <==> scheme.Enabled() || covers == []
  {
    hide Delivers, Joined, Frame, FitsOneRecord;
    msgs, carried := [], [];
    JoinedNone();
    var i := 0;
    while i < |covers|
      invariant 0 <= i <= |covers| && |msgs| == i
      invariant forall k :: 0 <= k < i ==> |msgs[k]| == PADDING_FRAME_HEADER_LEN + covers[k]
      invariant AllCarry(scheme, msgs, carried) && AllFitOneRecord(msgs)
      invariant Joined(carried) == [] <==> scheme.Enabled() || i == 0
    {
      var n := if covers[i] < MAX_PADDING_SEGMENT then covers[i] else MAX_PADDING_SEGMENT;
      var pad := seq(n, k requires 0 <= k < n => noise(k));
      var r := EncodeFrameInto([], [], pad);
      assert r.value == Frame([], pad);
      CoverDelivers(scheme, pad);
      CoverSize(pad);
      JoinedSnoc(carried, if scheme.Enabled() then [] else Frame([], pad));
      msgs, carried := msgs + [r.value], carried + [if scheme.Enabled() then [] else Frame([], pad)];
      i := i + 1;
    }
  }

  lemma CoverSize(pad: seq<Byte>)
    requires |pad| <= 100
    ensures |Frame([], pad)| == PADDING_FRAME_HEADER_LEN + |pad| && FitsOneRecord(|Frame([], pad)|)
  {
  }

  lemma JoinedNone()
    ensures Joined([]) == []
  {
  }
}
