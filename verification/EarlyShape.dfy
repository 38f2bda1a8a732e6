/**
 Early-session shaping: how the first messages of a session are cut into pieces,
 within a window of messages and bytes, with a few pad-only covers in front of
 the first cut message.

 `draw` stands for the random draws, by position; the plan clamps every draw.
 */
module EarlyShape {
  datatype Direction = ClientToServer | ServerToClient

  /** Pad-only frames to send first, then the piece lengths. */
  datatype Plan = Plan(covers: seq<nat>, pieces: seq<nat>)

  datatype Window = Window(msgsLeft: nat, bytesLeft: nat, coversPending: bool)

  function SplitAbove(d: Direction): nat { if d.ClientToServer? then 900 else 1500 }
  function PieceMin(d: Direction): nat { if d.ClientToServer? then 300 else 600 }
  function PieceMax(d: Direction): nat { if d.ClientToServer? then 850 else 2800 }

  function Sum(s: seq<nat>): nat {
    if s == [] then 0 else Sum(s[..|s| - 1]) + s[|s| - 1]
  }

  lemma SumSnoc(s: seq<nat>, x: nat)
    ensures Sum(s + [x]) == Sum(s) + x
  {
    assert (s + [x])[..|s|] == s;
  }

  lemma {:induction false} SumAppend(a: seq<nat>, b: seq<nat>)
    ensures Sum(a + b) == Sum(a) + Sum(b)
  {
    if b == [] {
      assert a + b == a;
    } else {
      assert a + b == (a + b[..|b| - 1]) + [b[|b| - 1]];
      SumSnoc(a + b[..|b| - 1], b[|b| - 1]);
      SumAppend(a, b[..|b| - 1]);
    }
  }

  predicate Active(w: Window) { w.msgsLeft > 0 && w.bytesLeft > 0 }

  function Shaped(w: Window, len: nat): nat {
    if len < w.bytesLeft then len else w.bytesLeft
  }

  /** The message is cut: inside the window, with enough of it in the byte budget. */
  predicate Splits(d: Direction, w: Window, len: nat) {
    len > 0 && Active(w) && Shaped(w, len) > SplitAbove(d)
  }

  function After(d: Direction, w: Window, len: nat): Window {
    if len == 0 || !Active(w) then w
    else Window(w.msgsLeft - 1, w.bytesLeft - Shaped(w, len), w.coversPending && !Splits(d, w, len))
  }

  predicate AllWithin(s: seq<nat>, lo: nat, hi: nat) {
    forall i :: 0 <= i < |s| ==> lo <= s[i] <= hi
  }

  /** Pieces of the size asked for up to the byte budget, and one piece for the rest. */
  predicate PiecesFit(d: Direction, w: Window, len: nat, pieces: seq<nat>) {
    var rest := len - Shaped(w, len);
    var k := |pieces| - (if rest > 0 then 1 else 0);
    && k >= 2
    && AllWithin(pieces[..k], PieceMin(d), PieceMax(d))
    && Sum(pieces[..k]) == Shaped(w, len)
    && (rest > 0 ==> pieces[k] == rest)
  }

  predicate CoversFit(w: Window, covers: seq<nat>) {
    if w.coversPending then 1 <= |covers| <= 2 && AllWithin(covers, 40, 100) else covers == []
  }

  /** What a plan must be: nothing changed outside the window and for small messages. */
  predicate Fits(d: Direction, w: Window, len: nat, plan: Plan) {
    && Sum(plan.pieces) == len
    && if Splits(d, w, len) then PiecesFit(d, w, len, plan.pieces) && CoversFit(w, plan.covers)
       else plan == Plan([], [len])
  }

  function Clamp(x: nat, lo: nat, hi: nat): (c: nat)
    requires lo <= hi
    ensures lo <= c <= hi && (lo <= x <= hi ==> c == x)
  {
    if x < lo then lo else if x > hi then hi else x
  }

  // ── The planner ────────────────────────────────────────────────────────────

  class EarlyShaper {
    const direction: Direction
    var msgsLeft: nat
    var bytesLeft: nat
    var coversPending: bool

    ghost function View(): Window
      reads this
    {
      Window(msgsLeft, bytesLeft, coversPending)
    }

    constructor (direction: Direction, coversAllowed: bool, msgs: nat, bytes: nat, coin: bool)
      requires 6 <= msgs <= 10 && 16 * 1024 <= bytes <= 24 * 1024
      ensures this.direction == direction
      ensures View() == Window(msgs, bytes, coversAllowed && direction.ClientToServer? && coin)
    {
      this.direction, msgsLeft, bytesLeft := direction, msgs, bytes;
      coversPending := coversAllowed && direction.ClientToServer? && coin;
    }

    method MakePlan(len: nat, draw: nat -> nat) returns (plan: Plan)
      modifies this
      ensures Fits(direction, old(View()), len, plan)
      ensures Splits(direction, old(View()), len) ==> PlanDrawn(direction, old(View()), len, draw, plan)
      ensures View() == After(direction, old(View()), len)
    {
      hide Sum, AllWithin, PiecesFit, TakesDraws, CoversDrawn;
      ghost var w := View();
      SumOne(len);
      if len == 0 || msgsLeft == 0 || bytesLeft == 0 {
        return Plan([], [len]);
      }
      msgsLeft := msgsLeft - 1;
      var splitAbove := SplitAbove(direction);
      var shaped := if len < bytesLeft then len else bytesLeft;
      bytesLeft := bytesLeft - shaped;
      if len <= splitAbove || shaped <= splitAbove {
        return Plan([], [len]);
      }
      var covers, next := [], 0;
      if coversPending {
        coversPending := false;
        covers, next := DrawCovers(draw);
      }
      var pieces := Cut(direction, shaped, draw, next);
      CutFits(direction, w, len, pieces);
      assert forall rest :: (pieces + [rest])[..|pieces| - 1] == pieces[..|pieces| - 1];
      if len > shaped {
        pieces := pieces + [len - shaped];
      }
      return Plan(covers, pieces);
    }
  }

  lemma SumOne(x: nat)
    ensures Sum([x]) == x
  {
    SumSnoc([], x);
    assert [] + [x] == [x];
  }

  /** Pieces of the budgeted part, with one more for what is past the budget. */
  lemma CutFits(d: Direction, w: Window, len: nat, pieces: seq<nat>)
    requires |pieces| >= 2 && AllWithin(pieces, PieceMin(d), PieceMax(d)) && Sum(pieces) == Shaped(w, len)
    ensures var rest := len - Shaped(w, len);
            var all := if rest > 0 then pieces + [rest] else pieces;
            PiecesFit(d, w, len, all) && Sum(all) == len
  {
    hide Sum;
    var rest := len - Shaped(w, len);
    if rest > 0 {
      SumSnoc(pieces, rest);
      assert (pieces + [rest])[..|pieces|] == pieces;
    } else {
      assert pieces[..|pieces|] == pieces;
    }
  }

  /** Number and sizes of the covers are the drawn ones, where those are possible. */
  predicate CoversDrawn(draw: nat -> nat, covers: seq<nat>) {
    && (1 <= draw(0) <= 2 ==> |covers| == draw(0))
    && (|covers| > 0 && 40 <= draw(1) <= 100 ==> covers[0] == draw(1))
    && (|covers| > 1 && 40 <= draw(2) <= 100 ==> covers[1] == draw(2))
  }

  method DrawCovers(draw: nat -> nat) returns (covers: seq<nat>, next: nat)
    ensures 1 <= |covers| <= 2 && AllWithin(covers, 40, 100)
    ensures CoversDrawn(draw, covers) && next == 1 + |covers|
  {
    var count := Clamp(draw(0), 1, 2);
    covers, next := [], 1;
    while |covers| < count
      invariant |covers| <= count && AllWithin(covers, 40, 100) && next == 1 + |covers|
      invariant |covers| > 0 && 40 <= draw(1) <= 100 ==> covers[0] == draw(1)
      invariant |covers| > 1 && 40 <= draw(2) <= 100 ==> covers[1] == draw(2)
    {
      covers := covers + [Clamp(draw(next), 40, 100)];
      next := next + 1;
    }
  }

  /** Piece `i` has the drawn size, if that is a possible one and leaves room for one more piece. */
  predicate TakesDraw(d: Direction, shaped: nat, draw: nat -> nat, first: nat, pieces: seq<nat>, i: nat)
    requires i < |pieces|
  {
    var drawn := draw(first + i);
    PieceMin(d) <= drawn <= PieceMax(d) && Sum(pieces[..i]) + drawn + PieceMin(d) <= shaped ==> pieces[i] == drawn
  }

  ghost predicate TakesDraws(d: Direction, shaped: nat, draw: nat -> nat, first: nat, pieces: seq<nat>) {
    forall i: nat :: i < |pieces| ==> TakesDraw(d, shaped, draw, first, pieces, i)
  }

  lemma TakesAsBefore(d: Direction, shaped: nat, draw: nat -> nat, first: nat, pieces: seq<nat>, p: nat, i: nat)
    requires i < |pieces| && TakesDraw(d, shaped, draw, first, pieces, i)
    ensures TakesDraw(d, shaped, draw, first, pieces + [p], i)
  {
    assert (pieces + [p])[..i] == pieces[..i];
  }

  lemma TakesOneMore(d: Direction, shaped: nat, draw: nat -> nat, first: nat, pieces: seq<nat>, p: nat)
    requires TakesDraws(d, shaped, draw, first, pieces)
    requires TakesDraw(d, shaped, draw, first, pieces + [p], |pieces|)
    ensures TakesDraws(d, shaped, draw, first, pieces + [p])
  {
    hide TakesDraw;
    forall i: nat | i < |pieces + [p]| ensures TakesDraw(d, shaped, draw, first, pieces + [p], i) {
      if i < |pieces| { TakesAsBefore(d, shaped, draw, first, pieces, p, i); }
    }
  }

  /** A plan uses its draws in order: the covers first, then every piece but the last of those inside the budget. */
  ghost predicate PlanDrawn(d: Direction, w: Window, len: nat, draw: nat -> nat, plan: Plan) {
    var k := |plan.pieces| - (if len > Shaped(w, len) then 2 else 1);
    && (w.coversPending ==> CoversDrawn(draw, plan.covers))
    && 0 <= k && TakesDraws(d, Shaped(w, len), draw, if w.coversPending then 1 + |plan.covers| else 0, plan.pieces[..k])
  }

  /** Every draw leaves room for one more piece, so the tail is never too small. */
  method Cut(d: Direction, shaped: nat, draw: nat -> nat, first: nat) returns (pieces: seq<nat>)
    requires shaped > SplitAbove(d)
    ensures |pieces| >= 2 && AllWithin(pieces, PieceMin(d), PieceMax(d)) && Sum(pieces) == shaped
    ensures TakesDraws(d, shaped, draw, first, pieces[..|pieces| - 1])
  {
    hide Sum, TakesDraws;
    assert TakesDraws(d, shaped, draw, first, []) by { NoDraws(d, shaped, draw, first); }
    NoSum();
    var lo, top := PieceMin(d), PieceMax(d);
    var left, next := shaped, first;
    pieces := [];
    while |pieces| == 0 || left > top
      invariant AllWithin(pieces, lo, top)
      invariant Sum(pieces) + left == shaped && next == first + |pieces|
      invariant TakesDraws(d, shaped, draw, first, pieces)
      invariant if |pieces| == 0 then left >= 2 * lo else left >= lo
      decreases left
    {
      var hi := if top < left - lo then top else left - lo;
      var p := Clamp(draw(next), lo, hi);
      next := next + 1;
      SumSnoc(pieces, p);
      assert (pieces + [p])[..|pieces|] == pieces;
      TakesOneMore(d, shaped, draw, first, pieces, p);
      pieces := pieces + [p];
      left := left - p;
    }
    SumSnoc(pieces, left);
    assert (pieces + [left])[..|pieces|] == pieces;
    pieces := pieces + [left];
  }

  lemma NoDraws(d: Direction, shaped: nat, draw: nat -> nat, first: nat)
    ensures TakesDraws(d, shaped, draw, first, [])
  {
  }

  // ── A whole session ────────────────────────────────────────────────────────

  /** Plans for the messages of a session, one after the other. */
  predicate IsSession(d: Direction, w: Window, lens: seq<nat>, plans: seq<Plan>)
    decreases |lens|
  {
    if lens == [] then plans == []
    else plans != [] && Fits(d, w, lens[0], plans[0]) && IsSession(d, After(d, w, lens[0]), lens[1..], plans[1..])
  }

  function Cuts(plans: seq<Plan>): nat {
    if plans == [] then 0 else (if |plans[0].pieces| > 1 then 1 else 0) + Cuts(plans[1..])
  }

  function CoverCount(plans: seq<Plan>): nat {
    if plans == [] then 0 else |plans[0].covers| + CoverCount(plans[1..])
  }

  /** Bytes of all pieces that came out of cutting. */
  function CutBytes(d: Direction, w: Window, lens: seq<nat>): nat
    decreases |lens|
  {
    if lens == [] then 0
    else (if Splits(d, w, lens[0]) then Shaped(w, lens[0]) else 0) + CutBytes(d, After(d, w, lens[0]), lens[1..])
  }

  /** The window bounds the session: messages cut, bytes cut, and covers, which come at most once. */
  lemma {:induction false} SessionBounded(d: Direction, w: Window, lens: seq<nat>, plans: seq<Plan>)
    requires IsSession(d, w, lens, plans)
    ensures Cuts(plans) <= w.msgsLeft
    ensures CutBytes(d, w, lens) <= w.bytesLeft
    ensures CoverCount(plans) <= if w.coversPending then 2 else 0
    decreases |lens|
  {
    hide Sum, AllWithin;
    if lens != [] { SessionBounded(d, After(d, w, lens[0]), lens[1..], plans[1..]); }
  }

  /** Once the window is closed every message goes out whole. */
  lemma {:induction false} ClosedWindowPassesThrough(d: Direction, w: Window, lens: seq<nat>, plans: seq<Plan>, i: nat)
    requires IsSession(d, w, lens, plans) && !Active(w) && i < |lens|
    ensures i < |plans| && plans[i] == Plan([], [lens[i]])
    decreases |lens|
  {
    hide Sum, AllWithin;
    if i > 0 { ClosedWindowPassesThrough(d, w, lens[1..], plans[1..], i - 1); }
  }

  // ── What becomes of each message ───────────────────────────────────────────

  function NonEmpty(lens: seq<nat>): nat {
    if lens == [] then 0 else (if lens[0] > 0 then 1 else 0) + NonEmpty(lens[1..])
  }

  /** How much of message `i` is inside the byte budget. */
  function Budgeted(bytes: nat, lens: seq<nat>, i: nat): nat
    requires i < |lens|
  {
    var used := Sum(lens[..i]);
    if used >= bytes then 0 else if lens[i] < bytes - used then lens[i] else bytes - used
  }

  /** Message `i` is among the first `msgs` that are not empty, and enough of it is inside the budget. */
  predicate CutAt(d: Direction, msgs: nat, bytes: nat, lens: seq<nat>, i: nat)
    requires i < |lens|
  {
    NonEmpty(lens[..i]) < msgs && Budgeted(bytes, lens, i) > if d.ClientToServer? then 900 else 1500
  }

  /** At least two pieces of the size asked for make up what is budgeted, and one more is the rest. */
  predicate CutInto(d: Direction, len: nat, budgeted: nat, pieces: seq<nat>) {
    var k := |pieces| - (if len > budgeted then 1 else 0);
    && k >= 2 && Sum(pieces[..k]) == budgeted && (len > budgeted ==> pieces[k] == len - budgeted)
    && (if d.ClientToServer? then AllWithin(pieces[..k], 300, 850) else AllWithin(pieces[..k], 600, 2800))
  }

  function WindowAfter(d: Direction, w: Window, lens: seq<nat>): Window
    decreases |lens|
  {
    if lens == [] then w else WindowAfter(d, After(d, w, lens[0]), lens[1..])
  }

  lemma {:induction false} SessionAt(d: Direction, w: Window, lens: seq<nat>, plans: seq<Plan>, i: nat)
    requires IsSession(d, w, lens, plans) && i < |lens|
    ensures i < |plans| && Fits(d, WindowAfter(d, w, lens[..i]), lens[i], plans[i])
    decreases i
  {
    hide Fits, After;
    if i > 0 {
      SessionAt(d, After(d, w, lens[0]), lens[1..], plans[1..], i - 1);
      assert lens[..i][1..] == lens[1..][..i - 1];
    }
  }

  lemma {:induction false} StaysClosed(d: Direction, w: Window, lens: seq<nat>)
    requires !Active(w)
    ensures WindowAfter(d, w, lens) == w
    decreases |lens|
  {
    if lens != [] { StaysClosed(d, w, lens[1..]); }
  }

  lemma SumCons(s: seq<nat>)
    requires s != []
    ensures Sum(s) == s[0] + Sum(s[1..])
  {
    hide Sum;
    SumOne(s[0]);
    SumAppend([s[0]], s[1..]);
    assert [s[0]] + s[1..] == s;
  }

  /** The window closes with its messages or its bytes; until then both are counted exactly. */
  lemma {:induction false} WindowIs(d: Direction, w: Window, lens: seq<nat>)
    ensures var v := WindowAfter(d, w, lens);
            && (Active(v) <==> NonEmpty(lens) < w.msgsLeft && Sum(lens) < w.bytesLeft)
            && (Active(v) ==> v.msgsLeft == w.msgsLeft - NonEmpty(lens) && v.bytesLeft == w.bytesLeft - Sum(lens))
    decreases |lens|
  {
    hide Sum;
    if lens == [] {
      NoSum();
    } else {
      SumCons(lens);
      if Active(w) { WindowIs(d, After(d, w, lens[0]), lens[1..]); } else { StaysClosed(d, w, lens); }
    }
  }

  lemma NoSum()
    ensures Sum([]) == 0
  {
  }

  lemma SplitsIffCutAt(d: Direction, w: Window, lens: seq<nat>, i: nat)
    requires i < |lens|
    ensures var v := WindowAfter(d, w, lens[..i]);
            && (Splits(d, v, lens[i]) <==> CutAt(d, w.msgsLeft, w.bytesLeft, lens, i))
            && (Splits(d, v, lens[i]) ==> Shaped(v, lens[i]) == Budgeted(w.bytesLeft, lens, i))
  {
    hide Sum, WindowAfter;
    WindowIs(d, w, lens[..i]);
  }

  /** Covers are pending until a message is cut. */
  lemma {:induction false} CoversWait(d: Direction, w: Window, lens: seq<nat>, i: nat)
    requires i <= |lens|
    ensures WindowAfter(d, w, lens[..i]).coversPending <==>
              w.coversPending && forall j :: 0 <= j < i ==> !CutAt(d, w.msgsLeft, w.bytesLeft, lens, j)
    decreases i
  {
    hide Sum, CutAt, Splits;
    if i > 0 {
      CoversWait(d, w, lens, i - 1);
      WindowSnoc(d, w, lens[..i - 1], lens[i - 1]);
      assert lens[..i] == lens[..i - 1] + [lens[i - 1]];
      SplitsIffCutAt(d, w, lens, i - 1);
      SplitsInside(d, WindowAfter(d, w, lens[..i - 1]), lens[i - 1]);
    }
  }

  lemma SplitsInside(d: Direction, w: Window, len: nat)
    ensures Splits(d, w, len) ==> len > 0 && Active(w)
  {
  }

  lemma {:induction false} WindowSnoc(d: Direction, w: Window, lens: seq<nat>, len: nat)
    ensures WindowAfter(d, w, lens + [len]) == After(d, WindowAfter(d, w, lens), len)
    decreases |lens|
  {
    hide After;
    if lens == [] {
      assert ([] + [len])[1..] == [];
    } else {
      assert (lens + [len])[1..] == lens[1..] + [len];
      WindowSnoc(d, After(d, w, lens[0]), lens[1..], len);
    }
  }

  /**
   In every session, stated on the message lengths alone: exactly the messages with
   enough bytes inside the window are cut, into pieces of the size asked for; covers
   come exactly before the first of them, if at all; every other message goes out whole.
   */
  lemma SessionShapes(d: Direction, w: Window, lens: seq<nat>, plans: seq<Plan>, i: nat)
    requires IsSession(d, w, lens, plans) && i < |lens|
    ensures i < |plans|
    ensures if CutAt(d, w.msgsLeft, w.bytesLeft, lens, i)
            then CutInto(d, lens[i], Budgeted(w.bytesLeft, lens, i), plans[i].pieces)
            else plans[i] == Plan([], [lens[i]])
    ensures plans[i].covers != [] <==>
              w.coversPending && CutAt(d, w.msgsLeft, w.bytesLeft, lens, i)
              && forall j :: 0 <= j < i ==> !CutAt(d, w.msgsLeft, w.bytesLeft, lens, j)
    ensures |plans[i].covers| <= 2 && AllWithin(plans[i].covers, 40, 100)
  {
    hide Sum, CutAt, Splits, WindowAfter, Budgeted;
    SessionAt(d, w, lens, plans, i);
    SplitsIffCutAt(d, w, lens, i);
    CoversWait(d, w, lens, i);
  }
}
