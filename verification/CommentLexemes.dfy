/**
 What the comment masker means: text falls into lexemes, described here without
 the lexer's modes and counters, and masking blanks the comments among them.
 */
module CommentLexemes {
  import opened CommentMask

  /** The inside of a block comment: characters and comments nested in it. */
  datatype Item = Plain(c: char) | Inner(items: seq<Item>, closed: bool)

  datatype Lexeme =
    | Line(text: string)
    | Comment(items: seq<Item>, closed: bool)
    | Quoted(quote: char, body: string, closed: bool)
    | RawString(hashes: nat, body: string, closed: bool)
    | Other(c: char)

  // ── Texts ──────────────────────────────────────────────────────────────────

  function End(closed: bool): string { if closed then "*/" else "" }

  function ItemText(item: Item): string
    decreases item
  {
    match item
    case Plain(c) => [c]
    case Inner(items, closed) => "/*" + Text(items) + End(closed)
  }

  function Text(items: seq<Item>): string
    decreases items
  {
    if items == [] then "" else ItemText(items[0]) + Text(items[1..])
  }

  function Rep(n: nat): string { seq(n, _ => '#') }

  function LexemeText(l: Lexeme): string {
    match l
    case Line(text) => text
    case Comment(items, closed) => "/*" + Text(items) + End(closed)
    case Quoted(quote, body, closed) => [quote] + body + (if closed then [quote] else "")
    case RawString(n, body, closed) => "r" + Rep(n) + "\"" + body + (if closed then "\"" + Rep(n) else "")
    case Other(c) => [c]
  }

  function Joined(ls: seq<Lexeme>): string {
    if ls == [] then "" else LexemeText(ls[0]) + Joined(ls[1..])
  }

  /** The text with its comments blanked. */
  function JoinedMasked(ls: seq<Lexeme>): string {
    if ls == [] then ""
    else
      (if ls[0].Line? || ls[0].Comment? then Blank(LexemeText(ls[0])) else LexemeText(ls[0])) + JoinedMasked(ls[1..])
  }

  // ── What a lexeme is ───────────────────────────────────────────────────────

  /** Nesting is read from the left: no plain character opens or closes a comment with what follows it. */
  predicate Tight(items: seq<Item>, after: string)
    decreases items
  {
    items == []
    || (&& Tight(items[1..], after)
        && var follow := Text(items[1..]) + after;
           match items[0]
           case Plain(c) => !("/*" <= [c] + follow) && !("*/" <= [c] + follow)
           case Inner(inner, closed) => Tight(inner, End(closed) + follow) && (!closed ==> follow == ""))
  }

  /** A character is escaped when the one before it is a backslash that is not itself escaped. */
  predicate Escaped(t: string, k: nat)
    requires k <= |t|
  {
    k > 0 && t[k - 1] == '\\' && !Escaped(t, k - 1)
  }

  predicate QuotesEscaped(body: string, quote: char) {
    forall k :: 0 <= k < |body| && body[k] == quote ==> Escaped(body, k)
  }

  /** No quote in the first `n` characters is followed by enough hashes. */
  predicate NoRawEnd(s: string, n: nat, hashes: nat)
    requires n <= |s|
  {
    forall k {:trigger s[k]} :: 0 <= k < n && s[k] == '"' ==> Hashes(s[k + 1..]) < hashes
  }

  predicate IsLexeme(l: Lexeme, rest: string) {
    match l
    case Line(text) => "//" <= text && '\n' !in text && (rest != "" ==> rest[0] == '\n')
    case Comment(items, closed) => Tight(items, End(closed) + rest) && (!closed ==> rest == "")
    case Quoted(quote, body, closed) =>
      && (quote == '"' || quote == '\'')
      && QuotesEscaped(body, quote)
      && (if closed then !Escaped(body, |body|) else rest == "")
    case RawString(n, body, closed) =>
      && NoRawEnd(body + (if closed then "\"" + Rep(n) + rest else ""), |body|, n)
      && (!closed ==> rest == "")
    case Other(c) =>
      && c != '"' && c != '\''
      && !("//" <= [c] + rest) && !("/*" <= [c] + rest) && !OpensRaw([c] + rest)
  }

  predicate AreLexemes(ls: seq<Lexeme>) {
    ls == [] || (IsLexeme(ls[0], Joined(ls[1..])) && AreLexemes(ls[1..]))
  }

  // ── Masking a lexeme ───────────────────────────────────────────────────────

  lemma BlankAppend(a: string, b: string)
    ensures Blank(a + b) == Blank(a) + Blank(b)
  {
  }

  /** Masking text whose first move is known. */
  lemma MaskMove(head: string, rest: string, m: Mode, m': Mode, comment: bool)
    requires WellFormed(m) && head + rest != "" && Next(head + rest, m) == Token(|head|, m', comment)
    ensures WellFormed(m')
    ensures Mask(head + rest, m) == (if comment then Blank(head) else head) + Mask(rest, m')
  {
    hide Next, Blank;
    assert (head + rest)[..|head|] == head && (head + rest)[|head|..] == rest;
  }

  lemma BlockOpens(rest: string, d: nat)
    requires d > 0
    ensures Mask("/*" + rest, Block(d)) == "  " + Mask(rest, Block(d + 1))
    ensures Mask("*/" + rest, Block(d)) == "  " + Mask(rest, if d == 1 then Code else Block(d - 1))
  {
    hide Mask;
    var open, close := "/*" + rest, "*/" + rest;
    assert open[..2] == "/*" && close[..2] == "*/";
    assert close[0] == '*' && open[0] == '/';
    MaskMove("/*", rest, Block(d), Block(d + 1), true);
    MaskMove("*/", rest, Block(d), if d == 1 then Code else Block(d - 1), true);
    assert Blank("/*") == "  " && Blank("*/") == "  ";
  }

  lemma BlockPlain(c: char, rest: string, d: nat)
    requires d > 0 && !("/*" <= [c] + rest) && !("*/" <= [c] + rest)
    ensures Mask([c] + rest, Block(d)) == Blank([c]) + Mask(rest, Block(d))
  {
    hide Mask, Blank;
    MaskMove([c], rest, Block(d), Block(d), true);
  }

  lemma TextCons(items: seq<Item>, after: string)
    requires items != []
    ensures Text(items) == ItemText(items[0]) + Text(items[1..])
    ensures Text(items) + after == ItemText(items[0]) + (Text(items[1..]) + after)
  {
  }

  lemma TightCons(items: seq<Item>, after: string)
    requires items != [] && Tight(items, after)
    ensures Tight(items[1..], after)
    ensures var follow := Text(items[1..]) + after;
            match items[0]
            case Plain(c) => !("/*" <= [c] + follow) && !("*/" <= [c] + follow)
            case Inner(inner, closed) => Tight(inner, End(closed) + follow) && (!closed ==> follow == "")
  {
  }

  lemma NestedNone(after: string, d: nat)
    requires d > 0
    ensures Mask(Text([]) + after, Block(d)) == Blank(Text([])) + Mask(after, Block(d))
  {
    hide Mask;
    assert Text([]) + after == after;
    assert Blank("") == "";
    assert "" + Mask(after, Block(d)) == Mask(after, Block(d));
  }

  /** The depth counter follows the nesting: a whole body is blanked and leaves the depth as it was. */
  lemma {:induction false} NestedBody(items: seq<Item>, after: string, d: nat)
    requires d > 0 && Tight(items, after)
    ensures Mask(Text(items) + after, Block(d)) == Blank(Text(items)) + Mask(after, Block(d))
    decreases items, 0
  {
    hide Mask, Blank, Tight, Text;
    if items == [] {
      NestedNone(after, d);
    } else {
      var head, tail := ItemText(items[0]), Text(items[1..]);
      var masked := Mask(after, Block(d));
      TextCons(items, after);
      TightCons(items, after);
      NestedBody(items[1..], after, d);
      BlankAppend(head, tail);
      match items[0] {
        case Plain(c) => BlockPlain(c, tail + after, d);
        case Inner(inner, closed) => NestedItem(inner, closed, tail + after, d);
      }
      assert Blank(head) + (Blank(tail) + masked) == (Blank(head) + Blank(tail)) + masked;
    }
  }

  lemma {:induction false} NestedItem(inner: seq<Item>, closed: bool, follow: string, d: nat)
    requires d > 0 && Tight(inner, End(closed) + follow) && (!closed ==> follow == "")
    ensures var head := "/*" + Text(inner) + End(closed);
            Mask(head + follow, Block(d)) == Blank(head) + Mask(follow, Block(d))
    decreases inner, 1
  {
    hide Mask, Tight, Text;
    var text, after := Text(inner), End(closed) + follow;
    assert "/*" + text + End(closed) + follow == "/*" + (text + after);
    BlockOpens(text + after, d);
    NestedBody(inner, after, d + 1);
    NestedEnd(closed, follow, d);
    BlankAppend("/*", text);
    BlankAppend("/*" + text, End(closed));
    assert Blank("/*") == "  ";
    assert "  " + (Blank(text) + (Blank(End(closed)) + Mask(follow, Block(d))))
        == "  " + Blank(text) + Blank(End(closed)) + Mask(follow, Block(d));
  }

  lemma NestedEnd(closed: bool, follow: string, d: nat)
    requires d > 0 && (!closed ==> follow == "")
    ensures Mask(End(closed) + follow, Block(d + 1)) == Blank(End(closed)) + Mask(follow, Block(d))
  {
    if closed {
      BlockOpens(follow, d + 1);
      assert Blank("*/") == "  ";
    } else {
      assert End(closed) + follow == "";
    }
  }

  lemma MaskComment(items: seq<Item>, closed: bool, rest: string)
    requires IsLexeme(Comment(items, closed), rest)
    ensures Mask(LexemeText(Comment(items, closed)) + rest, Code)
         == Blank(LexemeText(Comment(items, closed))) + Mask(rest, Code)
  {
    hide Mask, Tight, Text, Blank, End;
    var text, end := Text(items), End(closed);
    var after, masked := end + rest, Mask(rest, Code);
    assert "/*" + text + end + rest == "/*" + (text + after);
    CommentOpens(text + after);
    NestedBody(items, after, 1);
    LastEnd(closed, rest);
    BlankAppend("/*", text);
    BlankAppend("/*" + text, end);
    assert Blank("/*") + (Blank(text) + (Blank(end) + masked)) == Blank("/*") + Blank(text) + Blank(end) + masked;
  }

  lemma CommentOpens(rest: string)
    ensures Mask("/*" + rest, Code) == Blank("/*") + Mask(rest, Block(1))
  {
    hide Mask, Blank;
    var s := "/*" + rest;
    assert s[..2] == "/*" && s[1] == '*';
    MaskMove("/*", rest, Code, Block(1), true);
  }

  lemma LastEnd(closed: bool, rest: string)
    requires !closed ==> rest == ""
    ensures Mask(End(closed) + rest, Block(1)) == Blank(End(closed)) + Mask(rest, Code)
  {
    if closed {
      BlockOpens(rest, 1);
      assert Blank("*/") == "  ";
    } else {
      assert End(closed) + rest == "";
    }
  }

  lemma {:induction false} LineLengthOf(text: string, rest: string)
    requires '\n' !in text && (rest != "" ==> rest[0] == '\n')
    ensures LineLength(text + rest) == |text|
  {
    if text == "" {
      assert text + rest == rest;
    } else {
      assert (text + rest)[1..] == text[1..] + rest;
      LineLengthOf(text[1..], rest);
    }
  }

  lemma MaskLine(text: string, rest: string)
    requires IsLexeme(Line(text), rest)
    ensures Mask(text + rest, Code) == Blank(text) + Mask(rest, Code)
  {
    hide Mask, Blank, LineLength;
    var s := text + rest;
    assert s[..2] == text[..2] == "//";
    assert s[2..] == text[2..] + rest;
    LineLengthOf(text[2..], rest);
    MaskMove(text, rest, Code, Code, true);
  }

  // ── Quoted lexemes ─────────────────────────────────────────────────────────

  lemma {:induction false} EscapedShift(t: string, n: nat, k: nat)
    requires n <= k <= |t|
    requires (n == 1 && t[0] != '\\') || (n == 2 && t[0] == '\\')
    ensures Escaped(t, k) == Escaped(t[n..], k - n)
  {
    if k > n {
      EscapedShift(t, n, k - 1);
    } else if n == 2 {
      assert Escaped(t, 1);
    }
  }

  lemma {:induction false} EscapedPrefix(s: string, n: nat, k: nat)
    requires k <= n <= |s|
    ensures Escaped(s[..n], k) == Escaped(s, k)
  {
    if k > 0 { EscapedPrefix(s, n, k - 1); }
  }

  function Quote(m: Mode): char { if m == Str then '"' else '\'' }

  lemma {:induction false} QuotedBody(body: string, m: Mode, closed: bool, rest: string)
    requires (m == Str || m == Chr) && IsLexeme(Quoted(Quote(m), body, closed), rest)
    ensures var end := if closed then [Quote(m)] else "";
            Mask(body + end + rest, m) == body + end + Mask(rest, Code)
  {
    hide Mask;
    var end := if closed then [Quote(m)] else "";
    var s := body + end + rest;
    if body == "" {
      QuotedEnd(m, closed, rest);
    } else {
      var n := if body[0] != '\\' then 1 else if |body| == 1 then 1 else 2;
      if body[0] == '\\' && |body| == 1 {
        assert Escaped(body, 1);
        assert !closed && s == body + "" && s == body;
        MaskMove(body, "", m, m, false);
        assert body + "" + "" == body + "";
        NothingToMask(m);
        NothingToMask(Code);
      } else {
        ShiftBody(body, n, m, closed, rest);
        QuotedBody(body[n..], m, closed, rest);
        var tail := body[n..] + end + rest;
        assert s == body[..n] + tail;
        assert Next(s, m) == Token(n, m, false) by { QuotedMove(body, s, n, m); }
        MaskMove(body[..n], tail, m, m, false);
        assert body[..n] + (body[n..] + end + Mask(rest, Code)) == body + end + Mask(rest, Code);
      }
    }
  }

  lemma NothingToMask(m: Mode)
    requires WellFormed(m)
    ensures Mask("", m) == ""
  {
  }

  lemma QuotedEnd(m: Mode, closed: bool, rest: string)
    requires (m == Str || m == Chr) && (!closed ==> rest == "")
    ensures var end := if closed then [Quote(m)] else "";
            Mask("" + end + rest, m) == "" + end + Mask(rest, Code)
  {
    if closed {
      MaskMove([Quote(m)], rest, m, Code, false);
      assert "" + [Quote(m)] + rest == [Quote(m)] + rest;
    } else {
      assert "" + "" + rest == "";
    }
  }

  lemma QuotedMove(body: string, s: string, n: nat, m: Mode)
    requires (m == Str || m == Chr) && body != "" && body <= s && QuotesEscaped(body, Quote(m))
    requires n == (if body[0] == '\\' then 2 else 1) && n <= |body|
    ensures Next(s, m) == Token(n, m, false)
  {
    assert s[0] == body[0];
    assert !Escaped(body, 0);
  }

  lemma ShiftBody(body: string, n: nat, m: Mode, closed: bool, rest: string)
    requires (m == Str || m == Chr) && body != "" && IsLexeme(Quoted(Quote(m), body, closed), rest)
    requires n == (if body[0] == '\\' then 2 else 1) && n <= |body|
    ensures IsLexeme(Quoted(Quote(m), body[n..], closed), rest)
  {
    forall k | 0 <= k <= |body| - n
      ensures Escaped(body[n..], k) == Escaped(body, k + n)
    {
      EscapedShift(body, n, k + n);
    }
  }

  lemma MaskQuoted(quote: char, body: string, closed: bool, rest: string)
    requires IsLexeme(Quoted(quote, body, closed), rest)
    ensures var text := LexemeText(Quoted(quote, body, closed));
            Mask(text + rest, Code) == text + Mask(rest, Code)
  {
    hide Mask, QuotesEscaped, Escaped;
    var m := if quote == '"' then Str else Chr;
    var end := if closed then [quote] else "";
    QuotedBody(body, m, closed, rest);
    var tail := body + end + rest;
    assert [quote] + body + end + rest == [quote] + tail;
    assert ([quote] + tail)[0] == quote;
    MaskMove([quote], tail, Code, m, false);
    assert [quote] + (body + end + Mask(rest, Code)) == [quote] + body + end + Mask(rest, Code);
  }

  // ── Raw strings ────────────────────────────────────────────────────────────

  lemma {:induction false} HashesOfRep(n: nat, rest: string)
    ensures Hashes(Rep(n) + rest) >= n
    ensures rest != "" && rest[0] != '#' ==> Hashes(Rep(n) + rest) == n
  {
    if n == 0 {
      assert Rep(0) + rest == rest;
    } else {
      assert (Rep(n) + rest)[1..] == Rep(n - 1) + rest;
      HashesOfRep(n - 1, rest);
    }
  }

  lemma {:induction false} RawBody(body: string, tail: string, n: nat)
    requires NoRawEnd(body + tail, |body|, n)
    ensures Mask(body + tail, Raw(n)) == body + Mask(tail, Raw(n))
  {
    hide Mask, Hashes;
    if body == "" {
      assert body + tail == tail;
    } else {
      var s := body + tail;
      assert s == [body[0]] + (body[1..] + tail);
      assert s[0] == body[0];
      assert Next(s, Raw(n)) == Token(1, Raw(n), false);
      MaskMove([body[0]], body[1..] + tail, Raw(n), Raw(n), false);
      forall k | 0 <= k < |body| - 1 && (body[1..] + tail)[k] == '"'
        ensures Hashes((body[1..] + tail)[k + 1..]) < n
      {
        assert s[k + 1] == (body[1..] + tail)[k];
        assert s[k + 2..] == (body[1..] + tail)[k + 1..];
      }
      RawBody(body[1..], tail, n);
      assert [body[0]] + (body[1..] + Mask(tail, Raw(n))) == body + Mask(tail, Raw(n));
    }
  }

  lemma MaskRaw(n: nat, body: string, closed: bool, rest: string)
    requires IsLexeme(RawString(n, body, closed), rest)
    ensures var text := LexemeText(RawString(n, body, closed));
            Mask(text + rest, Code) == text + Mask(rest, Code)
  {
    hide Mask, Hashes, NoRawEnd;
    var end := if closed then "\"" + Rep(n) else "";
    var tail := end + rest;
    var open := "r" + Rep(n) + "\"";
    assert body + (if closed then "\"" + Rep(n) + rest else "") == body + tail;
    RawOpens(n, body + tail);
    RawBody(body, tail, n);
    RawEnds(n, closed, rest);
    assert open + body + end + rest == open + (body + tail);
    assert open + (body + (end + Mask(rest, Code))) == open + body + end + Mask(rest, Code);
  }

  lemma RawOpens(n: nat, tail: string)
    ensures var open := "r" + Rep(n) + "\""; Mask(open + tail, Code) == open + Mask(tail, Raw(n))
  {
    hide Mask;
    var open := "r" + Rep(n) + "\"";
    var s := open + tail;
    assert s[0] == 'r';
    assert s[1..] == Rep(n) + ("\"" + tail);
    HashesOfRep(n, "\"" + tail);
    assert s[n + 1] == '"';
    assert !("//" <= s) && !("/*" <= s);
    MaskMove(open, tail, Code, Raw(n), false);
  }

  lemma RawEnds(n: nat, closed: bool, rest: string)
    requires !closed ==> rest == ""
    ensures var end := if closed then "\"" + Rep(n) else "";
            Mask(end + rest, Raw(n)) == end + Mask(rest, Code)
  {
    if closed {
      var end := "\"" + Rep(n);
      assert (end + rest)[1..] == Rep(n) + rest;
      HashesOfRep(n, rest);
      MaskMove(end, rest, Raw(n), Code, false);
    } else {
      assert "" + rest == "";
    }
  }

  lemma MaskOther(c: char, rest: string)
    requires IsLexeme(Other(c), rest)
    ensures Mask([c] + rest, Code) == [c] + Mask(rest, Code)
  {
    hide Mask;
    MaskMove([c], rest, Code, Code, false);
  }

  // ── Masking a text ─────────────────────────────────────────────────────────

  /** Masking blanks the comment lexemes and leaves all others as they are. */
  lemma {:induction false} MaskIsLexemewise(ls: seq<Lexeme>)
    requires AreLexemes(ls)
    ensures Mask(Joined(ls), Code) == JoinedMasked(ls)
  {
    hide Mask, Blank, IsLexeme, LexemeText;
    if ls == [] {
      NothingToMask(Code);
    } else {
      var rest := Joined(ls[1..]);
      MaskIsLexemewise(ls[1..]);
      MaskLexeme(ls[0], rest);
    }
  }

  lemma MaskLexeme(l: Lexeme, rest: string)
    requires IsLexeme(l, rest)
    ensures Mask(LexemeText(l) + rest, Code)
         == (if l.Line? || l.Comment? then Blank(LexemeText(l)) else LexemeText(l)) + Mask(rest, Code)
  {
    hide Mask, Blank, IsLexeme;
    match l {
      case Line(text) => MaskLine(text, rest);
      case Comment(items, closed) => MaskComment(items, closed, rest);
      case Quoted(quote, body, closed) => MaskQuoted(quote, body, closed, rest);
      case RawString(n, body, closed) => MaskRaw(n, body, closed, rest);
      case Other(c) => MaskOther(c, rest);
    }
  }

  // ── Every text has lexemes ─────────────────────────────────────────────────

  lemma {:induction false} ReadBody(s: string) returns (items: seq<Item>, closed: bool, rest: string)
    ensures s == Text(items) + (End(closed) + rest) && Tight(items, End(closed) + rest)
    ensures !closed ==> rest == ""
    ensures |rest| <= |s|
    decreases |s|
  {
    hide Text, Tight;
    if s == "" {
      items, closed, rest := [], false, "";
      NoItems("");
    } else if "*/" <= s {
      items, closed, rest := [], true, s[2..];
      assert s == "*/" + s[2..];
      NoItems(s);
    } else {
      var item, after := ReadItem(s);
      var more;
      more, closed, rest := ReadBody(after);
      items := [item] + more;
      ConsItem(item, more, End(closed) + rest);
      assert s == ItemText(item) + (Text(more) + (End(closed) + rest));
      assert s == (ItemText(item) + Text(more)) + (End(closed) + rest);
    }
  }

  lemma {:induction false} ReadItem(s: string) returns (item: Item, after: string)
    requires s != "" && !("*/" <= s)
    ensures s == ItemText(item) + after && |after| < |s|
    ensures item.Plain? ==> !("/*" <= [item.c] + after) && !("*/" <= [item.c] + after)
    ensures item.Inner? ==> Tight(item.items, End(item.closed) + after) && (!item.closed ==> after == "")
    decreases |s|, 0
  {
    hide Text, Tight;
    if "/*" <= s {
      var inner, c, r := ReadBody(s[2..]);
      item, after := Inner(inner, c), r;
      assert s == "/*" + s[2..];
      assert s == "/*" + Text(inner) + End(c) + after;
    } else {
      item, after := Plain(s[0]), s[1..];
      assert s == [s[0]] + s[1..];
    }
  }

  lemma NoItems(s: string)
    ensures s == Text([]) + s && Tight([], s)
  {
  }

  lemma ConsItem(item: Item, more: seq<Item>, after: string)
    requires Tight(more, after)
    requires item.Plain? ==> !("/*" <= [item.c] + (Text(more) + after)) && !("*/" <= [item.c] + (Text(more) + after))
    requires item.Inner? ==> Tight(item.items, End(item.closed) + (Text(more) + after)) && (!item.closed ==> Text(more) + after == "")
    ensures Tight([item] + more, after) && Text([item] + more) == ItemText(item) + Text(more)
  {
    var items := [item] + more;
    assert items[1..] == more && items[0] == item;
  }

  lemma {:induction false} ReadQuoted(s: string, quote: char, k: nat) returns (n: nat)
    requires k <= |s| && forall j :: 0 <= j < k && s[j] == quote ==> Escaped(s, j)
    ensures n <= |s| && forall j :: 0 <= j < n && s[j] == quote ==> Escaped(s, j)
    ensures n < |s| ==> s[n] == quote && !Escaped(s, n)
    decreases |s| - k
  {
    n := k;
    if k < |s| && (s[k] != quote || Escaped(s, k)) { n := ReadQuoted(s, quote, k + 1); }
  }

  lemma {:induction false} ReadRaw(s: string, hashes: nat, k: nat) returns (n: nat)
    requires k <= |s| && NoRawEnd(s, k, hashes)
    ensures n <= |s| && NoRawEnd(s, n, hashes)
    ensures n < |s| ==> s[n] == '"' && hashes <= Hashes(s[n + 1..])
    decreases |s| - k
  {
    hide Hashes;
    n := k;
    if k < |s| && (s[k] != '"' || Hashes(s[k + 1..]) < hashes) { n := ReadRaw(s, hashes, k + 1); }
  }

  lemma QuotedLexeme(s: string) returns (l: Lexeme, rest: string)
    requires s != "" && (s[0] == '"' || s[0] == '\'')
    ensures s == LexemeText(l) + rest && IsLexeme(l, rest) && |rest| < |s|
  {
    var t := s[1..];
    var n := ReadQuoted(t, s[0], 0);
    l := Quoted(s[0], t[..n], n < |t|);
    rest := if n < |t| then t[n + 1..] else "";
    forall k | 0 <= k <= n ensures Escaped(t[..n], k) == Escaped(t, k) { EscapedPrefix(t, n, k); }
    assert s == [s[0]] + t[..n] + t[n..];
    if n < |t| { assert t[n..] == [t[n]] + t[n + 1..]; }
  }

  /** A text that starts with hashes, split after `h` of them. */
  lemma SplitHashes(s: string, h: nat)
    requires h <= Hashes(s)
    ensures h <= |s| && s == Rep(h) + s[h..]
  {
    var head := s[..h];
    AllHashes(head);
    hide Hashes, Rep;
    assert s == head + s[h..];
  }

  lemma AllHashes(s: string)
    requires forall k :: 0 <= k < |s| ==> s[k] == '#'
    ensures s == Rep(|s|)
  {
  }

  lemma SplitOpening(s: string)
    requires OpensRaw(s)
    ensures var h := Hashes(s[1..]); h + 2 <= |s| && s == "r" + Rep(h) + "\"" + s[h + 2..]
  {
    hide Hashes, Rep;
    var h := Hashes(s[1..]);
    SplitHashes(s[1..], h);
    var t := s[h + 1..];
    assert t == s[1..][h..];
    assert t == "\"" + s[h + 2..];
    assert s == "r" + s[1..];
  }

  lemma SplitEnding(t: string, n: nat, h: nat)
    requires n < |t| && t[n] == '"' && h <= Hashes(t[n + 1..])
    ensures h <= |t[n + 1..]| && t == t[..n] + ("\"" + Rep(h) + t[n + 1..][h..])
  {
    hide Hashes, Rep;
    var u := t[n + 1..];
    SplitHashes(u, h);
    var hashes, rest := Rep(h), u[h..];
    assert u == hashes + rest;
    assert "\"" + hashes + rest == "\"" + (hashes + rest);
    assert t == t[..n] + ("\"" + u);
  }

  lemma RawLexeme(s: string) returns (l: Lexeme, rest: string)
    requires OpensRaw(s)
    ensures s == LexemeText(l) + rest && IsLexeme(l, rest) && |rest| < |s|
  {
    hide Hashes, OpensRaw, NoRawEnd, Rep;
    SplitOpening(s);
    var h := Hashes(s[1..]);
    var t := s[h + 2..];
    RawStart(t, h);
    var n := ReadRaw(t, h, 0);
    l := RawString(h, t[..n], n < |t|);
    if n < |t| {
      SplitEnding(t, n, h);
      rest := t[n + 1..][h..];
      assert s == "r" + Rep(h) + "\"" + t[..n] + ("\"" + Rep(h)) + rest;
    } else {
      rest := "";
      assert t[..n] + "" == t;
    }
  }

  lemma RawStart(t: string, h: nat)
    ensures NoRawEnd(t, 0, h)
  {
  }

  lemma LineLexeme(s: string) returns (l: Lexeme, rest: string)
    requires "//" <= s
    ensures s == LexemeText(l) + rest && IsLexeme(l, rest) && |rest| < |s|
  {
    hide LineLength;
    var line := s[2..];
    var k := LineLength(line);
    l, rest := Line("//" + line[..k]), line[k..];
    assert s == "//" + line;
    assert line == line[..k] + line[k..];
    assert s == ("//" + line[..k]) + line[k..];
    assert ("//" + line[..k])[..2] == "//";
    assert '\n' !in "//" + line[..k];
  }

  lemma CommentLexeme(s: string) returns (l: Lexeme, rest: string)
    requires "/*" <= s
    ensures s == LexemeText(l) + rest && IsLexeme(l, rest) && |rest| < |s|
  {
    hide Text, Tight;
    var items, closed, after := ReadBody(s[2..]);
    l, rest := Comment(items, closed), after;
    assert s == "/*" + s[2..];
    assert s == "/*" + Text(items) + End(closed) + rest;
  }

  lemma OtherLexeme(s: string) returns (l: Lexeme, rest: string)
    requires s != "" && !("//" <= s) && !("/*" <= s) && s[0] != '"' && s[0] != '\'' && !OpensRaw(s)
    ensures s == LexemeText(l) + rest && IsLexeme(l, rest) && |rest| < |s|
  {
    hide OpensRaw;
    l, rest := Other(s[0]), s[1..];
    assert s == [s[0]] + s[1..];
  }

  lemma FirstLexeme(s: string) returns (l: Lexeme, rest: string)
    requires s != ""
    ensures s == LexemeText(l) + rest && IsLexeme(l, rest) && |rest| < |s|
  {
    hide OpensRaw, IsLexeme, LexemeText;
    if "//" <= s {
      l, rest := LineLexeme(s);
    } else if "/*" <= s {
      l, rest := CommentLexeme(s);
    } else if s[0] == '"' || s[0] == '\'' {
      l, rest := QuotedLexeme(s);
    } else if OpensRaw(s) {
      l, rest := RawLexeme(s);
    } else {
      l, rest := OtherLexeme(s);
    }
  }

  /** Every text is a sequence of lexemes, so masking changes exactly the comment lexemes, to blanks. */
  lemma {:induction false} EveryTextHasLexemes(s: string) returns (ls: seq<Lexeme>)
    ensures s == Joined(ls) && AreLexemes(ls)
    ensures Mask(s, Code) == JoinedMasked(ls)
    decreases |s|
  {
    hide Mask, IsLexeme, LexemeText;
    if s == "" {
      ls := [];
    } else {
      var l, rest := FirstLexeme(s);
      var more := EveryTextHasLexemes(rest);
      ls := [l] + more;
      assert ls[1..] == more;
    }
    MaskIsLexemewise(ls);
  }
}
