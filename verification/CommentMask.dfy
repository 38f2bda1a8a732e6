/**
 The comment masker of the code indexer: one pass over Rust text that turns
 comments into spaces and keeps everything else, newlines included.

 `Mask` is the pass as a function of the remaining text and the lexer's mode.
 */
module CommentMask {
  import opened Wrappers

  /** What the lexer is inside of; line comments are consumed in one go. */
  datatype Mode = Code | Block(depth: nat) | Raw(hashes: nat) | Str | Chr

  /** One move of the lexer: characters consumed, the mode after, and whether they are masked. */
  datatype Token = Token(len: nat, mode: Mode, comment: bool)

  predicate WellFormed(m: Mode) { m.Block? ==> m.depth > 0 }

  /** Length of the leading run of `#`. */
  function Hashes(s: string): (n: nat)
    ensures n <= |s|
    ensures forall k :: 0 <= k < n ==> s[k] == '#'
    ensures n < |s| ==> s[n] != '#'
  {
    if s == "" || s[0] != '#' then 0 else 1 + Hashes(s[1..])
  }

  /** Characters before the first newline. */
  function LineLength(s: string): (n: nat)
    ensures n <= |s|
    ensures forall k :: 0 <= k < n ==> s[k] != '\n'
    ensures n < |s| ==> s[n] == '\n'
  {
    if s == "" || s[0] == '\n' then 0 else 1 + LineLength(s[1..])
  }

  /** Where a raw string opens: `r`, any number of `#`, a quote. */
  predicate OpensRaw(s: string) {
    s != "" && s[0] == 'r' && Hashes(s[1..]) + 1 < |s| && s[Hashes(s[1..]) + 1] == '"'
  }

  function NextQuoted(s: string, m: Mode, quote: char): (t: Token)
    requires s != ""
  {
    if s[0] == '\\' then Token(if |s| > 1 then 2 else 1, m, false)
    else Token(1, if s[0] == quote then Code else m, false)
  }

  function NextCode(s: string): (t: Token)
    requires s != ""
  {
    if "//" <= s then Token(2 + LineLength(s[2..]), Code, true)
    else if "/*" <= s then Token(2, Block(1), true)
    else if OpensRaw(s) then Token(Hashes(s[1..]) + 2, Raw(Hashes(s[1..])), false)
    else Token(1, if s[0] == '"' then Str else if s[0] == '\'' then Chr else Code, false)
  }

  function Next(s: string, m: Mode): (t: Token)
    requires s != "" && WellFormed(m)
    ensures 1 <= t.len <= |s| && WellFormed(t.mode)
  {
    match m
    case Block(d) =>
      if "/*" <= s then Token(2, Block(d + 1), true)
      else if "*/" <= s then Token(2, if d == 1 then Code else Block(d - 1), true)
      else Token(1, m, true)
    case Raw(n) => if s[0] == '"' && n <= Hashes(s[1..]) then Token(1 + n, Code, false) else Token(1, m, false)
    case Str => NextQuoted(s, m, '"')
    case Chr => NextQuoted(s, m, '\'')
    case Code => NextCode(s)
  }

  /** Spaces for everything but newlines. */
  function Blank(s: string): (b: string)
    ensures |b| == |s|
    ensures forall k :: 0 <= k < |s| ==> b[k] == if s[k] == '\n' then '\n' else ' '
  {
    seq(|s|, k requires 0 <= k < |s| => if s[k] == '\n' then '\n' else ' ')
  }

  function Mask(s: string, m: Mode): string
    requires WellFormed(m)
    decreases |s|
  {
    if s == "" then ""
    else
      var t := Next(s, m);
      (if t.comment then Blank(s[..t.len]) else s[..t.len]) + Mask(s[t.len..], t.mode)
  }

  // ── Layout ─────────────────────────────────────────────────────────────────

  /** Length and newlines stay; any other change is to a space. */
  predicate SameLayout(s: string, out: string) {
    && |out| == |s|
    && forall k :: 0 <= k < |s| ==> (out[k] == s[k] || (out[k] == ' ' && s[k] != '\n'))
  }

  lemma {:induction false} MaskKeepsLayout(s: string, m: Mode)
    requires WellFormed(m)
    ensures SameLayout(s, Mask(s, m))
    decreases |s|
  {
    hide Next, Blank;
    if s != "" {
      var t := Next(s, m);
      MaskKeepsLayout(s[t.len..], t.mode);
      assert s == s[..t.len] + s[t.len..];
    }
  }

  // ── Idempotence ────────────────────────────────────────────────────────────

  predicate IsBlank(b: string) {
    forall k :: 0 <= k < |b| ==> b[k] == ' ' || b[k] == '\n'
  }

  lemma NextBlank(s: string)
    requires s != "" && (s[0] == ' ' || s[0] == '\n')
    ensures Next(s, Code) == Token(1, Code, false)
  {
  }

  lemma {:induction false} MaskBlank(b: string, s: string)
    requires IsBlank(b)
    ensures Mask(b + s, Code) == b + Mask(s, Code)
  {
    hide Next;
    if b == "" {
      assert b + s == s;
    } else {
      assert (b + s)[0] == b[0];
      NextBlank(b + s);
      assert (b + s)[..1] == [b[0]] && (b + s)[1..] == b[1..] + s;
      MaskBlank(b[1..], s);
      assert b == [b[0]] + b[1..];
    }
  }

  /** A run of hashes in masked text was there before, and a copied one is still there. */
  lemma {:induction false} HashesOfMasked(s: string, out: string)
    requires SameLayout(s, out)
    ensures Hashes(out) <= Hashes(s)
  {
    if out != "" && out[0] == '#' { HashesOfMasked(s[1..], out[1..]); }
  }

  lemma {:induction false} HashesOfPrefix(s: string, out: string, n: nat)
    requires n <= |s| && n <= |out| && s[..n] == out[..n] && n <= Hashes(s)
    ensures n <= Hashes(out)
  {
    if n > 0 {
      assert s[0] == s[..n][0] && out[0] == out[..n][0];
      assert s[1..][..n - 1] == s[..n][1..] && out[1..][..n - 1] == out[..n][1..];
      HashesOfPrefix(s[1..], out[1..], n - 1);
    }
  }

  /** The lexer's move on kept text is the same before and after masking what follows. */
  lemma NextOfMasked(s: string, m: Mode, out: string)
    requires s != "" && WellFormed(m) && !Next(s, m).comment
    requires SameLayout(s, out) && out[..Next(s, m).len] == s[..Next(s, m).len]
    ensures Next(out, m) == Next(s, m)
  {
    var t := Next(s, m);
    assert out[0] == out[..t.len][0] && s[0] == s[..t.len][0];
    assert SameLayout(s[1..], out[1..]);
    HashesOfMasked(s[1..], out[1..]);
    if m.Raw? && t.mode == Code {
      assert s[1..][..m.hashes] == s[..t.len][1..] && out[1..][..m.hashes] == out[..t.len][1..];
      HashesOfPrefix(s[1..], out[1..], m.hashes);
    } else if m.Code? {
      NextOfMaskedCode(s, out);
    }
  }

  lemma NextOfMaskedCode(s: string, out: string)
    requires s != "" && !NextCode(s).comment
    requires SameLayout(s, out) && out[..NextCode(s).len] == s[..NextCode(s).len]
    ensures NextCode(out) == NextCode(s)
  {
    var t, h := NextCode(s), Hashes(s[1..]);
    assert out[0] == out[..t.len][0] && s[0] == s[..t.len][0];
    assert SameLayout(s[1..], out[1..]);
    HashesOfMasked(s[1..], out[1..]);
    if OpensRaw(s) {
      assert s[1..][..h] == s[..t.len][1..h + 1] && out[1..][..h] == out[..t.len][1..h + 1];
      HashesOfPrefix(s[1..], out[1..], h);
      assert out[h + 1] == out[..t.len][h + 1] == s[..t.len][h + 1];
    }
  }

  /** The mode in which masked text is read again: comments are gone. */
  function Again(m: Mode): Mode {
    if m.Block? then Code else m
  }

  lemma {:induction false} MaskTwice(s: string, m: Mode)
    requires WellFormed(m)
    ensures Mask(Mask(s, m), Again(m)) == Mask(s, m)
    decreases |s|
  {
    hide Next, Blank;
    if s != "" {
      var t := Next(s, m);
      var rest := Mask(s[t.len..], t.mode);
      var head := if t.comment then Blank(s[..t.len]) else s[..t.len];
      MaskTwice(s[t.len..], t.mode);
      if t.comment {
        CommentModes(s, m);
        MaskBlank(head, rest);
      } else {
        KeptModes(s, m);
        MaskKeepsLayout(s, m);
        var out := head + rest;
        assert out[..t.len] == head && out[t.len..] == rest;
        NextOfMasked(s, m, out);
      }
    }
  }

  lemma CommentModes(s: string, m: Mode)
    requires s != "" && WellFormed(m) && Next(s, m).comment
    ensures Again(m) == Code && Again(Next(s, m).mode) == Code
  {
  }

  lemma KeptModes(s: string, m: Mode)
    requires s != "" && WellFormed(m) && !Next(s, m).comment
    ensures Again(m) == m && Again(Next(s, m).mode) == Next(s, m).mode
  {
  }

  /** Masking twice is masking once, on every text. */
  lemma MaskIdempotent(s: string)
    ensures Mask(Mask(s, Code), Code) == Mask(s, Code)
  {
    MaskTwice(s, Code);
  }

  // ── The pass ───────────────────────────────────────────────────────────────

  function ModeOf(blockDepth: nat, rawHashes: Option<nat>, inString: bool, inChar: bool): (m: Mode)
    ensures WellFormed(m)
  {
    if blockDepth > 0 then Block(blockDepth)
    else if rawHashes.Some? then Raw(rawHashes.value)
    else if inString then Str
    else if inChar then Chr
    else Code
  }

  /** At most one of the lexer's flags is up. */
  predicate OneMode(blockDepth: nat, rawHashes: Option<nat>, inString: bool, inChar: bool) {
    && (blockDepth > 0 ==> rawHashes.None? && !inString && !inChar)
    && (rawHashes.Some? ==> !inString && !inChar)
    && !(inString && inChar)
  }

  /** The text masked so far and the mode fix what is left to do. */
  ghost predicate Progress(source: string, i: nat, out: string, m: Mode) {
    i <= |source| && WellFormed(m) && out + Mask(source[i..], m) == Mask(source, Code)
  }

  /** One move of the lexer, with what it adds to the output. */
  ghost predicate Moves(source: string, i: nat, m: Mode, n: nat, text: string, m': Mode) {
    && i + n <= |source| && i < |source| && WellFormed(m) && n > 0
    && Next(source[i..], m).len == n && Next(source[i..], m).mode == m'
    && text == if Next(source[i..], m).comment then Blank(source[i..i + n]) else source[i..i + n]
  }

  lemma Advance(source: string, i: nat, out: string, m: Mode, n: nat, text: string, m': Mode)
    requires Progress(source, i, out, m) && Moves(source, i, m, n, text, m')
    ensures Progress(source, i + n, out + text, m')
  {
    hide Next, Blank;
    assert source[i..][..n] == source[i..i + n] && source[i..][n..] == source[i + n..];
    assert out + (text + Mask(source[i + n..], m')) == (out + text) + Mask(source[i + n..], m');
  }

  lemma At(source: string, i: nat)
    requires i < |source|
    ensures var s := source[i..];
            && s[0] == source[i]
            && ("//" <= s <==> source[i] == '/' && i + 1 < |source| && source[i + 1] == '/')
            && ("/*" <= s <==> source[i] == '/' && i + 1 < |source| && source[i + 1] == '*')
            && ("*/" <= s <==> source[i] == '*' && i + 1 < |source| && source[i + 1] == '/')
            && s[1..] == source[i + 1..]
  {
    var s := source[i..];
    if i + 1 < |source| { assert s[1] == source[i + 1]; assert s[..2] == [s[0], s[1]]; }
  }

  lemma BlockMoves(source: string, i: nat, d: nat)
    requires i < |source| && d > 0
    ensures var ch, nxt := source[i], if i + 1 < |source| then Some(source[i + 1]) else None;
            && (ch == '/' && nxt == Some('*') ==> Moves(source, i, Block(d), 2, "  ", Block(d + 1)))
            && (ch == '*' && nxt == Some('/') ==> Moves(source, i, Block(d), 2, "  ", if d == 1 then Code else Block(d - 1)))
            && (!(ch == '/' && nxt == Some('*')) && !(ch == '*' && nxt == Some('/')) ==>
                  Moves(source, i, Block(d), 1, [if ch == '\n' then '\n' else ' '], Block(d)))
  {
    At(source, i);
    if i + 1 < |source| && (source[i] == '/' || source[i] == '*') && source[i + 1] != '\n' {
      assert Blank(source[i..i + 2]) == "  ";
    }
    assert Blank(source[i..i + 1]) == [if source[i] == '\n' then '\n' else ' '];
  }

  lemma RawMoves(source: string, i: nat, n: nat)
    requires i < |source|
    ensures if source[i] == '"' && n <= Hashes(source[i + 1..])
            then Moves(source, i, Raw(n), n + 1, [source[i]] + source[i + 1..i + 1 + n], Code)
            else Moves(source, i, Raw(n), 1, [source[i]], Raw(n))
  {
    At(source, i);
    if n <= Hashes(source[i + 1..]) { assert source[i..i + 1 + n] == [source[i]] + source[i + 1..i + 1 + n]; }
    assert source[i..i + 1] == [source[i]];
  }

  lemma QuotedMoves(source: string, i: nat, m: Mode)
    requires i < |source| && (m == Str || m == Chr)
    ensures var ch, quote := source[i], if m == Str then '"' else '\'';
            if ch == '\\' && i + 1 < |source| then Moves(source, i, m, 2, [ch, source[i + 1]], m)
            else Moves(source, i, m, 1, [ch], if ch == quote then Code else m)
  {
    At(source, i);
    if i + 1 < |source| { assert source[i..i + 2] == [source[i], source[i + 1]]; }
    assert source[i..i + 1] == [source[i]];
  }

  lemma CommentMoves(source: string, i: nat)
    requires i + 1 < |source| && source[i] == '/'
    ensures source[i + 1] == '/' ==>
              var n := LineLength(source[i + 2..]);
              Moves(source, i, Code, n + 2, Blank(source[i..i + n + 2]), Code)
    ensures source[i + 1] == '*' ==> Moves(source, i, Code, 2, "  ", Block(1))
  {
    At(source, i);
    assert source[i..][2..] == source[i + 2..];
    if source[i + 1] == '*' { assert Blank(source[i..i + 2]) == "  "; }
  }

  lemma CodeMoves(source: string, i: nat)
    requires i < |source|
    requires !(source[i] == '/' && i + 1 < |source| && (source[i + 1] == '/' || source[i + 1] == '*'))
    ensures var ch, h := source[i], Hashes(source[i + 1..]);
            if ch == 'r' && i + h + 1 < |source| && source[i + h + 1] == '"'
            then Moves(source, i, Code, h + 2, source[i..i + h + 2], Raw(h))
            else Moves(source, i, Code, 1, [ch], if ch == '"' then Str else if ch == '\'' then Chr else Code)
  {
    At(source, i);
    var h := Hashes(source[i + 1..]);
    if i + h + 1 < |source| { assert source[i..][h + 1] == source[i + h + 1]; }
    assert source[i..i + 1] == [source[i]];
  }

  method MaskComments(source: string) returns (out: string)
    ensures out == Mask(source, Code)
    ensures SameLayout(source, out)
  {
    hide Mask, Moves, Progress, Blank, Hashes, LineLength, SameLayout;
    out := "";
    var i := 0;
    var blockDepth: nat := 0;
    var inString, inChar := false, false;
    var rawHashes: Option<nat> := None;
    Begin(source);
    while i < |source|
      invariant 0 <= i <= |source|
      invariant OneMode(blockDepth, rawHashes, inString, inChar)
      invariant Progress(source, i, out, ModeOf(blockDepth, rawHashes, inString, inChar))
      decreases |source| - i
    {
      var ch := source[i];
      var nxt := if i + 1 < |source| then Some(source[i + 1]) else None;
      ghost var before, start, m := out, i, ModeOf(blockDepth, rawHashes, inString, inChar);
      ghost var text;
      if blockDepth > 0 {
        BlockMoves(source, i, blockDepth);
        if ch == '/' && nxt == Some('*') {
          blockDepth := blockDepth + 1;
          text := "  ";
          out := out + "  ";
          i := i + 2;
        } else if ch == '*' && nxt == Some('/') {
          blockDepth := blockDepth - 1;
          text := "  ";
          out := out + "  ";
          i := i + 2;
        } else {
          text := [if ch == '\n' then '\n' else ' '];
          out := out + [if ch == '\n' then '\n' else ' '];
          i := i + 1;
        }
      } else if rawHashes.Some? {
        RawMoves(source, i, rawHashes.value);
        var n := rawHashes.value;
        if ch == '"' && n <= Hashes(source[i + 1..]) {
          text := [ch] + source[i + 1..i + 1 + n];
          out := out + ([ch] + source[i + 1..i + 1 + n]);
          i := i + (n + 1);
          rawHashes := None;
        } else {
          text := [ch];
          out := out + [ch];
          i := i + 1;
        }
      } else if inString || inChar {
        QuotedMoves(source, i, m);
        if ch == '\\' && i + 1 < |source| {
          text := [ch, source[i + 1]];
          out := out + [ch, source[i + 1]];
          i := i + 2;
        } else {
          text := [ch];
          out := out + [ch];
          if inString && ch == '"' { inString := false; }
          else if inChar && ch == '\'' { inChar := false; }
          i := i + 1;
        }
      } else if ch == '/' && nxt == Some('/') {
        CommentMoves(source, i);
        text := Blank(source[i..i + LineLength(source[i + 2..]) + 2]);
        out, i := SkipLine(source, i, out);
      } else if ch == '/' && nxt == Some('*') {
        CommentMoves(source, i);
        blockDepth := 1;
        text := "  ";
        out := out + "  ";
        i := i + 2;
      } else {
        CodeMoves(source, i);
        var h := Hashes(source[i + 1..]);
        if ch == 'r' && i + h + 1 < |source| && source[i + h + 1] == '"' {
          text := source[i..i + h + 2];
          rawHashes := Some(h);
          out := out + source[i..i + h + 2];
          i := i + (h + 2);
        } else {
          if ch == '"' { inString := true; }
          else if ch == '\'' { inChar := true; }
          text := [ch];
          out := out + [ch];
          i := i + 1;
        }
      }
      Advance(source, start, before, m, i - start, text, ModeOf(blockDepth, rawHashes, inString, inChar));
    }
    Finish(source, out, ModeOf(blockDepth, rawHashes, inString, inChar));
    MaskKeepsLayout(source, Code);
  }

  lemma Begin(source: string)
    ensures Progress(source, 0, "", Code)
  {
    assert source[0..] == source;
    assert "" + Mask(source, Code) == Mask(source, Code);
  }

  lemma Finish(source: string, out: string, m: Mode)
    requires Progress(source, |source|, out, m)
    ensures out == Mask(source, Code)
  {
    assert out + "" == out;
  }

  /** The inner loop over a line comment, up to the newline or the end. */
  method SkipLine(source: string, start: nat, before: string) returns (out: string, i: nat)
    requires start + 1 < |source| && source[start] == '/' && source[start + 1] == '/'
    ensures i == start + 2 + LineLength(source[start + 2..]) <= |source|
    ensures out == before + Blank(source[start..i])
  {
    ghost var line := source[start + 2..];
    out := before + "  ";
    i := start + 2;
    assert Blank(source[start..i]) == "  ";
    while i < |source| && source[i] != '\n'
      invariant start + 2 <= i <= start + 2 + LineLength(line)
      invariant out == before + Blank(source[start..i])
    {
      assert source[i] == line[i - start - 2];
      assert Blank(source[start..i + 1]) == Blank(source[start..i]) + " ";
      out := out + " ";
      i := i + 1;
    }
    assert i < |source| ==> source[i] == line[i - start - 2];
  }
}
