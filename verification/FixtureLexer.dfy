// Blanking C# block comments out of a test fixture before it is scanned.
module FixtureLexer {
  import opened Collecting
  import opened Literals

  datatype State = Code | InString | InVerbatim | InChar | InLineComment | InBlockComment

  // What the machine does with the first bytes of s: the state it moves to, what
  // it writes, and how many bytes that takes.
  datatype Move = Move(state: State, written: string)

  function Next(s: string): char
    requires s != ""
  {
    if |s| > 1 then s[1] else '\0'
  }

  // Inside a literal whose elements are backslash escapes and single bytes.
  function StepEscaped(state: State, quote: char, s: string): (m: Move)
    requires s != ""
  {
    if s[0] == '\\' && |s| > 1 then Move(state, s[..2])
    else if s[0] == quote then Move(Code, s[..1])
    else Move(state, s[..1])
  }

  function StepVerbatim(s: string): (m: Move)
    requires s != ""
  {
    if s[0] == '"' && Next(s) == '"' then Move(InVerbatim, s[..2])
    else if s[0] == '"' then Move(Code, s[..1])
    else Move(InVerbatim, s[..1])
  }

  function StepBlock(s: string): (m: Move)
    requires s != ""
  {
    if s[0] == '*' && Next(s) == '/' then Move(Code, "  ")
    else Move(InBlockComment, if s[0] == '\n' then "\n" else " ")
  }

  function StepCode(s: string): (m: Move)
    requires s != ""
  {
    var c, next := s[0], Next(s);
    if c == '/' && next == '*' then Move(InBlockComment, "  ")
    else if c == '/' && next == '/' then Move(InLineComment, s[..1])
    else if c == '@' && next == '"' then Move(InVerbatim, s[..2])
    else if c == '"' then Move(InString, s[..1])
    else if c == '\'' then Move(InChar, s[..1])
    else Move(Code, s[..1])
  }

  function Step(state: State, s: string): (m: Move)
    requires s != ""
    ensures 1 <= |m.written| <= |s|
  {
    match state
    case Code => StepCode(s)
    case InString => StepEscaped(InString, '"', s)
    case InVerbatim => StepVerbatim(s)
    case InChar => StepEscaped(InChar, '\'', s)
    case InLineComment => Move(if s[0] == '\n' then Code else InLineComment, s[..1])
    case InBlockComment => StepBlock(s)
  }

  function Strip(state: State, s: string): string
    decreases |s|
  {
    if s == "" then ""
    else
      var m := Step(state, s);
      m.written + Strip(m.state, s[|m.written|..])
  }

  // The machine has written b and is in this state after i bytes.
  ghost predicate Running(src: string, i: nat, state: State, b: string)
  {
    i <= |src| && Strip(Code, src) == b + Strip(state, src[i..])
  }

  lemma RunningStep(src: string, i: nat, state: State, b: string)
    requires Running(src, i, state, b) && i < |src|
    ensures var m := Step(state, src[i..]); Running(src, i + |m.written|, m.state, b + m.written)
  {
  }

  method StripBlockComments(src: string) returns (b: string)
    ensures b == Strip(Code, src)
  {
    b := "";
    var state, i := Code, 0;
    assert src[0..] == src && "" + Strip(Code, src) == Strip(Code, src);
    while i < |src|
      invariant Running(src, i, state, b)
    {
      RunningStep(src, i, state, b);
      var c := src[i];
      var next := if i + 1 < |src| then src[i + 1] else '\0';
      assert next == Next(src[i..]) && src[i..][..1] == [c];
      assert i + 1 < |src| ==> src[i..][..2] == [c] + [next];
      ghost var m, i0 := Step(state, src[i..]), i;
      ghost var expected := b + m.written;
      match state {
        case Code =>
          if c == '/' && next == '*' {
            state, b, i := InBlockComment, b + "  ", i + 1;
          } else if c == '/' && next == '/' {
            state, b := InLineComment, b + [c];
          } else if c == '@' && next == '"' {
            state, b, i := InVerbatim, b + ([c] + [next]), i + 1;
          } else if c == '"' {
            state, b := InString, b + [c];
          } else if c == '\'' {
            state, b := InChar, b + [c];
          } else {
            b := b + [c];
          }
        case InString =>
          if c == '\\' && i + 1 < |src| {
            b, i := b + ([c] + [next]), i + 1;
          } else {
            b := b + [c];
            if c == '"' { state := Code; }
          }
        case InVerbatim =>
          if c == '"' && next == '"' {
            b, i := b + ([c] + [next]), i + 1;
          } else {
            b := b + [c];
            if c == '"' { state := Code; }
          }
        case InChar =>
          if c == '\\' && i + 1 < |src| {
            b, i := b + ([c] + [next]), i + 1;
          } else {
            b := b + [c];
            if c == '\'' { state := Code; }
          }
        case InLineComment =>
          b := b + [c];
          if c == '\n' { state := Code; }
        case InBlockComment =>
          if c == '*' && next == '/' {
            state, b, i := Code, b + "  ", i + 1;
          } else if c == '\n' {
            b := b + "\n";
          } else {
            b := b + " ";
          }
      }
      i := i + 1;
      assert b == expected && state == m.state && i == i0 + |m.written|;
    }
  }

  // out is s with some bytes other than newlines blanked.
  predicate BlanksOnly(s: string, out: string)
  {
    |out| == |s| && forall i :: 0 <= i < |s| ==> out[i] == s[i] || (out[i] == ' ' && s[i] != '\n')
  }

  lemma StepBlanksOnly(state: State, s: string)
    requires s != ""
    ensures var m := Step(state, s); BlanksOnly(s[..|m.written|], m.written)
  {
  }

  lemma BlanksOnlyJoin(a: string, b: string, out: string, out': string)
    requires BlanksOnly(a, out) && BlanksOnly(b, out')
    ensures BlanksOnly(a + b, out + out')
  {
  }

  // Length and every newline position survive; any other byte is kept or blanked.
  lemma {:induction false} StripKeepsLayout(state: State, s: string)
    ensures BlanksOnly(s, Strip(state, s))
    decreases |s|
  {
    if s != "" {
      var n := |Step(state, s).written|;
      StepBlanksOnly(state, s);
      StripKeepsLayout(Step(state, s).state, s[n..]);
      BlanksOnlyJoin(s[..n], s[n..], Step(state, s).written, Strip(Step(state, s).state, s[n..]));
      assert s == s[..n] + s[n..];
    }
  }

  // -------------------------------------------------- the lexical structure

  // The lexical elements of a source, as the scrubber divides it: comments (section
  // 6.3.3 of ECMA-334), literals (6.4.5) and any other byte. Unlike in C#, a literal
  // may run across lines, and nothing is a directive or an interpolated string;
  // CSharpSource relates the two.
  datatype Token =
    | Byte(c: char)
    | BlockComment(body: string)
    | LineComment(body: string)
    | RegularString(pieces: seq<Piece>)
    | VerbatimString(verbatim: seq<VerbatimPiece>)
    | CharLiteral(pieces: seq<Piece>)

  // How a source ends: after its last token, or inside one that is never closed.
  // A dangling backslash escapes nothing.
  datatype Ending =
    | Complete
    | OpenBlock(body: string)
    | OpenString(pieces: seq<Piece>, dangling: bool)
    | OpenVerbatim(verbatim: seq<VerbatimPiece>)
    | OpenChar(pieces: seq<Piece>, dangling: bool)

  predicate NoClose(body: string)
  {
    forall i :: 0 <= i < |body| - 1 ==> !(body[i] == '*' && body[i + 1] == '/')
  }

  // A token as it stands before the text `after`.
  predicate ValidToken(token: Token, after: string)
  {
    match token
    case Byte(c) =>
      && c != '"' && c != '\''
      && (c == '/' ==> !StartsWith(after, '/') && !StartsWith(after, '*'))
      && (c == '@' ==> !StartsWith(after, '"'))
    case BlockComment(body) => NoClose(body)
    case LineComment(body) => '\n' !in body && (after == "" || after[0] == '\n')
    case RegularString(pieces) => ValidPieces(pieces, '"')
    case VerbatimString(pieces) => ValidVerbatim(pieces) && !StartsWith(after, '"')
    case CharLiteral(pieces) => ValidPieces(pieces, '\'')
  }

  predicate ValidEnding(ending: Ending)
  {
    match ending
    case Complete => true
    case OpenBlock(body) => NoClose(body)
    case OpenString(pieces, _) => ValidPieces(pieces, '"')
    case OpenVerbatim(pieces) => ValidVerbatim(pieces)
    case OpenChar(pieces, _) => ValidPieces(pieces, '\'')
  }

  function RenderToken(token: Token): (r: string)
    ensures r != ""
  {
    match token
    case Byte(c) => [c]
    case BlockComment(body) => "/*" + body + "*/"
    case LineComment(body) => "//" + body
    case RegularString(pieces) => "\"" + RenderPieces(pieces) + "\""
    case VerbatimString(pieces) => "@\"" + RenderVerbatim(pieces) + "\""
    case CharLiteral(pieces) => "'" + RenderPieces(pieces) + "'"
  }

  function RenderEnding(ending: Ending): string
  {
    match ending
    case Complete => ""
    case OpenBlock(body) => "/*" + body
    case OpenString(pieces, dangling) => "\"" + RenderPieces(pieces) + (if dangling then "\\" else "")
    case OpenVerbatim(pieces) => "@\"" + RenderVerbatim(pieces)
    case OpenChar(pieces, dangling) => "'" + RenderPieces(pieces) + (if dangling then "\\" else "")
  }

  function Render(tokens: seq<Token>, ending: Ending): string
  {
    if tokens == [] then RenderEnding(ending) else RenderToken(tokens[0]) + Render(tokens[1..], ending)
  }

  predicate ValidSource(tokens: seq<Token>, ending: Ending)
  {
    if tokens == [] then ValidEnding(ending)
    else ValidToken(tokens[0], Render(tokens[1..], ending)) && ValidSource(tokens[1..], ending)
  }

  // Every byte but the newlines turned into a space.
  function Blanked(s: string): (r: string)
    ensures |r| == |s| && forall i :: 0 <= i < |s| ==> r[i] == if s[i] == '\n' then '\n' else ' '
  {
    if s == "" then "" else [if s[0] == '\n' then '\n' else ' '] + Blanked(s[1..])
  }

  lemma BlankedSplit(a: string, b: string)
    ensures Blanked(a + b) == Blanked(a) + Blanked(b)
  {
  }

  // The source with its block comments, and nothing else, blanked.
  function RenderBlanked(tokens: seq<Token>, ending: Ending): string
  {
    if tokens == [] then
      if ending.OpenBlock? then Blanked(RenderEnding(ending)) else RenderEnding(ending)
    else
      var text := RenderToken(tokens[0]);
      (if tokens[0].BlockComment? then Blanked(text) else text) + RenderBlanked(tokens[1..], ending)
  }

  // --------------------------------------------- the machine over each token

  lemma StripStep(state: State, head: string, tail: string, state': State, written: string)
    requires head + tail != "" && Step(state, head + tail) == Move(state', written) && |written| == |head|
    ensures Strip(state, head + tail) == written + Strip(state', tail)
  {
    assert (head + tail)[|head|..] == tail;
  }

  lemma StripPiece(state: State, quote: char, piece: Piece, tail: string)
    requires (state == InString && quote == '"') || (state == InChar && quote == '\'')
    requires piece.Raw? ==> piece.c != quote && piece.c != '\\'
    ensures Strip(state, RenderPiece(piece) + tail) == RenderPiece(piece) + Strip(state, tail)
  {
    var head := RenderPiece(piece);
    assert (head + tail)[..|head|] == head;
    StripStep(state, head, tail, state, head);
  }

  // Text that a state copies and stays in passes through before whatever follows.
  lemma Copied(state: State, head: string, rest: string, tail: string)
    requires Strip(state, rest + tail) == rest + Strip(state, tail)
    requires Strip(state, head + (rest + tail)) == head + Strip(state, rest + tail)
    ensures Strip(state, head + rest + tail) == head + rest + Strip(state, tail)
  {
    Associate(head, rest, tail);
    Associate(head, rest, Strip(state, tail));
  }

  lemma {:induction false} StripPieces(state: State, quote: char, pieces: seq<Piece>, tail: string)
    requires (state == InString && quote == '"') || (state == InChar && quote == '\'')
    requires ValidPieces(pieces, quote)
    ensures Strip(state, RenderPieces(pieces) + tail) == RenderPieces(pieces) + Strip(state, tail)
  {
    if pieces == [] {
      assert RenderPieces(pieces) + tail == tail;
    } else {
      StripPieces(state, quote, pieces[1..], tail);
      StripPiece(state, quote, pieces[0], RenderPieces(pieces[1..]) + tail);
      Copied(state, RenderPiece(pieces[0]), RenderPieces(pieces[1..]), tail);
    }
  }

  lemma StripVerbatimPiece(piece: VerbatimPiece, tail: string)
    requires piece.Verbatim? ==> piece.c != '"'
    ensures var head := if piece.QuotePair? then "\"\"" else [piece.c];
            Strip(InVerbatim, head + tail) == head + Strip(InVerbatim, tail)
  {
    var head := if piece.QuotePair? then "\"\"" else [piece.c];
    assert (head + tail)[..|head|] == head;
    StripStep(InVerbatim, head, tail, InVerbatim, head);
  }

  lemma {:induction false} StripVerbatim(pieces: seq<VerbatimPiece>, tail: string)
    requires ValidVerbatim(pieces)
    ensures Strip(InVerbatim, RenderVerbatim(pieces) + tail) == RenderVerbatim(pieces) + Strip(InVerbatim, tail)
  {
    if pieces == [] {
      assert RenderVerbatim(pieces) + tail == tail;
    } else {
      var head := if pieces[0].QuotePair? then "\"\"" else [pieces[0].c];
      StripVerbatim(pieces[1..], tail);
      StripVerbatimPiece(pieces[0], RenderVerbatim(pieces[1..]) + tail);
      Copied(InVerbatim, head, RenderVerbatim(pieces[1..]), tail);
    }
  }

  lemma StripLineByte(c: char, tail: string)
    requires c != '\n'
    ensures Strip(InLineComment, [c] + tail) == [c] + Strip(InLineComment, tail)
  {
    StripStep(InLineComment, [c], tail, InLineComment, [c]);
  }

  lemma {:induction false} StripLine(body: string, tail: string)
    requires '\n' !in body
    ensures Strip(InLineComment, body + tail) == body + Strip(InLineComment, tail)
  {
    if body == "" {
      assert body + tail == tail;
    } else {
      StripLine(body[1..], tail);
      StripLineByte(body[0], body[1..] + tail);
      Copied(InLineComment, [body[0]], body[1..], tail);
      assert body == [body[0]] + body[1..];
    }
  }

  lemma StripBlockByte(c: char, tail: string)
    requires !(c == '*' && StartsWith(tail, '/'))
    ensures Strip(InBlockComment, [c] + tail) == Blanked([c]) + Strip(InBlockComment, tail)
  {
    StripStep(InBlockComment, [c], tail, InBlockComment, Blanked([c]));
  }

  // No comment ends where the body meets what follows.
  predicate StaysOpen(body: string, tail: string)
  {
    StartsWith(tail, '/') ==> body == "" || body[|body| - 1] != '*'
  }

  lemma {:induction false} StripBlock(body: string, tail: string)
    requires NoClose(body) && StaysOpen(body, tail)
    ensures Strip(InBlockComment, body + tail) == Blanked(body) + Strip(InBlockComment, tail)
  {
    if body == "" {
      assert body + tail == tail;
    } else {
      var head, rest := [body[0]], body[1..];
      StripBlock(rest, tail);
      assert body == head + rest;
      Associate(head, rest, tail);
      BlankedSplit(head, rest);
      StripBlockByte(body[0], rest + tail);
      Associate(Blanked(head), Blanked(rest), Strip(InBlockComment, tail));
    }
  }

  // A literal from its opening to its closing quote.
  lemma StripString(quote: char, state: State, pieces: seq<Piece>, tail: string)
    requires (state == InString && quote == '"') || (state == InChar && quote == '\'')
    requires ValidPieces(pieces, quote)
    ensures var text := [quote] + RenderPieces(pieces) + [quote]; Strip(Code, text + tail) == text + Strip(Code, tail)
  {
    var q, body := [quote], RenderPieces(pieces);
    Associate(q + body, q, tail);
    Associate(q, body, q + tail);
    StripStep(Code, q, body + (q + tail), state, q);
    StripPieces(state, quote, pieces, q + tail);
    StripStep(state, q, tail, Code, q);
    Associate(q, body, q + Strip(Code, tail));
    Associate(q + body, q, Strip(Code, tail));
  }

  lemma StripVerbatimString(pieces: seq<VerbatimPiece>, tail: string)
    requires ValidVerbatim(pieces) && !StartsWith(tail, '"')
    ensures var text := "@\"" + RenderVerbatim(pieces) + "\""; Strip(Code, text + tail) == text + Strip(Code, tail)
  {
    var open, q, body := "@\"", "\"", RenderVerbatim(pieces);
    Associate(open + body, q, tail);
    Associate(open, body, q + tail);
    StripStep(Code, open, body + (q + tail), InVerbatim, open);
    StripVerbatim(pieces, q + tail);
    StripStep(InVerbatim, q, tail, Code, q);
    Associate(open, body, q + Strip(Code, tail));
    Associate(open + body, q, Strip(Code, tail));
  }

  lemma StripLineComment(body: string, tail: string)
    requires '\n' !in body && (tail == "" || tail[0] == '\n')
    ensures Strip(Code, "//" + body + tail) == "//" + body + Strip(Code, tail)
  {
    var rest := "/" + body;
    assert "//" + body == "/" + rest;
    Associate("/", rest, tail);
    StripStep(Code, "/", rest + tail, InLineComment, "/");
    StripLine(rest, tail);
    Associate("/", rest, Strip(InLineComment, tail));
  }

  lemma StripOpenBlock(body: string, tail: string)
    requires NoClose(body) && StaysOpen(body, tail)
    ensures Strip(Code, "/*" + body + tail) == Blanked("/*" + body) + Strip(InBlockComment, tail)
  {
    var open := "/*";
    assert Blanked(open) == "  ";
    Associate(open, body, tail);
    StripStep(Code, open, body + tail, InBlockComment, Blanked(open));
    StripBlock(body, tail);
    BlankedSplit(open, body);
    Associate(Blanked(open), Blanked(body), Strip(InBlockComment, tail));
  }

  lemma StripBlockComment(body: string, tail: string)
    requires NoClose(body)
    ensures Strip(Code, "/*" + body + "*/" + tail) == Blanked("/*" + body + "*/") + Strip(Code, tail)
  {
    var text, close := "/*" + body, "*/";
    Associate(text, close, tail);
    StripOpenBlock(body, close + tail);
    assert Blanked(close) == "  ";
    StripStep(InBlockComment, close, tail, Code, Blanked(close));
    BlankedSplit(text, close);
    Associate(Blanked(text), Blanked(close), Strip(Code, tail));
  }

  lemma StripToken(token: Token, tail: string)
    requires ValidToken(token, tail)
    ensures var text := RenderToken(token);
            Strip(Code, text + tail) == (if token.BlockComment? then Blanked(text) else text) + Strip(Code, tail)
  {
    match token
    case Byte(c) => StripStep(Code, [c], tail, Code, [c]);
    case BlockComment(body) => StripBlockComment(body, tail);
    case LineComment(body) => StripLineComment(body, tail);
    case RegularString(pieces) => StripString('"', InString, pieces, tail);
    case VerbatimString(pieces) => StripVerbatimString(pieces, tail);
    case CharLiteral(pieces) => StripString('\'', InChar, pieces, tail);
  }

  lemma StripOpenString(quote: char, state: State, pieces: seq<Piece>, dangling: bool)
    requires (state == InString && quote == '"') || (state == InChar && quote == '\'')
    requires ValidPieces(pieces, quote)
    ensures var text := [quote] + RenderPieces(pieces) + (if dangling then "\\" else ""); Strip(Code, text) == text
  {
    var body, tail := RenderPieces(pieces), if dangling then "\\" else "";
    assert [quote] + body + tail == [quote] + (body + tail);
    StripStep(Code, [quote], body + tail, state, [quote]);
    StripPieces(state, quote, pieces, tail);
    assert dangling ==> tail[1..] == "";
  }

  lemma StripEnding(ending: Ending)
    requires ValidEnding(ending)
    ensures Strip(Code, RenderEnding(ending)) == RenderBlanked([], ending)
  {
    match ending
    case Complete =>
    case OpenBlock(body) =>
      assert "/*" + body + "" == "/*" + body;
      StripOpenBlock(body, "");
    case OpenString(pieces, dangling) => StripOpenString('"', InString, pieces, dangling);
    case OpenVerbatim(pieces) =>
      var body := RenderVerbatim(pieces);
      assert body + "" == body;
      StripStep(Code, "@\"", body, InVerbatim, "@\"");
      StripVerbatim(pieces, "");
    case OpenChar(pieces, dangling) => StripOpenString('\'', InChar, pieces, dangling);
  }

  // The machine blanks exactly the block comments of this structure; text inside
  // strings, characters and line comments is shielded.
  lemma {:induction false} StripBlanksComments(tokens: seq<Token>, ending: Ending)
    requires ValidSource(tokens, ending)
    ensures Strip(Code, Render(tokens, ending)) == RenderBlanked(tokens, ending)
  {
    if tokens == [] {
      StripEnding(ending);
    } else {
      StripToken(tokens[0], Render(tokens[1..], ending));
      StripBlanksComments(tokens[1..], ending);
    }
  }

  // ---------------------------------------------------- every source has one

  lemma {:induction false} ScanPieces(quote: char, s: string)
    returns (pieces: seq<Piece>, dangling: bool, tail: string)
    requires quote != '\\'
    ensures ValidPieces(pieces, quote) && |tail| <= |s|
    ensures s == RenderPieces(pieces) + (if dangling then "\\" else tail)
    ensures !dangling && tail != "" ==> tail[0] == quote
  {
    if s == "" || s[0] == quote {
      pieces, dangling, tail := [], false, s;
      assert s == "" + tail;
    } else if s == "\\" {
      pieces, dangling, tail := [], true, "";
    } else {
      var piece := if s[0] == '\\' then Escape(s[1]) else Raw(s[0]);
      var head := RenderPiece(piece);
      assert s == head + s[|head|..];
      var rest;
      rest, dangling, tail := ScanPieces(quote, s[|head|..]);
      pieces := [piece] + rest;
      Associate(head, RenderPieces(rest), if dangling then "\\" else tail);
    }
  }

  lemma {:induction false} ScanVerbatim(s: string) returns (pieces: seq<VerbatimPiece>, tail: string)
    ensures ValidVerbatim(pieces) && s == RenderVerbatim(pieces) + tail
    ensures tail != "" ==> tail[0] == '"' && !StartsWith(tail[1..], '"')
  {
    if s == "" || (s[0] == '"' && !StartsWith(s[1..], '"')) {
      pieces, tail := [], s;
      assert s == "" + tail;
    } else {
      var piece := if s[0] == '"' then QuotePair else Verbatim(s[0]);
      var head := if piece.QuotePair? then "\"\"" else [s[0]];
      assert s == head + s[|head|..];
      var rest;
      rest, tail := ScanVerbatim(s[|head|..]);
      pieces := [piece] + rest;
      Associate(head, RenderVerbatim(rest), tail);
    }
  }

  lemma {:induction false} ScanBlock(s: string) returns (body: string, tail: string)
    ensures NoClose(body) && s == body + tail
    ensures tail != "" ==> |tail| >= 2 && tail[0] == '*' && tail[1] == '/'
  {
    if s == "" || (|s| > 1 && s[0] == '*' && s[1] == '/') {
      body, tail := "", s;
    } else {
      body, tail := ScanBlock(s[1..]);
      assert body == "" ==> tail == s[1..];
      assert body != "" ==> body[0] == s[1];
      body := [s[0]] + body;
    }
  }

  lemma {:induction false} ScanLine(s: string) returns (body: string, tail: string)
    ensures '\n' !in body && s == body + tail && (tail == "" || tail[0] == '\n')
  {
    if s == "" || s[0] == '\n' {
      body, tail := "", s;
    } else {
      body, tail := ScanLine(s[1..]);
      body := [s[0]] + body;
    }
  }

  // The first token of a source, or the unclosed element it ends in.
  lemma LexFirst(s: string) returns (token: Token, ending: Ending, tail: string)
    requires s != ""
    ensures ValidEnding(ending)
    ensures ending.Complete? ==> ValidToken(token, tail) && s == RenderToken(token) + tail
    ensures !ending.Complete? ==> s == RenderEnding(ending)
  {
    token, ending, tail := Byte(s[0]), Complete, s[1..];
    if s[0] == '/' && Next(s) == '*' {
      var body, rest := ScanBlock(s[2..]);
      assert s == "/*" + s[2..];
      Associate("/*", body, rest);
      if rest == "" {
        ending := OpenBlock(body);
        assert s == "/*" + body;
      } else {
        token, tail := BlockComment(body), rest[2..];
        assert rest == "*/" + tail;
        Associate("/*" + body, "*/", tail);
      }
    } else if s[0] == '/' && Next(s) == '/' {
      var body, rest := ScanLine(s[2..]);
      token, tail := LineComment(body), rest;
      assert s == "//" + s[2..];
      Associate("//", body, rest);
    } else if s[0] == '@' && Next(s) == '"' {
      var pieces, rest := ScanVerbatim(s[2..]);
      var body := RenderVerbatim(pieces);
      assert s == "@\"" + s[2..];
      Associate("@\"", body, rest);
      if rest == "" {
        ending := OpenVerbatim(pieces);
        assert s == "@\"" + body;
      } else {
        token, tail := VerbatimString(pieces), rest[1..];
        assert rest == "\"" + tail;
        Associate("@\"" + body, "\"", tail);
      }
    } else if s[0] == '"' || s[0] == '\'' {
      var quote := [s[0]];
      var pieces, dangling, rest := ScanPieces(s[0], s[1..]);
      var body := RenderPieces(pieces);
      assert s == quote + s[1..];
      Associate(quote, body, if dangling then "\\" else rest);
      if dangling || rest == "" {
        ending := if s[0] == '"' then OpenString(pieces, dangling) else OpenChar(pieces, dangling);
      } else {
        token, tail := if s[0] == '"' then RegularString(pieces) else CharLiteral(pieces), rest[1..];
        assert rest == quote + tail;
        Associate(quote + body, quote, tail);
      }
    }
  }

  // Every byte string is the rendering of a valid source, so the structure above
  // classifies every byte that StripBlockComments will ever see.
  lemma {:induction false} EverySourceLexes(s: string) returns (tokens: seq<Token>, ending: Ending)
    ensures ValidSource(tokens, ending) && Render(tokens, ending) == s
    decreases |s|
  {
    if s == "" { return [], Complete; }
    var token, open, tail := LexFirst(s);
    if !open.Complete? { return [], open; }
    var rest;
    rest, ending := EverySourceLexes(tail);
    tokens := [token] + rest;
  }

  // ---------------------------------------------------------- running it twice

  // Blanked output is plain code to a second run.
  function Visible(state: State): State
  {
    if state == InBlockComment then Code else state
  }

  // What the second run sees at one step of the first outside a comment.
  lemma SecondStep(state: State, s: string)
    requires s != "" && state != InBlockComment && Step(state, s).state != InBlockComment
    ensures var m := Step(state, s); Step(state, m.written + Strip(m.state, s[|m.written|..])) == m
  {
    var m := Step(state, s);
    var rest := s[|m.written|..];
    var out := m.written + Strip(m.state, rest);
    assert out[..|m.written|] == m.written && (|m.written| == 1 ==> m.written == [s[0]]);
    assert rest != "" ==> out[|m.written|] == Step(m.state, rest).written[0];
    match state
    case Code =>
    case InVerbatim =>
    case _ =>
  }

  lemma StripBlank(c: char, tail: string)
    requires c == ' ' || c == '\n'
    ensures Strip(Code, [c] + tail) == [c] + Strip(Code, tail)
  {
    StripStep(Code, [c], tail, Code, [c]);
  }

  lemma {:induction false} StripTwice(state: State, s: string)
    ensures Strip(Visible(state), Strip(state, s)) == Strip(state, s)
    decreases |s|
  {
    if s != "" {
      var m := Step(state, s);
      var tail := Strip(m.state, s[|m.written|..]);
      StripTwice(m.state, s[|m.written|..]);
      if state != InBlockComment && m.state != InBlockComment {
        SecondStep(state, s);
        StripStep(state, m.written, tail, m.state, m.written);
      } else if |m.written| == 1 {
        assert m.written == [m.written[0]];
        StripBlank(m.written[0], tail);
      } else {
        assert m.written == " " + " ";
        Associate(" ", " ", tail);
        StripBlank(' ', " " + tail);
        StripBlank(' ', tail);
        Associate(" ", " ", Strip(Code, tail));
      }
    }
  }

  lemma StripIdempotent(src: string)
    ensures Strip(Code, Strip(Code, src)) == Strip(Code, src)
  {
    StripTwice(Code, src);
  }
}
