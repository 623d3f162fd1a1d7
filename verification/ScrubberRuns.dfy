// What the scrubber does with a text in front of any continuation.
module ScrubberRuns {
  import opened Collecting
  import opened FixtureLexer
  import opened Literals

  // No step of the scrubber reaches across the end of s.
  predicate CutAt(s: string, tail: string)
  {
    s == "" || s[|s| - 1] == '\n' || (s[|s| - 1] == '"' && !StartsWith(tail, '"'))
  }

  // The state in which the scrubber leaves a source of this structure.
  function Left(tokens: seq<Token>, ending: Ending): State
  {
    match ending
    case Complete => if tokens != [] && tokens[|tokens| - 1].LineComment? then InLineComment else Code
    case OpenBlock(_) => InBlockComment
    case OpenString(_, _) => InString
    case OpenVerbatim(_) => InVerbatim
    case OpenChar(_, _) => InChar
  }

  lemma OpenLiteralRun(quote: char, state: State, pieces: seq<Piece>, tail: string)
    requires (state == InString && quote == '"') || (state == InChar && quote == '\'')
    requires ValidPieces(pieces, quote)
    ensures var text := [quote] + RenderPieces(pieces) + ""; Strip(Code, text + tail) == text + Strip(state, tail)
  {
    var q, body := [quote], RenderPieces(pieces);
    assert q + body + "" == q + body;
    Associate(q, body, tail);
    StripStep(Code, q, body + tail, state, q);
    StripPieces(state, quote, pieces, tail);
    Associate(q, body, Strip(state, tail));
  }

  lemma OpenVerbatimRun(pieces: seq<VerbatimPiece>, tail: string)
    requires ValidVerbatim(pieces)
    ensures var text := "@\"" + RenderVerbatim(pieces); Strip(Code, text + tail) == text + Strip(InVerbatim, tail)
  {
    var open, body := "@\"", RenderVerbatim(pieces);
    Associate(open, body, tail);
    StripStep(Code, open, body + tail, InVerbatim, open);
    StripVerbatim(pieces, tail);
    Associate(open, body, Strip(InVerbatim, tail));
  }

  lemma OpenLineRun(body: string, tail: string)
    requires '\n' !in body
    ensures Strip(Code, "//" + body + tail) == "//" + body + Strip(InLineComment, tail)
  {
    var rest := "/" + body;
    assert "//" + body == "/" + rest;
    Associate("/", rest, tail);
    StripStep(Code, "/", rest + tail, InLineComment, "/");
    StripLine(rest, tail);
    Associate("/", rest, Strip(InLineComment, tail));
  }

  lemma EndingRun(ending: Ending, tail: string)
    requires ValidEnding(ending) && CutAt(RenderEnding(ending), tail)
    ensures Strip(Code, RenderEnding(ending) + tail) == RenderBlanked([], ending) + Strip(Left([], ending), tail)
  {
    match ending
    case Complete => assert "" + tail == tail && "" + Strip(Code, tail) == Strip(Code, tail);
    case OpenBlock(body) => StripOpenBlock(body, tail);
    case OpenString(pieces, _) => OpenLiteralRun('"', InString, pieces, tail);
    case OpenVerbatim(pieces) => OpenVerbatimRun(pieces, tail);
    case OpenChar(pieces, _) => OpenLiteralRun('\'', InChar, pieces, tail);
  }

  lemma LastTokenRun(token: Token, tail: string)
    requires ValidToken(token, "") && CutAt(RenderToken(token), tail)
    ensures var text := RenderToken(token);
            Strip(Code, text + tail) == Written(token) + Strip(Left([token], Complete), tail)
  {
    if token.LineComment? {
      OpenLineRun(token.body, tail);
    } else {
      StripToken(token, tail);
    }
  }

  lemma TokenAhead(token: Token, after: string, tail: string)
    requires ValidToken(token, after) && after != ""
    ensures ValidToken(token, after + tail)
  {
    assert (after + tail)[0] == after[0];
  }

  lemma CutBehind(s: string, rest: string, tail: string)
    requires CutAt(s + rest, tail) && rest != ""
    ensures CutAt(rest, tail)
  {
    assert (s + rest)[|s + rest| - 1] == rest[|rest| - 1];
  }

  // What a token turns into.
  function Written(token: Token): string
  {
    if token.BlockComment? then Blanked(RenderToken(token)) else RenderToken(token)
  }

  lemma FirstToken(tokens: seq<Token>, ending: Ending)
    requires tokens != []
    ensures Render(tokens, ending) == RenderToken(tokens[0]) + Render(tokens[1..], ending)
    ensures RenderBlanked(tokens, ending) == Written(tokens[0]) + RenderBlanked(tokens[1..], ending)
  {
  }

  lemma OneToken(token: Token)
    ensures Render([token], Complete) == RenderToken(token) && RenderBlanked([token], Complete) == Written(token)
  {
    assert [token][1..] == [];
    FirstToken([token], Complete);
    assert RenderToken(token) + "" == RenderToken(token) && Written(token) + "" == Written(token);
  }

  lemma TokenThenRest(token: Token, rest: string, tail: string, blanked: string, end: string)
    requires ValidToken(token, rest + tail) && Strip(Code, rest + tail) == blanked + end
    ensures Strip(Code, RenderToken(token) + rest + tail) == Written(token) + blanked + end
  {
    Associate(RenderToken(token), rest, tail);
    StripToken(token, rest + tail);
    Associate(Written(token), blanked, end);
  }

  lemma LeftBehind(tokens: seq<Token>, ending: Ending)
    requires tokens != [] && Render(tokens[1..], ending) != ""
    ensures Left(tokens, ending) == Left(tokens[1..], ending)
  {
  }

  // A source is scrubbed as its structure says in front of every continuation that no
  // step of the scrubber reaches into, which it enters in the state it is left in.
  lemma {:induction false} RunOn(tokens: seq<Token>, ending: Ending, tail: string)
    requires ValidSource(tokens, ending) && CutAt(Render(tokens, ending), tail)
    ensures Strip(Code, Render(tokens, ending) + tail) == RenderBlanked(tokens, ending) + Strip(Left(tokens, ending), tail)
  {
    if tokens == [] {
      EndingRun(ending, tail);
    } else {
      var token, rest := tokens[0], Render(tokens[1..], ending);
      FirstToken(tokens, ending);
      if rest == "" {
        assert tokens == [token];
        LastRun(token, ending, tail);
      } else {
        TokenAhead(token, rest, tail);
        CutBehind(RenderToken(token), rest, tail);
        RunOn(tokens[1..], ending, tail);
        TokenThenRest(token, rest, tail, RenderBlanked(tokens[1..], ending), Strip(Left(tokens[1..], ending), tail));
        LeftBehind(tokens, ending);
      }
    }
  }

  lemma LastRun(token: Token, ending: Ending, tail: string)
    requires RenderEnding(ending) == "" && ValidToken(token, "") && CutAt(RenderToken(token), tail)
    ensures Strip(Code, Render([token], ending) + tail) == RenderBlanked([token], ending) + Strip(Left([token], ending), tail)
  {
    OneToken(token);
    LastTokenRun(token, tail);
  }

  // After any other state some text comes out differently than after code.
  lemma StatesDiffer(state: State) returns (tail: string)
    requires state != Code
    ensures tail != "" && tail[0] != '"' && Strip(state, tail) != Strip(Code, tail)
  {
    if state == InBlockComment {
      tail := "x";
      assert Step(Code, tail) == Move(Code, "x") && Step(InBlockComment, tail) == Move(InBlockComment, " ");
      assert Strip(Code, tail)[0] == 'x' && Strip(InBlockComment, tail)[0] == ' ';
    } else {
      tail := "/**/";
      assert Step(Code, tail) == Move(InBlockComment, "  ");
      assert Strip(Code, tail)[0] == ' ';
      StripCopies(state, tail);
      assert Strip(state, tail)[0] == '/';
    }
  }

  // Inside a literal or line comment, text that cannot end it is copied.
  lemma {:induction false} StripCopies(state: State, s: string)
    requires state != Code && state != InBlockComment
    requires forall i :: 0 <= i < |s| ==> s[i] !in {'"', '\'', '\\'} && (state == InLineComment ==> s[i] != '\n')
    ensures Strip(state, s) == s
    decreases |s|
  {
    if s != "" {
      assert Step(state, s) == Move(state, s[..1]);
      StripCopies(state, s[1..]);
    }
  }

  lemma SamePrefix(a: string, b: string, c: string, d: string)
    requires a + b == c + d && |a| == |c|
    ensures a == c && b == d
  {
    assert a == (a + b)[..|a|] && c == (c + d)[..|c|];
    assert b == (a + b)[|a|..] && d == (c + d)[|c|..];
  }

  // What comes out is what went in exactly if there is nothing to blank.
  lemma {:induction false} NothingBlanked(tokens: seq<Token>)
    ensures RenderBlanked(tokens, Complete) == Render(tokens, Complete) <==>
            NoBlockComment(tokens)
  {
    if tokens != [] {
      var text := RenderToken(tokens[0]);
      var written := if tokens[0].BlockComment? then Blanked(text) else text;
      NothingBlanked(tokens[1..]);
      if tokens[0].BlockComment? { assert written[0] != text[0]; }
      if RenderBlanked(tokens, Complete) == Render(tokens, Complete) {
        SamePrefix(written, RenderBlanked(tokens[1..], Complete), text, Render(tokens[1..], Complete));
      }
      assert NoBlockComment(tokens) <==> !tokens[0].BlockComment? && NoBlockComment(tokens[1..]) by {
        assert forall i :: 0 < i < |tokens| ==> tokens[i] == tokens[1..][i - 1];
      }
    }
  }

  lemma {:induction false} LastOfRender(tokens: seq<Token>)
    requires tokens != []
    ensures Render(tokens, Complete) != ""
    ensures var text, last := Render(tokens, Complete), RenderToken(tokens[|tokens| - 1]);
            text[|text| - 1] == last[|last| - 1]
  {
    if |tokens| > 1 {
      LastOfRender(tokens[1..]);
    } else {
      assert Render(tokens[1..], Complete) == "";
    }
  }

  // A complete last line leaves the scrubber in code, unless something is open.
  lemma LineLeavesCode(tokens: seq<Token>, text: string)
    requires ValidSource(tokens, Complete) && Render(tokens, Complete) == text && text != "" && text[|text| - 1] == '\n'
    ensures Left(tokens, Complete) == Code
  {
    LastOfRender(tokens);
    var last := tokens[|tokens| - 1];
    if last.LineComment? { LastTokenValid(tokens); }
  }

  lemma {:induction false} LastTokenValid(tokens: seq<Token>)
    requires tokens != [] && ValidSource(tokens, Complete)
    ensures ValidToken(tokens[|tokens| - 1], "")
  {
    if |tokens| > 1 { LastTokenValid(tokens[1..]); }
  }

  // Text without quotes in which no comment opens.
  predicate Quiet(line: string)
  {
    && (forall i :: 0 <= i < |line| ==> line[i] != '"' && line[i] != '\'')
    && (forall i :: 0 <= i < |line| - 1 ==> !OpensComment(line, i))
  }

  predicate OpensComment(line: string, i: nat)
    requires i < |line| - 1
  {
    line[i] == '/' && (line[i + 1] == '/' || line[i + 1] == '*')
  }

  // Nor does a comment or verbatim string open where the two texts meet.
  predicate Joins(line: string, rest: string)
  {
    line != "" ==>
      && (line[|line| - 1] == '/' ==> !StartsWith(rest, '/') && !StartsWith(rest, '*'))
      && (line[|line| - 1] == '@' ==> !StartsWith(rest, '"'))
  }

  lemma QuietBehind(line: string, rest: string)
    requires Quiet(line) && Joins(line, rest) && line != ""
    ensures Quiet(line[1..]) && Joins(line[1..], rest) && ValidToken(Byte(line[0]), line[1..] + rest)
  {
    assert |line| > 1 ==> !OpensComment(line, 0);
    forall i | 0 <= i < |line[1..]| - 1 ensures !OpensComment(line[1..], i) {
      assert !OpensComment(line, i + 1);
    }
  }

  predicate NoBlockComment(tokens: seq<Token>)
  {
    forall i :: 0 <= i < |tokens| ==> !tokens[i].BlockComment?
  }

  lemma ByteFirst(c: char, tokens: seq<Token>, ending: Ending)
    requires ValidSource(tokens, ending) && ValidToken(Byte(c), Render(tokens, ending))
    ensures var all := [Byte(c)] + tokens;
            && ValidSource(all, ending) && Render(all, ending) == [c] + Render(tokens, ending)
            && RenderBlanked(all, ending) == [c] + RenderBlanked(tokens, ending)
            && Left(all, ending) == Left(tokens, ending) && (NoBlockComment(tokens) ==> NoBlockComment(all))
  {
    assert ([Byte(c)] + tokens)[1..] == tokens;
  }

  // Such text is single bytes to the scrubber, whatever it leads up to.
  lemma {:induction false} QuietBytes(line: string, tokens: seq<Token>, ending: Ending) returns (all: seq<Token>)
    requires Quiet(line) && ValidSource(tokens, ending) && Joins(line, Render(tokens, ending))
    ensures ValidSource(all, ending) && Render(all, ending) == line + Render(tokens, ending)
    ensures RenderBlanked(all, ending) == line + RenderBlanked(tokens, ending)
    ensures Left(all, ending) == Left(tokens, ending) && (NoBlockComment(tokens) ==> NoBlockComment(all))
  {
    if line == "" {
      all := tokens;
      assert line + Render(tokens, ending) == Render(tokens, ending);
      assert line + RenderBlanked(tokens, ending) == RenderBlanked(tokens, ending);
    } else {
      var head, text := [line[0]], line[1..];
      QuietBehind(line, Render(tokens, ending));
      var rest := QuietBytes(text, tokens, ending);
      ByteFirst(line[0], rest, ending);
      all := [Byte(line[0])] + rest;
      assert line == head + text;
      Associate(head, text, Render(tokens, ending));
      Associate(head, text, RenderBlanked(tokens, ending));
    }
  }

  // In front of a source without block comments it is copied with it.
  lemma QuietCopied(line: string, tokens: seq<Token>, ending: Ending)
    requires Quiet(line) && ValidSource(tokens, ending) && Joins(line, Render(tokens, ending))
    ensures Strip(Code, line + Render(tokens, ending)) == line + RenderBlanked(tokens, ending)
  {
    var all := QuietBytes(line, tokens, ending);
    StripBlanksComments(all, ending);
  }
}
