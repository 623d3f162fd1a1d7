// C# source as the language divides it, against the comment scrubber. FixtureLexer
// classifies every byte by the scrubber's own notion of a token. Here regular strings
// and characters end with their line, a preprocessing line is an element together with
// the lines it skips, and an interpolated string is one with everything in its holes
// (sections 6.3, 6.4.5, 6.5 and 12.8.3 of ECMA-334, 6th edition).
module CSharpSource {
  import opened Collecting
  import opened FixtureLexer
  import opened Interpolation
  import opened Literals
  import opened Options
  import opened Preprocessing
  import opened ScrubberRuns

  datatype Element =
    | Lexical(token: Token)
    | Directive(line: string, skipped: string)
      // Blanked are the comments in its holes.
    | Interpolated(text: string, blanked: string)
      // Not C#: a literal that its line leaves open, where a line-bounded lexer
      // gives up on it and goes on with the next line.
    | Unclosed(quote: char, pieces: seq<Piece>, dangling: bool)

  function Text(e: Element): (r: string)
    ensures r != ""
  {
    match e
    case Lexical(token) => RenderToken(token)
    case Directive(line, skipped) => line + "\n" + skipped
    case Interpolated(text, _) => if text == "" then "$" else text
    case Unclosed(quote, pieces, dangling) => [quote] + RenderPieces(pieces) + (if dangling then "\\\n" else "\n")
  }

  function Texts(elements: seq<Element>): string
  {
    if elements == [] then "" else Text(elements[0]) + Texts(elements[1..])
  }

  predicate InLine(pieces: seq<Piece>)
  {
    forall i :: 0 <= i < |pieces| ==> pieces[i].c != '\n'
  }

  predicate LineBound(token: Token)
  {
    match token
    case RegularString(pieces) => InLine(pieces)
    case CharLiteral(pieces) => InLine(pieces)
    case _ => true
  }

  // Where an element stands: the text before it and the conditionals open there.
  datatype Context = Context(before: string, open: Conditionals)

  const START := Context("", [])

  // Only white space stands on the current line so far.
  predicate BlankLine(before: string)
  {
    if before == "" then true
    else
      var c := before[|before| - 1];
      c == '\n' || (IsWhite(c) && BlankLine(before[..|before| - 1]))
  }

  // A directive whose section is not selected skips to the line that closes it.
  predicate Skips(symbols: Symbols, ctx: Context, line: string, skipped: string, after: string)
  {
    if Selects(symbols, ctx.before, line, ctx.open) then skipped == ""
    else SectionLength(KindOf, skipped + after, 0) == Some(|skipped|)
  }

  // An element in front of the text `after`.
  predicate ValidElement(symbols: Symbols, ctx: Context, e: Element, after: string)
  {
    match e
    case Lexical(token) =>
      && ValidToken(token, after) && LineBound(token)
      && (token == Byte('#') ==> !BlankLine(ctx.before))
      && (token == Byte('$') ==> !StartsInterpolated("$" + after))
    case Directive(line, skipped) =>
      && BlankLine(ctx.before) && StartsWith(line, '#') && '\n' !in line
      && Skips(symbols, ctx, line, skipped, after)
    case Interpolated(text, blanked) =>
      StartsInterpolated(text) && Interpolate(text + after) == Just(Closed(blanked, after))
    case Unclosed(quote, pieces, _) => (quote == '"' || quote == '\'') && ValidPieces(pieces, quote) && InLine(pieces)
  }

  function Past(symbols: Symbols, ctx: Context, e: Element): Context
  {
    Context(ctx.before + Text(e),
            if e.Directive? then AfterDirective(symbols, ctx.before, e.line, ctx.open) else ctx.open)
  }

  predicate ValidElements(symbols: Symbols, ctx: Context, elements: seq<Element>, after: string)
    decreases elements
  {
    elements != [] ==>
      && ValidElement(symbols, ctx, elements[0], Texts(elements[1..]) + after)
      && ValidElements(symbols, Past(symbols, ctx, elements[0]), elements[1..], after)
  }

  function PastAll(symbols: Symbols, ctx: Context, elements: seq<Element>): Context
    decreases elements
  {
    if elements == [] then ctx else PastAll(symbols, Past(symbols, ctx, elements[0]), elements[1..])
  }

  // Comments blanked, everything else as it is, skipped sections included.
  function BlankedElement(e: Element): string
  {
    if e.Lexical? && e.token.BlockComment? then Blanked(Text(e))
    else if e.Interpolated? then e.blanked
    else Text(e)
  }

  function BlankedElements(elements: seq<Element>): string
  {
    if elements == [] then "" else BlankedElement(elements[0]) + BlankedElements(elements[1..])
  }

  // ---------------------------------------------------- what the scrubber handles

  // The element divides into tokens of the scrubber's, the last of which leaves it in
  // code, and its comments are the block comments among them.
  predicate DividesInto(e: Element, tokens: seq<Token>)
  {
    && ValidSource(tokens, Complete) && Render(tokens, Complete) == Text(e)
    && RenderBlanked(tokens, Complete) == BlankedElement(e) && Left(tokens, Complete) == Code
  }

  ghost predicate Handled(e: Element)
  {
    e.Lexical? || exists tokens :: DividesInto(e, tokens)
  }

  // The element is scrubbed as C# means it in front of everything that can follow it,
  // which is scrubbed as if it stood alone.
  ghost predicate AlwaysRight(symbols: Symbols, ctx: Context, e: Element)
  {
    forall tail {:trigger ValidElement(symbols, ctx, e, tail)} :: ValidElement(symbols, ctx, e, tail) ==>
      Strip(Code, Text(e) + tail) == BlankedElement(e) + Strip(Code, tail)
  }

  predicate TextsCut(e: Element, tail: string) { CutAt(Text(e), tail) }

  lemma DirectiveCut(symbols: Symbols, ctx: Context, e: Element, after: string)
    requires e.Directive? && ValidElement(symbols, ctx, e, after)
    ensures Text(e)[|Text(e)| - 1] == '\n'
  {
    if e.skipped != "" {
      var lines, rest := SectionEnds(KindOf, e.skipped + after, 0);
      assert lines == (e.skipped + after)[..|lines|] == e.skipped;
    }
  }

  lemma InterpolatedCut(symbols: Symbols, ctx: Context, e: Element, after: string)
    requires e.Interpolated? && ValidElement(symbols, ctx, e, after)
    ensures 2 < |e.text| == |e.blanked| && e.text[|e.text| - 1] == '"' && !StartsWith(after, '"')
  {
    InterpolateEnds(e.text + after);
  }

  lemma ElementCut(symbols: Symbols, ctx: Context, e: Element, after: string)
    requires ValidElement(symbols, ctx, e, after) && !e.Lexical?
    ensures TextsCut(e, after) && TextsCut(e, "") && |BlankedElement(e)| == |Text(e)|
  {
    if e.Directive? { DirectiveCut(symbols, ctx, e, after); }
    if e.Interpolated? { InterpolatedCut(symbols, ctx, e, after); }
  }

  lemma HandledStep(e: Element, tail: string)
    requires Handled(e) && !e.Lexical? && TextsCut(e, tail)
    ensures Strip(Code, Text(e) + tail) == BlankedElement(e) + Strip(Code, tail)
  {
    var tokens :| DividesInto(e, tokens);
    RunOn(tokens, Complete, tail);
  }

  lemma BlankedLength(tokens: seq<Token>, ending: Ending)
    requires ValidSource(tokens, ending)
    ensures |RenderBlanked(tokens, ending)| == |Render(tokens, ending)|
  {
    StripBlanksComments(tokens, ending);
    StripKeepsLayout(Code, Render(tokens, ending));
  }

  // No element is handled that the scrubber leaves in another state than code.
  lemma OpenNeverHandled(e: Element, tokens: seq<Token>, ending: Ending)
    requires !e.Lexical? && TextsCut(e, "")
    requires ValidSource(tokens, ending) && Render(tokens, ending) == Text(e) && Left(tokens, ending) != Code
    ensures !Handled(e)
  {
    if Handled(e) {
      var tokens' :| DividesInto(e, tokens');
      var tail := StatesDiffer(Left(tokens, ending));
      RunOn(tokens, ending, tail);
      RunOn(tokens', Complete, tail);
      BlankedLength(tokens, ending);
      BlankedLength(tokens', Complete);
      SamePrefix(RenderBlanked(tokens, ending), Strip(Left(tokens, ending), tail),
                 RenderBlanked(tokens', Complete), Strip(Code, tail));
    }
  }

  lemma EndifCloses(rest: string)
    ensures Closes(KindOf, "#endif\n" + rest)
  {
    KindOfWord("endif");
    assert "#" + "endif" == "#endif";
    ClosesWith(KindOf, "#endif", rest);
    assert "#endif\n" + rest == "#endif" + "\n" + rest;
  }

  // Behind a directive every state but code shows in front of some closing line.
  lemma ClosingTellsApart(state: State) returns (tail: string)
    requires state != Code && state != InLineComment
    ensures Closes(KindOf, tail) && Strip(state, tail) != Strip(Code, tail)
  {
    var line, comment := "#endif\n", [BlockComment("")];
    tail := line + Render(comment, Complete);
    OneToken(BlockComment(""));
    assert Render(comment, Complete) == "/**/" && RenderBlanked(comment, Complete) == "    ";
    EndifCloses("/**/");
    QuietCopied(line, comment, Complete);
    if state == InBlockComment {
      StripStep(state, "#", tail[1..], state, " ");
      assert Strip(state, tail)[0] == ' ' && Strip(Code, tail)[0] == '#';
    } else {
      StripCopies(state, tail);
      assert Strip(state, tail)[7] == '/' && Strip(Code, tail)[7] == ' ';
    }
  }

  // In front of what can follow an element, every state but code shows.
  lemma TellsApart(symbols: Symbols, ctx: Context, e: Element, after: string, state: State) returns (tail: string)
    requires !e.Lexical? && ValidElement(symbols, ctx, e, after)
    requires state != Code && (e.Directive? ==> state != InLineComment)
    ensures ValidElement(symbols, ctx, e, tail) && Strip(state, tail) != Strip(Code, tail)
  {
    if e.Directive? {
      tail := ClosingTellsApart(state);
      if !Selects(symbols, ctx.before, e.line, ctx.open) {
        SectionCut(KindOf, e.skipped, after, 0, tail);
      }
    } else {
      tail := StatesDiffer(state);
      if e.Interpolated? { InterpolateCut(e.text, after, tail); }
    }
  }

  // Exactly: an element that the scrubber has no token for is scrubbed as C# means it,
  // in front of everything that can follow it, if and only if it divides into tokens
  // of the scrubber's that hold the same comments and leave it in code.
  lemma HandledExactly(symbols: Symbols, ctx: Context, e: Element, after: string)
    requires !e.Lexical? && ValidElement(symbols, ctx, e, after)
    ensures AlwaysRight(symbols, ctx, e) <==> Handled(e)
  {
    if Handled(e) {
      forall tail | ValidElement(symbols, ctx, e, tail)
        ensures Strip(Code, Text(e) + tail) == BlankedElement(e) + Strip(Code, tail)
      {
        ElementCut(symbols, ctx, e, tail);
        HandledStep(e, tail);
      }
    }
    if AlwaysRight(symbols, ctx, e) {
      RightDivides(symbols, ctx, e, after);
    }
  }

  lemma RightAt(symbols: Symbols, ctx: Context, e: Element, tail: string, tokens: seq<Token>, ending: Ending)
    requires !e.Lexical? && ValidElement(symbols, ctx, e, tail) && AlwaysRight(symbols, ctx, e)
    requires ValidSource(tokens, ending) && Render(tokens, ending) == Text(e)
    ensures RenderBlanked(tokens, ending) == BlankedElement(e) && Strip(Left(tokens, ending), tail) == Strip(Code, tail)
  {
    ElementCut(symbols, ctx, e, tail);
    RunOn(tokens, ending, tail);
    BlankedLength(tokens, ending);
    SamePrefix(RenderBlanked(tokens, ending), Strip(Left(tokens, ending), tail), BlankedElement(e), Strip(Code, tail));
  }

  lemma RightDivides(symbols: Symbols, ctx: Context, e: Element, after: string)
    requires !e.Lexical? && ValidElement(symbols, ctx, e, after) && AlwaysRight(symbols, ctx, e)
    ensures Handled(e)
  {
    var tokens, ending := EverySourceLexes(Text(e));
    var state := Left(tokens, ending);
    RightAt(symbols, ctx, e, after, tokens, ending);
    if e.Directive? && ending.Complete? {
      DirectiveCut(symbols, ctx, e, after);
      LineLeavesCode(tokens, Text(e));
    }
    if state != Code {
      var tail := TellsApart(symbols, ctx, e, after, state);
      RightAt(symbols, ctx, e, tail, tokens, ending);
    }
    assert DividesInto(e, tokens);
  }

  // What a caller can check of a text alone: it divides into tokens of the scrubber's
  // of which none is a block comment.
  ghost predicate Tidy(text: string)
  {
    exists tokens :: TidyAs(text, tokens)
  }

  predicate TidyAs(text: string, tokens: seq<Token>)
  {
    ValidSource(tokens, Complete) && Render(tokens, Complete) == text && NoBlockComment(tokens)
  }

  // For a directive, with the lines it skips, that is all.
  lemma DirectiveHandledExactly(e: Element)
    requires e.Directive? && Text(e)[|Text(e)| - 1] == '\n'
    ensures Handled(e) <==> Tidy(Text(e))
  {
    if Handled(e) {
      var tokens :| DividesInto(e, tokens);
      NothingBlanked(tokens);
      assert TidyAs(Text(e), tokens);
    }
    if Tidy(Text(e)) {
      var tokens :| TidyAs(Text(e), tokens);
      NothingBlanked(tokens);
      LineLeavesCode(tokens, Text(e));
      assert DividesInto(e, tokens);
    }
  }

  // For an interpolated string without comments in its holes, the last token must not
  // be a line comment either.
  lemma InterpolatedHandledExactly(e: Element)
    requires e.Interpolated? && e.text != "" && e.blanked == e.text
    ensures Handled(e) <==> exists tokens :: TidyAs(e.text, tokens) && Left(tokens, Complete) == Code
  {
    if Handled(e) {
      var tokens :| DividesInto(e, tokens);
      NothingBlanked(tokens);
      assert TidyAs(e.text, tokens);
    }
    if exists tokens :: TidyAs(e.text, tokens) && Left(tokens, Complete) == Code {
      var tokens :| TidyAs(e.text, tokens) && Left(tokens, Complete) == Code;
      NothingBlanked(tokens);
      assert DividesInto(e, tokens);
    }
  }

  // ------------------------------------------------------------- whole sources

  lemma ElementStep(symbols: Symbols, ctx: Context, e: Element, after: string)
    requires ValidElement(symbols, ctx, e, after) && Handled(e)
    ensures Strip(Code, Text(e) + after) == BlankedElement(e) + Strip(Code, after)
  {
    if e.Lexical? {
      StripToken(e.token, after);
    } else {
      ElementCut(symbols, ctx, e, after);
      HandledStep(e, after);
    }
  }

  ghost predicate AllHandled(elements: seq<Element>)
  {
    forall i :: 0 <= i < |elements| ==> Handled(elements[i])
  }

  lemma {:induction false} HandledRun(symbols: Symbols, ctx: Context, elements: seq<Element>, after: string)
    requires ValidElements(symbols, ctx, elements, after) && AllHandled(elements)
    ensures Strip(Code, Texts(elements) + after) == BlankedElements(elements) + Strip(Code, after)
    decreases elements
  {
    if elements == [] {
      assert Texts(elements) + after == after;
    } else {
      var e, rest := elements[0], elements[1..];
      assert Handled(e) && AllHandled(rest);
      HandledRun(symbols, Past(symbols, ctx, e), rest, after);
      ElementStep(symbols, ctx, e, Texts(rest) + after);
      Associate(Text(e), Texts(rest), after);
      Associate(BlankedElement(e), BlankedElements(rest), Strip(Code, after));
    }
  }

  // How a source can end when its last line is complete: nowhere, or inside a block
  // comment or verbatim string.
  predicate LineEnding(ending: Ending)
  {
    ValidEnding(ending) && (ending.Complete? || ending.OpenBlock? || ending.OpenVerbatim?)
  }

  // The scrubber blanks exactly the comments of a C# source, as long as it handles its
  // directives, skipped sections and interpolated strings.
  lemma CommentsBlanked(symbols: Symbols, elements: seq<Element>, ending: Ending)
    requires LineEnding(ending) && ValidElements(symbols, START, elements, RenderEnding(ending)) && AllHandled(elements)
    ensures Strip(Code, Texts(elements) + RenderEnding(ending)) == BlankedElements(elements) + RenderBlanked([], ending)
  {
    HandledRun(symbols, START, elements, RenderEnding(ending));
    StripEnding(ending);
  }

  // Validity looks no further than two characters or a closing line ahead.
  lemma ElementAhead(symbols: Symbols, ctx: Context, e: Element, after: string, tail: string)
    requires ValidElement(symbols, ctx, e, after) && |after| >= 2
    ensures ValidElement(symbols, ctx, e, after + tail)
  {
    match e
    case Lexical(token) =>
      assert (after + tail)[..2] == after[..2];
      assert ("$" + (after + tail))[..3] == ("$" + after)[..3];
    case Directive(line, skipped) =>
      if !Selects(symbols, ctx.before, line, ctx.open) {
        var lines, rest := SectionEnds(KindOf, skipped + after, 0);
        assert rest == (skipped + after)[|skipped|..] == after;
        ClosesAhead(KindOf, after, tail);
        SectionCut(KindOf, skipped, after, 0, after + tail);
      }
    case Interpolated(text, blanked) =>
      InterpolatedCut(symbols, ctx, e, after);
      InterpolateCut(text, after, after + tail);
    case Unclosed(_, _, _) =>
  }

  lemma {:induction false} ElementsAhead(symbols: Symbols, ctx: Context, elements: seq<Element>, after: string, tail: string)
    requires ValidElements(symbols, ctx, elements, after) && |after| >= 2
    ensures ValidElements(symbols, ctx, elements, after + tail)
    decreases elements
  {
    if elements != [] {
      var rest := Texts(elements[1..]);
      Associate(rest, after, tail);
      ElementAhead(symbols, ctx, elements[0], rest + after, tail);
      ElementsAhead(symbols, Past(symbols, ctx, elements[0]), elements[1..], after, tail);
    }
  }

  // The scrubber is right about everything that can follow these elements and e.
  ghost predicate RightBehind(symbols: Symbols, elements: seq<Element>, e: Element)
  {
    var ctx := PastAll(symbols, START, elements);
    forall tail {:trigger ValidElement(symbols, ctx, e, tail)} :: ValidElement(symbols, ctx, e, tail) ==>
      Strip(Code, Texts(elements) + (Text(e) + tail)) == BlankedElements(elements) + (BlankedElement(e) + Strip(Code, tail))
  }

  // Comments are blanked as the structure says exactly as long as its elements are
  // handled: at the first that is no token of the scrubber's, every continuation is
  // scrubbed accordingly if and only if that element is handled.
  lemma AgreesExactly(symbols: Symbols, elements: seq<Element>, e: Element, after: string)
    requires ValidElements(symbols, START, elements, Text(e)) && AllHandled(elements)
    requires ValidElement(symbols, PastAll(symbols, START, elements), e, after) && !e.Lexical?
    ensures RightBehind(symbols, elements, e) <==> Handled(e)
  {
    var ctx := PastAll(symbols, START, elements);
    ElementCut(symbols, ctx, e, after);
    forall tail | ValidElement(symbols, ctx, e, tail)
      ensures Strip(Code, Texts(elements) + (Text(e) + tail)) == BlankedElements(elements) + (BlankedElement(e) + Strip(Code, tail)) <==>
              Strip(Code, Text(e) + tail) == BlankedElement(e) + Strip(Code, tail)
    {
      if e.Interpolated? { InterpolatedCut(symbols, ctx, e, after); }
      ElementsAhead(symbols, START, elements, Text(e), tail);
      HandledRun(symbols, START, elements, Text(e) + tail);
      PrefixCancels(BlankedElements(elements), Strip(Code, Text(e) + tail), BlankedElement(e) + Strip(Code, tail));
    }
    HandledExactly(symbols, ctx, e, after);
  }

  // ------------------------------------------------- which elements are handled

  lemma {:induction false} PieceAppended(pieces: seq<Piece>, last: Piece, quote: char)
    requires ValidPieces(pieces, quote) && (last.Raw? ==> last.c != quote && last.c != '\\')
    ensures ValidPieces(pieces + [last], quote)
    ensures RenderPieces(pieces + [last]) == RenderPieces(pieces) + RenderPiece(last)
  {
    if pieces == [] {
      assert [last][1..] == [] && pieces + [last] == [last];
    } else {
      PieceAppended(pieces[1..], last, quote);
      assert (pieces + [last])[1..] == pieces[1..] + [last];
    }
  }

  // No literal left open at a newline is ever handled.
  lemma UnclosedNeverHandled(e: Element)
    requires e.Unclosed? && (e.quote == '"' || e.quote == '\'') && ValidPieces(e.pieces, e.quote)
    ensures !Handled(e)
  {
    var last := if e.dangling then Escape('\n') else Raw('\n');
    PieceAppended(e.pieces, last, e.quote);
    var pieces := e.pieces + [last];
    var ending := if e.quote == '"' then OpenString(pieces, false) else OpenChar(pieces, false);
    Associate([e.quote], RenderPieces(e.pieces), RenderPiece(last));
    assert Render([], ending) == [e.quote] + RenderPieces(pieces) + "";
    OpenNeverHandled(e, [], ending);
  }

  // A directive is whose comment is a line comment and which holds no quote before it,
  // whatever the comment holds: "#endif // it's".
  lemma QuietDirectiveHandled(line: string, comment: string)
    requires Quiet(line) && Joins(line, comment) && '\n' !in line + comment
    requires comment == "" || "//" <= comment
    ensures Handled(Directive(line + comment, ""))
  {
    var e, newline := Directive(line + comment, ""), [Byte('\n')];
    var tokens := if comment == "" then newline else [LineComment(comment[2..])] + newline;
    assert Render(newline, Complete) == "\n";
    if comment != "" {
      assert comment == "//" + comment[2..] && tokens[1..] == newline;
      assert forall i :: 0 <= i < |comment| ==> comment[i] == (line + comment)[|line| + i];
    }
    assert Render(tokens, Complete) == comment + "\n";
    var all := QuietBytes(line, tokens, Complete);
    assert Text(e) == line + (comment + "\n");
    assert TidyAs(Text(e), all);
    DirectiveHandledExactly(e);
  }

  predicate NoApostrophe(s: string) { forall i :: 0 <= i < |s| ==> s[i] != '\'' && s[i] != '\\' }

  // A stray apostrophe opens a character literal that swallows what follows.
  lemma StrayApostrophe(before: string, rest: string) returns (tokens: seq<Token>, ending: Ending)
    requires Quiet(before) && NoApostrophe(rest)
    ensures ValidSource(tokens, ending) && Left(tokens, ending) == InChar
    ensures Render(tokens, ending) == before + "'" + rest
    ensures Strip(Code, before + "'" + rest) == before + "'" + rest
  {
    RawsRender(rest);
    ending := OpenChar(Raws(rest), false);
    assert Render([], ending) == "'" + rest;
    tokens := QuietBytes(before, [], ending);
    QuietCopied(before, [], ending);
    Associate(before, "'", rest);
  }

  lemma ApostropheNeverHandled(before: string, behind: string)
    requires Quiet(before) && NoApostrophe(behind)
    ensures !Handled(Directive(before + "'" + behind, ""))
  {
    var quoted := before + "'";
    var e := Directive(quoted + behind, "");
    var tokens, ending := StrayApostrophe(before, behind + "\n");
    Associate(quoted, behind, "\n");
    assert Text(e) == quoted + behind + "\n";
    OpenNeverHandled(e, tokens, ending);
  }

  // So a directive with an apostrophe, such as "#region Don't", is not: the next
  // comment is left standing.
  lemma ApostropheHidesComment(before: string, behind: string, body: string)
    requires Quiet(before) && NoApostrophe(behind) && NoApostrophe(body)
    ensures !Handled(Directive(before + "'" + behind, ""))
    ensures var source := before + "'" + (behind + "\n" + ("/*" + body + "*/")); Strip(Code, source) == source
  {
    ApostropheNeverHandled(before, behind);
    var tokens, ending := StrayApostrophe(before, behind + "\n" + ("/*" + body + "*/"));
  }

  lemma OpenerIsNoDirective(rest: string)
    requires Closes(KindOf, rest)
    ensures SectionLength(KindOf, "/*\n" + rest, 0) == Some(3)
  {
    var line := "/*";
    assert "/*\n" + rest == line + "\n" + rest;
    FirstLineIs(line, rest);
    ClosesWith(KindOf, line, rest);
    SectionStep(KindOf, "/*\n" + rest, 0, line, rest);
  }

  lemma OpenerNeverHandled(line: string)
    requires Quiet(line)
    ensures !Handled(Directive(line, "/*\n"))
  {
    var e, newline, ending := Directive(line, "/*\n"), [Byte('\n')], OpenBlock("\n");
    assert newline[1..] == [] && Render([], ending) == "/*\n" && Render(newline, ending) == "\n/*\n";
    var tokens := QuietBytes(line, newline, ending);
    assert Text(e) == line + "\n/*\n";
    OpenNeverHandled(e, tokens, ending);
  }

  // Nor is a skipped section with a comment opener, which C# does not lex: everything
  // up to the next close is blanked, the closing directive and live code included.
  lemma SkippedOpenerBlanksCode(symbols: Symbols, ctx: Context, line: string, body: string)
    requires BlankLine(ctx.before) && StartsWith(line, '#') && '\n' !in line && Quiet(line)
    requires !Selects(symbols, ctx.before, line, ctx.open)
    requires NoClose("\n" + body) && Closes(KindOf, body + "*/")
    ensures ValidElement(symbols, ctx, Directive(line, "/*\n"), body + "*/")
    ensures !Handled(Directive(line, "/*\n"))
    ensures Strip(Code, line + ("\n" + ("/*" + ("\n" + body) + "*/"))) == line + ("\n" + Blanked("/*" + ("\n" + body) + "*/"))
  {
    OpenerIsNoDirective(body + "*/");
    OpenerNeverHandled(line);
    var comment := BlockComment("\n" + body);
    var tokens := [Byte('\n'), comment];
    assert tokens[1..] == [comment] && [comment][1..] == [];
    OneToken(comment);
    QuietCopied(line, tokens, Complete);
  }

  const LIVE_BODY := "#endif\nint y; /* c "

  lemma LiveBody()
    ensures NoClose("\n" + LIVE_BODY) && Closes(KindOf, LIVE_BODY + "*/")
  {
    EndifCloses("int y; /* c */");
    assert LIVE_BODY + "*/" == "#endif\n" + "int y; /* c */";
  }

  lemma IfX()
    ensures Quiet("#if X") && KindOf("#if X") == If
  {
    assert "#if X"[1..] == "if X" && "if X"[1..] == "f X" && "f X"[1..] == " X";
    assert Word(" X") == "" && Word("f X") == "f" && Word("if X") == "if";
  }

  // For instance this one, when X is not defined: the code on the last line is live.
  lemma SkippedOpenerExample(symbols: Symbols)
    requires !symbols("", "#if X")
    ensures var comment := "/*" + ("\n" + LIVE_BODY) + "*/";
            Strip(Code, "#if X" + ("\n" + comment)) == "#if X" + ("\n" + Blanked(comment))
  {
    LiveBody();
    IfX();
    SkippedOpenerBlanksCode(symbols, START, "#if X", LIVE_BODY);
  }

  lemma HoleRun(chunk: string, behind: string)
    requires forall i :: 0 <= i < |chunk| ==> chunk[i] != '"' && chunk[i] != '\\'
    ensures var out := Strip(Code, "$" + ("\"" + chunk + "\"" + ("/*" + behind)));
            |out| > |chunk| + 3 && out[|chunk| + 3] == ' '
  {
    var literal, rest := "\"" + chunk + "\"", "/*" + behind;
    RawsRender(chunk);
    StripStep(Code, "$", literal + rest, Code, "$");
    StripString('"', InString, Raws(chunk), rest);
    assert Step(Code, rest) == Move(InBlockComment, "  ");
    var out := "$" + (literal + Strip(Code, rest));
    assert out[|chunk| + 3] == Strip(Code, rest)[0] == ' ';
  }

  // Nor is an interpolated string whose hole holds a string with a comment opener:
  // inside the hole the scrubber is back in code.
  lemma HoleOpensComment(chunk: string, behind: string, blanked: string)
    requires forall i :: 0 <= i < |chunk| ==> chunk[i] != '"' && chunk[i] != '\\'
    requires |blanked| > |chunk| + 3 && blanked[|chunk| + 3] == '/'
    ensures !Handled(Interpolated("$" + ("\"" + chunk + "\"" + ("/*" + behind)), blanked))
  {
    var e := Interpolated("$" + ("\"" + chunk + "\"" + ("/*" + behind)), blanked);
    HoleRun(chunk, behind);
    if Handled(e) {
      var tokens :| DividesInto(e, tokens);
      StripBlanksComments(tokens, Complete);
    }
  }

  // Such strings exist: $"{d["/*"]}" is one, and so is any other of this form.
  lemma HoleFamily(symbols: Symbols, ctx: Context, key: string, after: string)
    requires !StartsWith(after, '"') && PlainText(key)
    ensures var text := "$" + ("\"" + "{d[" + "\"" + ("/*" + (key + "\"]}\"")));
            ValidElement(symbols, ctx, Interpolated(text, text), after) && !Handled(Interpolated(text, text))
  {
    var text := "$" + ("\"" + "{d[" + "\"" + ("/*" + (key + "\"]}\"")));
    HoleOpensComment("{d[", key + "\"]}\"", text);
    var name := "/*" + key;
    assert text == "$\"" + ("{d[\"" + name + "\"]}\"");
    IndexedByString(name, after);
    assert text + after == "$\"" + ("{d[\"" + name + "\"]}\"" + after);
  }

  // ------------------------------------------------------ every source has one

  predicate LastLineComplete(s: string) { s == "" || s[|s| - 1] == '\n' }

  // A literal's pieces up to its closing quote or the end of its line, where a last
  // backslash escapes nothing.
  lemma {:induction false} ScanLinePieces(quote: char, s: string) returns (pieces: seq<Piece>, tail: string)
    requires (quote == '"' || quote == '\'') && s != "" && LastLineComplete(s)
    ensures ValidPieces(pieces, quote) && InLine(pieces) && s == RenderPieces(pieces) + tail
    ensures tail != "" && (tail[0] == quote || tail[0] == '\n' || "\\\n" <= tail)
  {
    if s[0] == quote || s[0] == '\n' || "\\\n" <= s {
      pieces, tail := [], s;
      assert s == "" + tail;
    } else {
      var piece := if s[0] == '\\' then Escape(s[1]) else Raw(s[0]);
      var head := RenderPiece(piece);
      assert s == head + s[|head|..];
      var rest;
      rest, tail := ScanLinePieces(quote, s[|head|..]);
      pieces := [piece] + rest;
      PieceAhead(quote, piece, rest, tail);
    }
  }

  lemma PieceAhead(quote: char, piece: Piece, rest: seq<Piece>, tail: string)
    requires ValidPieces(rest, quote) && InLine(rest) && piece.c != '\n'
    requires piece.Raw? ==> piece.c != quote && piece.c != '\\'
    ensures ValidPieces([piece] + rest, quote) && InLine([piece] + rest)
    ensures RenderPieces([piece] + rest) + tail == RenderPiece(piece) + (RenderPieces(rest) + tail)
  {
    assert ([piece] + rest)[1..] == rest;
    Associate(RenderPiece(piece), RenderPieces(rest), tail);
  }

  lemma LiteralText(s: string, pieces: seq<Piece>, mark: string, tail: string)
    requires s != "" && s[1..] == RenderPieces(pieces) + (mark + tail)
    ensures s == [s[0]] + RenderPieces(pieces) + mark + tail
  {
    Associate([s[0]], RenderPieces(pieces), mark + tail);
    Associate([s[0]] + RenderPieces(pieces), mark, tail);
  }

  lemma LexLiteral(symbols: Symbols, ctx: Context, s: string) returns (e: Element, tail: string)
    requires (StartsWith(s, '"') || StartsWith(s, '\'')) && LastLineComplete(s)
    ensures ValidElement(symbols, ctx, e, tail) && s == Text(e) + tail
  {
    var pieces, rest := ScanLinePieces(s[0], s[1..]);
    var mark := if rest[0] == s[0] then [s[0]] else if rest[0] == '\n' then "\n" else "\\\n";
    tail := rest[|mark|..];
    assert rest == mark + tail;
    LiteralText(s, pieces, mark, tail);
    if rest[0] == s[0] {
      e := Lexical(if s[0] == '"' then RegularString(pieces) else CharLiteral(pieces));
    } else {
      e := Unclosed(s[0], pieces, rest[0] != '\n');
    }
    assert Text(e) == [s[0]] + RenderPieces(pieces) + mark;
  }

  // What C# rejects too: an interpolated string that is not closed, or a section that
  // is skipped to the end of the source.
  predicate Stuck(symbols: Symbols, ctx: Context, s: string)
  {
    || (StartsInterpolated(s) && Interpolate(s).Nothing?)
    || (BlankLine(ctx.before) && StartsWith(s, '#') && NeverCloses(symbols, ctx, s))
  }

  predicate NeverCloses(symbols: Symbols, ctx: Context, s: string)
  {
    var n := FirstLine(s);
    && n.Some? && !Selects(symbols, ctx.before, s[..n.value], ctx.open)
    && SectionLength(KindOf, s[n.value + 1..], 0).None?
  }

  lemma LexDirective(symbols: Symbols, ctx: Context, s: string) returns (e: Element, tail: string)
    requires StartsWith(s, '#') && LastLineComplete(s) && BlankLine(ctx.before) && !NeverCloses(symbols, ctx, s)
    ensures ValidElement(symbols, ctx, e, tail) && s == Text(e) + tail
  {
    var line, rest := FirstLineParts(s);
    assert s[..|line|] == line && s[|line| + 1..] == rest;
    var lines;
    if Selects(symbols, ctx.before, line, ctx.open) {
      lines, tail := "", rest;
    } else {
      lines, tail := SectionEnds(KindOf, rest, 0);
    }
    e := Directive(line, lines);
    Associate(line + "\n", lines, tail);
  }

  lemma LexInterpolated(symbols: Symbols, ctx: Context, s: string) returns (e: Element, tail: string)
    requires StartsInterpolated(s) && Interpolate(s).Just?
    ensures ValidElement(symbols, ctx, e, tail) && s == Text(e) + tail
  {
    InterpolateEnds(s);
    var literal := Interpolate(s).literal;
    var n := |literal.written|;
    e, tail := Interpolated(s[..n], literal.written), literal.rest;
    assert s == s[..n] + tail;
  }

  // Any other element, as LexFirst finds it.
  lemma LexOther(symbols: Symbols, ctx: Context, s: string) returns (e: Element, ending: Ending, tail: string)
    requires s != "" && s[0] != '"' && s[0] != '\'' && (s[0] == '#' ==> !BlankLine(ctx.before))
    requires !StartsInterpolated(s)
    ensures LineEnding(ending)
    ensures ending.Complete? ==> ValidElement(symbols, ctx, e, tail) && s == Text(e) + tail
    ensures !ending.Complete? ==> s == RenderEnding(ending)
  {
    var token;
    token, ending, tail := LexFirst(s);
    e := Lexical(token);
    if ending.Complete? { assert RenderToken(token)[0] == s[0]; }
  }

  // One element of a source that is not stuck, or the end of it.
  lemma LexElement(symbols: Symbols, ctx: Context, s: string) returns (e: Element, ending: Ending, tail: string)
    requires s != "" && LastLineComplete(s) && !Stuck(symbols, ctx, s)
    ensures LineEnding(ending)
    ensures ending.Complete? ==> ValidElement(symbols, ctx, e, tail) && s == Text(e) + tail
    ensures !ending.Complete? ==> s == RenderEnding(ending)
  {
    ending := Complete;
    if s[0] == '"' || s[0] == '\'' {
      e, tail := LexLiteral(symbols, ctx, s);
    } else if BlankLine(ctx.before) && s[0] == '#' {
      e, tail := LexDirective(symbols, ctx, s);
    } else if StartsInterpolated(s) {
      e, tail := LexInterpolated(symbols, ctx, s);
    } else {
      e, ending, tail := LexOther(symbols, ctx, s);
    }
  }

  lemma ElementFirst(symbols: Symbols, ctx: Context, e: Element, others: seq<Element>, rest: string)
    requires ValidElement(symbols, ctx, e, Texts(others) + rest)
    requires ValidElements(symbols, Past(symbols, ctx, e), others, rest)
    ensures var all := [e] + others;
            && ValidElements(symbols, ctx, all, rest) && Texts(all) + rest == Text(e) + (Texts(others) + rest)
            && PastAll(symbols, ctx, all) == PastAll(symbols, Past(symbols, ctx, e), others)
  {
    assert ([e] + others)[1..] == others;
    Associate(Text(e), Texts(others), rest);
  }

  // Every source whose last line is complete has such a structure, whatever symbols are
  // defined, up to its end or to where C# gives up on it.
  lemma {:induction false} EveryLineLexes(symbols: Symbols, ctx: Context, s: string)
    returns (elements: seq<Element>, ending: Ending, rest: string)
    requires LastLineComplete(s)
    ensures s == Texts(elements) + rest && ValidElements(symbols, ctx, elements, rest) && LineEnding(ending)
    ensures rest == RenderEnding(ending) || Stuck(symbols, PastAll(symbols, ctx, elements), rest)
    decreases |s|
  {
    elements, ending, rest := [], Complete, s;
    if s != "" && !Stuck(symbols, ctx, s) {
      var e, tail;
      e, ending, tail := LexElement(symbols, ctx, s);
      if ending.Complete? {
        assert tail == s[|Text(e)|..];
        var others;
        others, ending, rest := EveryLineLexes(symbols, Past(symbols, ctx, e), tail);
        ElementFirst(symbols, ctx, e, others, rest);
        elements := [e] + others;
      }
    }
    assert s == "" + s;
  }
}
