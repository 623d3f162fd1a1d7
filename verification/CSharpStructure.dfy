// A C# source divides into elements in one way only.
module CSharpStructure {
  import opened CSharpSource
  import opened Collecting
  import opened FixtureLexer
  import opened Interpolation
  import opened Literals
  import opened Options
  import opened Preprocessing
  import opened ScrubberRuns

  // Where the pieces of a line-bounded literal stop.
  predicate Stops(quote: char, tail: string)
  {
    tail != "" && (tail[0] == quote || tail[0] == '\n' || "\\\n" <= tail)
  }

  lemma NoPieceStops(quote: char, pieces: seq<Piece>, tail: string)
    requires ValidPieces(pieces, quote) && InLine(pieces) && pieces != [] && quote != '\\'
    ensures !Stops(quote, RenderPieces(pieces) + tail)
  {
    var head := RenderPiece(pieces[0]);
    var s := RenderPieces(pieces) + tail;
    assert s[..|head|] == head && s[0] == head[0];
    assert pieces[0].c != '\n' && (pieces[0].Escape? ==> s[1] == head[1]);
  }

  lemma {:induction false} PiecesUnique(quote: char, a: seq<Piece>, s: string, b: seq<Piece>, t: string)
    requires ValidPieces(a, quote) && InLine(a) && ValidPieces(b, quote) && InLine(b) && quote != '\\'
    requires Stops(quote, s) && Stops(quote, t) && RenderPieces(a) + s == RenderPieces(b) + t
    ensures a == b && s == t
  {
    if a == [] || b == [] {
      assert "" + s == s && "" + t == t;
      if a != [] { NoPieceStops(quote, a, s); }
      if b != [] { NoPieceStops(quote, b, t); }
    } else {
      var x, y := RenderPiece(a[0]), RenderPiece(b[0]);
      Associate(x, RenderPieces(a[1..]), s);
      Associate(y, RenderPieces(b[1..]), t);
      assert (x + (RenderPieces(a[1..]) + s))[0] == x[0] && (y + (RenderPieces(b[1..]) + t))[0] == y[0];
      assert |x| == |y|;
      SamePrefix(x, RenderPieces(a[1..]) + s, y, RenderPieces(b[1..]) + t);
      PiecesUnique(quote, a[1..], s, b[1..], t);
      assert a == [a[0]] + a[1..] && b == [b[0]] + b[1..];
    }
  }

  // Where the pieces of a verbatim string stop.
  predicate VerbatimStops(tail: string)
  {
    tail == "" || (tail[0] == '"' && !StartsWith(tail[1..], '"'))
  }

  lemma {:induction false} VerbatimUnique(a: seq<VerbatimPiece>, s: string, b: seq<VerbatimPiece>, t: string)
    requires ValidVerbatim(a) && ValidVerbatim(b) && VerbatimStops(s) && VerbatimStops(t)
    requires RenderVerbatim(a) + s == RenderVerbatim(b) + t
    ensures a == b && s == t
  {
    if a == [] || b == [] {
      assert "" + s == s && "" + t == t;
      if a != [] { NoVerbatimStops(a, s); }
      if b != [] { NoVerbatimStops(b, t); }
    } else {
      var x := if a[0].QuotePair? then "\"\"" else [a[0].c];
      var y := if b[0].QuotePair? then "\"\"" else [b[0].c];
      Associate(x, RenderVerbatim(a[1..]), s);
      Associate(y, RenderVerbatim(b[1..]), t);
      assert (x + (RenderVerbatim(a[1..]) + s))[0] == x[0] && (y + (RenderVerbatim(b[1..]) + t))[0] == y[0];
      assert |x| == |y|;
      SamePrefix(x, RenderVerbatim(a[1..]) + s, y, RenderVerbatim(b[1..]) + t);
      VerbatimUnique(a[1..], s, b[1..], t);
      assert a == [a[0]] + a[1..] && b == [b[0]] + b[1..];
    }
  }

  lemma NoVerbatimStops(pieces: seq<VerbatimPiece>, tail: string)
    requires ValidVerbatim(pieces) && pieces != []
    ensures !VerbatimStops(RenderVerbatim(pieces) + tail)
  {
    var head := if pieces[0].QuotePair? then "\"\"" else [pieces[0].c];
    var s := RenderVerbatim(pieces) + tail;
    assert s[..|head|] == head;
  }

  predicate BlockStops(tail: string) { tail == "" || "*/" <= tail }

  lemma BlockUnique(a: string, s: string, b: string, t: string)
    requires NoClose(a) && NoClose(b) && BlockStops(s) && BlockStops(t) && a + s == b + t
    ensures a == b && s == t
  {
    NotShorter(a, s, b, t);
    NotShorter(b, t, a, s);
    SamePrefix(a, s, b, t);
  }

  lemma NotShorter(a: string, s: string, b: string, t: string)
    requires NoClose(b) && BlockStops(s) && BlockStops(t) && a + s == b + t
    ensures |a| >= |b|
  {
    var whole := a + s;
    assert s != "" ==> whole[|a|] == s[0] && whole[|a| + 1] == s[1];
    assert t != "" ==> whole[|b|] == t[0];
    assert forall i :: 0 <= i < |b| ==> whole[i] == b[i];
  }

  lemma LineUnique(a: string, s: string, b: string, t: string)
    requires '\n' !in a && '\n' !in b && a + s == b + t
    requires (s == "" || s[0] == '\n') && (t == "" || t[0] == '\n')
    ensures a == b && s == t
  {
    var whole := a + s;
    assert s != "" ==> whole[|a|] == s[0];
    assert t != "" ==> whole[|b|] == t[0];
    assert forall i :: 0 <= i < |b| ==> whole[i] == b[i];
    assert forall i :: 0 <= i < |a| ==> whole[i] == a[i];
    SamePrefix(a, s, b, t);
  }

  // ------------------------------------------------------------ single elements

  datatype Sort =
    | ByteSort
    | BlockSort
    | LineSort
    | VerbatimSort
    | QuotedSort(quote: char)
    | DirectiveSort
    | InterpolatedSort

  function SortOf(e: Element): Sort
  {
    match e
    case Lexical(Byte(_)) => ByteSort
    case Lexical(BlockComment(_)) => BlockSort
    case Lexical(LineComment(_)) => LineSort
    case Lexical(RegularString(_)) => QuotedSort('"')
    case Lexical(VerbatimString(_)) => VerbatimSort
    case Lexical(CharLiteral(_)) => QuotedSort('\'')
    case Directive(_, _) => DirectiveSort
    case Interpolated(_, _) => InterpolatedSort
    case Unclosed(quote, _, _) => QuotedSort(quote)
  }

  // The sort of the element that a source starts with.
  function SortAt(ctx: Context, s: string): Sort
    requires s != ""
  {
    if "/*" <= s then BlockSort
    else if "//" <= s then LineSort
    else if "@\"" <= s then VerbatimSort
    else if s[0] == '"' || s[0] == '\'' then QuotedSort(s[0])
    else if s[0] == '#' && BlankLine(ctx.before) then DirectiveSort
    else if StartsInterpolated(s) then InterpolatedSort
    else ByteSort
  }

  lemma SortHolds(symbols: Symbols, ctx: Context, e: Element, after: string)
    requires ValidElement(symbols, ctx, e, after)
    ensures SortAt(ctx, Text(e) + after) == SortOf(e)
  {
    var s := Text(e) + after;
    assert s[0] == Text(e)[0] && (|Text(e)| > 1 ==> s[1] == Text(e)[1]);
    match SortOf(e)
    case ByteSort =>
      assert after != "" ==> s[1] == after[0];
      assert e.token.c == '$' ==> s == "$" + after;
    case InterpolatedSort => InterpolatedCut(symbols, ctx, e, after);
    case _ =>
  }

  // The closing mark of a literal, or the end of its line.
  function Mark(e: Element): string
    requires SortOf(e).QuotedSort?
  {
    match e
    case Lexical(_) => [SortOf(e).quote]
    case Unclosed(_, _, dangling) => if dangling then "\\\n" else "\n"
  }

  function PiecesOf(e: Element): seq<Piece>
    requires SortOf(e).QuotedSort?
  {
    if e.Lexical? then e.token.pieces else e.pieces
  }

  lemma QuotedParts(symbols: Symbols, ctx: Context, e: Element, after: string)
    requires ValidElement(symbols, ctx, e, after) && SortOf(e).QuotedSort?
    ensures var quote, tail := SortOf(e).quote, Mark(e) + after;
            && (quote == '"' || quote == '\'') && ValidPieces(PiecesOf(e), quote) && InLine(PiecesOf(e))
            && Stops(quote, tail) && Text(e) + after == [quote] + (RenderPieces(PiecesOf(e)) + tail)
  {
    var quote := [SortOf(e).quote];
    assert Text(e) == quote + RenderPieces(PiecesOf(e)) + Mark(e);
    Associate(quote + RenderPieces(PiecesOf(e)), Mark(e), after);
    Associate(quote, RenderPieces(PiecesOf(e)), Mark(e) + after);
    assert (Mark(e) + after)[0] == Mark(e)[0] && (|Mark(e)| > 1 ==> (Mark(e) + after)[1] == Mark(e)[1]);
  }

  lemma QuotedUnique(symbols: Symbols, ctx: Context, e: Element, after: string, e': Element, after': string)
    requires ValidElement(symbols, ctx, e, after) && ValidElement(symbols, ctx, e', after')
    requires Text(e) + after == Text(e') + after' && SortOf(e) == SortOf(e') && SortOf(e).QuotedSort?
    ensures e == e'
  {
    var quote := SortOf(e).quote;
    QuotedParts(symbols, ctx, e, after);
    QuotedParts(symbols, ctx, e', after');
    var s, t := RenderPieces(PiecesOf(e)) + (Mark(e) + after), RenderPieces(PiecesOf(e')) + (Mark(e') + after');
    PrefixCancels([quote], s, t);
    PiecesUnique(quote, PiecesOf(e), Mark(e) + after, PiecesOf(e'), Mark(e') + after');
    assert (Mark(e) + after)[0] == Mark(e)[0] && (Mark(e') + after')[0] == Mark(e')[0];
    assert Mark(e) == Mark(e');
  }

  // Comments and verbatim strings, between their delimiters.
  lemma TokenUnique(a: Token, after: string, b: Token, after': string)
    requires ValidToken(a, after) && ValidToken(b, after') && RenderToken(a) + after == RenderToken(b) + after'
    requires (a.BlockComment? && b.BlockComment?) || (a.LineComment? && b.LineComment?) || (a.VerbatimString? && b.VerbatimString?)
    ensures a == b
  {
    match a
    case BlockComment(body) =>
      Associate("/*" + body, "*/", after);
      Associate("/*" + b.body, "*/", after');
      Associate("/*", body, "*/" + after);
      Associate("/*", b.body, "*/" + after');
      PrefixCancels("/*", body + ("*/" + after), b.body + ("*/" + after'));
      BlockUnique(body, "*/" + after, b.body, "*/" + after');
    case LineComment(body) =>
      Associate("//", body, after);
      Associate("//", b.body, after');
      PrefixCancels("//", body + after, b.body + after');
      LineUnique(body, after, b.body, after');
    case VerbatimString(pieces) =>
      VerbatimParts(pieces, after);
      VerbatimParts(b.verbatim, after');
      PrefixCancels("@\"", RenderVerbatim(pieces) + ("\"" + after), RenderVerbatim(b.verbatim) + ("\"" + after'));
      VerbatimUnique(pieces, "\"" + after, b.verbatim, "\"" + after');
    case _ =>
  }

  lemma VerbatimParts(pieces: seq<VerbatimPiece>, after: string)
    requires !StartsWith(after, '"')
    ensures RenderToken(VerbatimString(pieces)) + after == "@\"" + (RenderVerbatim(pieces) + ("\"" + after))
    ensures VerbatimStops("\"" + after)
  {
    Associate("@\"" + RenderVerbatim(pieces), "\"", after);
    Associate("@\"", RenderVerbatim(pieces), "\"" + after);
    assert ("\"" + after)[1..] == after;
  }

  lemma DirectiveUnique(symbols: Symbols, ctx: Context, e: Element, after: string, e': Element, after': string)
    requires ValidElement(symbols, ctx, e, after) && ValidElement(symbols, ctx, e', after')
    requires Text(e) + after == Text(e') + after' && e.Directive? && e'.Directive?
    ensures e == e'
  {
    var head, head' := e.line + "\n", e'.line + "\n";
    Associate(head, e.skipped, after);
    Associate(head', e'.skipped, after');
    FirstLineIs(e.line, e.skipped + after);
    FirstLineIs(e'.line, e'.skipped + after');
    SamePrefix(head, e.skipped + after, head', e'.skipped + after');
    assert e.line == head[..|e.line|] == e'.line;
    SamePrefix(e.skipped, after, e'.skipped, after');
  }

  lemma InterpolatedUnique(symbols: Symbols, ctx: Context, e: Element, after: string, e': Element, after': string)
    requires ValidElement(symbols, ctx, e, after) && ValidElement(symbols, ctx, e', after')
    requires Text(e) + after == Text(e') + after' && e.Interpolated? && e'.Interpolated?
    ensures e == e'
  {
    InterpolatedCut(symbols, ctx, e, after);
    InterpolatedCut(symbols, ctx, e', after');
    assert Interpolate(e.text + after) == Interpolate(e'.text + after');
    SamePrefix(e.text, after, e'.text, after');
  }

  lemma ElementUnique(symbols: Symbols, ctx: Context, e: Element, after: string, e': Element, after': string)
    requires ValidElement(symbols, ctx, e, after) && ValidElement(symbols, ctx, e', after')
    requires Text(e) + after == Text(e') + after'
    ensures e == e' && after == after'
  {
    SortHolds(symbols, ctx, e, after);
    SortHolds(symbols, ctx, e', after');
    match SortOf(e) {
      case ByteSort => assert e.token.c == (Text(e) + after)[0] == e'.token.c;
      case QuotedSort(_) => QuotedUnique(symbols, ctx, e, after, e', after');
      case DirectiveSort => DirectiveUnique(symbols, ctx, e, after, e', after');
      case InterpolatedSort => InterpolatedUnique(symbols, ctx, e, after, e', after');
      case _ => TokenUnique(e.token, after, e'.token, after');
    }
    PrefixCancels(Text(e), after, after');
  }

  // --------------------------------------------------------------- whole sources

  // An open comment or verbatim string is no element.
  lemma EndingIsNoElement(symbols: Symbols, ctx: Context, e: Element, after: string, ending: Ending)
    requires LineEnding(ending) && ValidElement(symbols, ctx, e, after)
    ensures Text(e) + after != RenderEnding(ending)
  {
    if Text(e) + after == RenderEnding(ending) {
      SortHolds(symbols, ctx, e, after);
      match ending {
        case OpenBlock(body) =>
          var inner := e.token.body;
          Associate("/*" + inner, "*/", after);
          Associate("/*", inner, "*/" + after);
          PrefixCancels("/*", inner + ("*/" + after), body);
          assert body + "" == body;
          BlockUnique(inner, "*/" + after, body, "");
        case OpenVerbatim(pieces) =>
          var inner := e.token.verbatim;
          VerbatimParts(inner, after);
          PrefixCancels("@\"", RenderVerbatim(inner) + ("\"" + after), RenderVerbatim(pieces));
          assert RenderVerbatim(pieces) + "" == RenderVerbatim(pieces);
          VerbatimUnique(inner, "\"" + after, pieces, "");
        case _ =>
      }
    }
  }

  lemma EndingUnique(ending: Ending, ending': Ending)
    requires LineEnding(ending) && LineEnding(ending') && RenderEnding(ending) == RenderEnding(ending')
    ensures ending == ending'
  {
    assert RenderEnding(ending) != "" ==> RenderEnding(ending)[0] == RenderEnding(ending')[0];
    match ending
    case OpenBlock(body) => PrefixCancels("/*", body, ending'.body);
    case OpenVerbatim(pieces) =>
      PrefixCancels("@\"", RenderVerbatim(pieces), RenderVerbatim(ending'.verbatim));
      VerbatimUnique(pieces, "", ending'.verbatim, "");
    case _ =>
  }

  // With the same symbols defined, a source has one structure, and so its comments are
  // the same whoever finds them.
  lemma {:induction false} StructureUnique(symbols: Symbols, ctx: Context, elements: seq<Element>, ending: Ending,
                                           elements': seq<Element>, ending': Ending)
    requires LineEnding(ending) && LineEnding(ending')
    requires ValidElements(symbols, ctx, elements, RenderEnding(ending))
    requires ValidElements(symbols, ctx, elements', RenderEnding(ending'))
    requires Texts(elements) + RenderEnding(ending) == Texts(elements') + RenderEnding(ending')
    ensures elements == elements' && ending == ending'
    decreases elements
  {
    var after, after' := RenderEnding(ending), RenderEnding(ending');
    if elements == [] || elements' == [] {
      assert "" + after == after && "" + after' == after';
      if elements != [] {
        Associate(Text(elements[0]), Texts(elements[1..]), after);
        EndingIsNoElement(symbols, ctx, elements[0], Texts(elements[1..]) + after, ending');
      } else if elements' != [] {
        Associate(Text(elements'[0]), Texts(elements'[1..]), after');
        EndingIsNoElement(symbols, ctx, elements'[0], Texts(elements'[1..]) + after', ending);
      } else {
        EndingUnique(ending, ending');
      }
    } else {
      var rest, rest' := Texts(elements[1..]) + after, Texts(elements'[1..]) + after';
      Associate(Text(elements[0]), Texts(elements[1..]), after);
      Associate(Text(elements'[0]), Texts(elements'[1..]), after');
      ElementUnique(symbols, ctx, elements[0], rest, elements'[0], rest');
      StructureUnique(symbols, Past(symbols, ctx, elements[0]), elements[1..], ending, elements'[1..], ending');
      assert elements == [elements[0]] + elements[1..] && elements' == [elements'[0]] + elements'[1..];
    }
  }
}
