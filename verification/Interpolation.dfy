// Where an interpolated string literal ends (section 12.8.3 of ECMA-334, 6th edition).
// Its holes hold expressions with literals, comments and interpolated strings of their
// own, so the scan keeps a stack of what it is inside of.
module Interpolation {
  import opened Collecting
  import opened Literals

  // Chunks of text, a hole, the format behind a hole's colon, brackets in a hole, and
  // the literals and comments in it. A literal with verbatim chunks may span lines.
  datatype Mode =
    | Chunks(verbatim: bool)
    | Hole(verbatim: bool)
    | Format(verbatim: bool)
    | Brackets
    | Quoted(quote: char)
    | VerbatimQuoted
    | Comment

  // What is written for the next characters, and what the scan is then inside of.
  datatype Turn = Turn(stack: seq<Mode>, written: string) | GiveUp

  function Take(stack: seq<Mode>, s: string, n: nat): Turn
    requires n <= |s|
  {
    Turn(stack, s[..n])
  }

  function EscapeTurn(stack: seq<Mode>, s: string): Turn
  {
    if |s| > 1 && s[1] != '\n' then Take(stack, s, 2) else GiveUp
  }

  function ChunkTurn(stack: seq<Mode>, under: seq<Mode>, verbatim: bool, s: string): Turn
    requires s != ""
  {
    if s[0] == '\\' && !verbatim then EscapeTurn(stack, s)
    else if "{{" <= s || "}}" <= s || (verbatim && "\"\"" <= s) then Take(stack, s, 2)
    else if s[0] == '{' then Take(stack + [Hole(verbatim)], s, 1)
    else if s[0] == '"' then Take(under, s, 1)
    else if s[0] == '}' then GiveUp
    else Take(stack, s, 1)
  }

  // Expression code.
  function CodeTurn(stack: seq<Mode>, s: string): Turn
    requires s != ""
  {
    if "//" <= s then GiveUp
    else if "/*" <= s then Turn(stack + [Comment], "  ")
    else if "$@\"" <= s then Take(stack + [Chunks(true)], s, 3)
    else if "$\"" <= s then Take(stack + [Chunks(false)], s, 2)
    else if "@\"" <= s then Take(stack + [VerbatimQuoted], s, 2)
    else if s[0] == '"' || s[0] == '\'' then Take(stack + [Quoted(s[0])], s, 1)
    else if s[0] in {'(', '[', '{'} then Take(stack + [Brackets], s, 1)
    else Take(stack, s, 1)
  }

  function TurnOf(stack: seq<Mode>, s: string): (turn: Turn)
    requires stack != [] && s != ""
    ensures turn.Turn? ==> 1 <= |turn.written| <= 3 && |turn.written| <= |s|
  {
    var top, under := stack[|stack| - 1], stack[..|stack| - 1];
    if s[0] == '\n' && Chunks(false) in stack then GiveUp
    else
      match top
      case Chunks(verbatim) => ChunkTurn(stack, under, verbatim, s)
      case Hole(verbatim) =>
        if s[0] == '}' then Take(under, s, 1)
        else if s[0] == ':' then Take(under + [Format(verbatim)], s, 1)
        else CodeTurn(stack, s)
      case Format(verbatim) =>
        if s[0] == '\\' && !verbatim then EscapeTurn(stack, s)
        else if s[0] == '}' then Take(under, s, 1)
        else if s[0] == '"' then GiveUp
        else Take(stack, s, 1)
      case Brackets => if s[0] in {')', ']', '}'} then Take(under, s, 1) else CodeTurn(stack, s)
      case Quoted(quote) =>
        if s[0] == '\\' then EscapeTurn(stack, s)
        else if s[0] == quote then Take(under, s, 1)
        else if s[0] == '\n' then GiveUp
        else Take(stack, s, 1)
      case VerbatimQuoted =>
        if "\"\"" <= s then Take(stack, s, 2)
        else if s[0] == '"' then Take(under, s, 1)
        else Take(stack, s, 1)
      case Comment =>
        if "*/" <= s then Turn(under, "  ")
        else Turn(stack, if s[0] == '\n' then "\n" else " ")
  }

  // A closed literal, with the comments in its holes blanked, and what follows it. No
  // other literal may follow at once.
  datatype Closed = Closed(written: string, rest: string)

  datatype Found = Nothing | Just(literal: Closed)

  function Behind(written: string, found: Found): Found
  {
    match found
    case Nothing => Nothing
    case Just(literal) => Just(Closed(written + literal.written, literal.rest))
  }

  function Scan(stack: seq<Mode>, s: string): Found
    decreases |s|
  {
    if stack == [] then (if StartsWith(s, '"') then Nothing else Just(Closed("", s)))
    else if s == "" then Nothing
    else
      match TurnOf(stack, s)
      case GiveUp => Nothing
      case Turn(stack', written) => Behind(written, Scan(stack', s[|written|..]))
  }

  predicate StartsInterpolated(s: string) { "$\"" <= s || "$@\"" <= s }

  // The interpolated string literal that s starts with, if it is closed.
  function Interpolate(s: string): Found
    requires StartsInterpolated(s)
  {
    var n := if "$\"" <= s then 2 else 3;
    Behind(s[..n], Scan([Chunks(n == 3)], s[n..]))
  }

  // The outermost mode is always the literal's own, which only its quote ends.
  predicate Rooted(stack: seq<Mode>) { stack != [] ==> stack[0].Chunks? }

  lemma TurnKeepsRoot(stack: seq<Mode>, s: string)
    requires stack != [] && Rooted(stack) && s != "" && TurnOf(stack, s).Turn?
    ensures Rooted(TurnOf(stack, s).stack)
    ensures TurnOf(stack, s).stack == [] ==> s[0] == '"' && TurnOf(stack, s).written == s[..1]
  {
  }

  // A closed literal ends in a quote that no quote follows.
  lemma {:induction false} ScanEnds(stack: seq<Mode>, s: string)
    requires stack != [] && Rooted(stack) && Scan(stack, s).Just?
    ensures var literal := Scan(stack, s).literal;
            && 0 < |literal.written| && |s| == |literal.written| + |literal.rest|
            && s[|literal.written|..] == literal.rest
            && s[|literal.written| - 1] == '"' && !StartsWith(literal.rest, '"')
    decreases |s|
  {
    var turn := TurnOf(stack, s);
    var rest := s[|turn.written|..];
    TurnKeepsRoot(stack, s);
    if turn.stack != [] {
      ScanEnds(turn.stack, rest);
    }
  }

  lemma InterpolateEnds(s: string)
    requires StartsInterpolated(s) && Interpolate(s).Just?
    ensures var literal := Interpolate(s).literal;
            && 2 < |literal.written| && |s| == |literal.written| + |literal.rest|
            && s[|literal.written|..] == literal.rest
            && s[|literal.written| - 1] == '"' && !StartsWith(literal.rest, '"')
  {
    var n := if "$\"" <= s then 2 else 3;
    ScanEnds([Chunks(n == 3)], s[n..]);
  }

  lemma ScanHasTurn(stack: seq<Mode>, s: string) returns (stack': seq<Mode>, written: string)
    requires stack != [] && Rooted(stack) && Scan(stack, s).Just?
    ensures s != "" && TurnOf(stack, s) == Turn(stack', written) && Rooted(stack')
    ensures stack' == [] ==> s[0] == '"' && written == s[..1]
    ensures Scan(stack, s) == Behind(written, Scan(stack', s[|written|..]))
  {
    stack', written := TurnOf(stack, s).stack, TurnOf(stack, s).written;
    TurnKeepsRoot(stack, s);
  }

  // What a turn looks at: two characters, and the quote of a verbatim literal.
  predicate SameAhead(s: string, t: string)
  {
    |s| >= 2 && |t| >= 2 && s[0] == t[0] && s[1] == t[1] && ("$@\"" <= s <==> "$@\"" <= t)
  }

  lemma SamePairs(s: string, t: string)
    requires SameAhead(s, t)
    ensures s[..1] == t[..1] && s[..2] == t[..2]
  {
  }

  lemma CodeSame(stack: seq<Mode>, s: string, t: string)
    requires SameAhead(s, t)
    ensures CodeTurn(stack, s) == CodeTurn(stack, t)
  {
    SamePairs(s, t);
    if "$@\"" <= s { assert s[..3] == "$@\"" == t[..3]; }
  }

  lemma ChunkSame(stack: seq<Mode>, under: seq<Mode>, verbatim: bool, s: string, t: string)
    requires SameAhead(s, t)
    ensures ChunkTurn(stack, under, verbatim, s) == ChunkTurn(stack, under, verbatim, t)
  {
    SamePairs(s, t);
  }

  lemma TurnSame(stack: seq<Mode>, s: string, t: string)
    requires stack != [] && SameAhead(s, t)
    ensures TurnOf(stack, s) == TurnOf(stack, t)
  {
    var top, under := stack[|stack| - 1], stack[..|stack| - 1];
    CodeSame(stack, s, t);
    SamePairs(s, t);
    if top.Chunks? { ChunkSame(stack, under, top.verbatim, s, t); }
  }

  lemma TextSame(text: string, after: string, tail: string)
    requires |text| >= 2 && (|text| == 2 ==> text[1] != '@')
    ensures SameAhead(text + after, text + tail)
  {
    if |text| > 2 { assert (text + after)[..3] == (text + tail)[..3]; }
  }

  // The closing quote ends the literal whatever follows, but a quote.
  lemma TurnLast(stack: seq<Mode>, after: string, tail: string)
    requires stack != [] && Rooted(stack) && !StartsWith(tail, '"')
    requires TurnOf(stack, "\"" + after) == Turn([], "\"")
    ensures TurnOf(stack, "\"" + tail) == Turn([], "\"")
  {
    assert ("\"" + tail)[..1] == "\"";
  }

  predicate ClosedBy(stack: seq<Mode>, text: string, after: string)
  {
    Scan(stack, text + after).Just? && Scan(stack, text + after).literal.rest == after
  }

  lemma ClosedLength(stack: seq<Mode>, text: string, after: string)
    requires Rooted(stack) && ClosedBy(stack, text, after)
    ensures |Scan(stack, text + after).literal.written| == |text| && (stack == [] <==> text == "")
    ensures stack != [] ==> text[|text| - 1] == '"'
  {
    if stack != [] { ScanEnds(stack, text + after); }
  }

  // The first turn inside a literal stays inside it.
  lemma ClosedStep(stack: seq<Mode>, text: string, after: string) returns (stack': seq<Mode>, written: string)
    requires stack != [] && Rooted(stack) && ClosedBy(stack, text, after)
    ensures Rooted(stack') && text + after != "" && TurnOf(stack, text + after) == Turn(stack', written)
    ensures |written| <= |text| && ClosedBy(stack', text[|written|..], after)
    ensures Scan(stack, text + after) == Behind(written, Scan(stack', text[|written|..] + after))
    ensures if stack' == [] then text == written == "\"" else |text| > |written| && text[|text| - 1] == '"'
  {
    var s := text + after;
    stack', written := ScanHasTurn(stack, s);
    var rest := s[|written|..];
    if stack' != [] { ScanEnds(stack', rest); }
    ClosedLength(stack, text, after);
    assert rest == text[|written|..] + after;
    ClosedLength(stack', text[|written|..], after);
  }

  lemma TurnCut(stack: seq<Mode>, text: string, after: string, tail: string, turn: Turn)
    requires stack != [] && Rooted(stack) && !StartsWith(tail, '"') && text != ""
    requires turn.Turn? && TurnOf(stack, text + after) == turn
    requires if turn.stack == [] then text == turn.written == "\"" else |text| > |turn.written| && text[|text| - 1] == '"'
    ensures TurnOf(stack, text + tail) == turn
  {
    if turn.stack == [] {
      TurnLast(stack, after, tail);
    } else {
      TextSame(text, after, tail);
      TurnSame(stack, text + after, text + tail);
    }
  }

  // Where a literal ends does not depend on what follows it.
  lemma {:induction false} ScanCut(stack: seq<Mode>, text: string, after: string, tail: string)
    requires Rooted(stack) && ClosedBy(stack, text, after) && !StartsWith(tail, '"')
    ensures Scan(stack, text + tail) == Just(Scan(stack, text + after).literal.(rest := tail))
    decreases |text|
  {
    if stack == [] {
      ClosedLength(stack, text, after);
      assert text + tail == tail;
    } else {
      var stack', written := ClosedStep(stack, text, after);
      var behind := text[|written|..];
      TurnCut(stack, text, after, tail, Turn(stack', written));
      ScanCut(stack', behind, after, tail);
      ScanSuffix(stack, text, tail, stack', written);
    }
  }

  lemma ScanSuffix(stack: seq<Mode>, text: string, tail: string, stack': seq<Mode>, written: string)
    requires stack != [] && text + tail != "" && |written| <= |text| && TurnOf(stack, text + tail) == Turn(stack', written)
    ensures Scan(stack, text + tail) == Behind(written, Scan(stack', text[|written|..] + tail))
  {
    assert (text + tail)[|written|..] == text[|written|..] + tail;
  }

  lemma InterpolateCut(text: string, after: string, tail: string)
    requires StartsInterpolated(text) && Interpolate(text + after).Just?
    requires Interpolate(text + after).literal.rest == after && !StartsWith(tail, '"')
    ensures Interpolate(text + tail) == Just(Interpolate(text + after).literal.(rest := tail))
  {
    var s, t := text + after, text + tail;
    var n := if "$\"" <= text then 2 else 3;
    assert s[..2] == t[..2] == text[..2];
    assert s[..n] == t[..n] && s[n..] == text[n..] + after && t[n..] == text[n..] + tail;
    ScanCut([Chunks(n == 3)], text[n..], after, tail);
  }

  // ----------------------------------------------------- a string inside a hole

  lemma OneTurn(stack: seq<Mode>, c: char, tail: string, stack': seq<Mode>)
    requires stack != [] && TurnOf(stack, [c] + tail) == Turn(stack', [c])
    ensures Scan(stack, [c] + tail) == Behind([c], Scan(stack', tail))
  {
    assert ([c] + tail)[1..] == tail;
  }

  lemma BehindTwice(a: string, b: string, found: Found)
    ensures Behind(a, Behind(b, found)) == Behind(a + b, found)
  {
    if found.Just? { Associate(a, b, found.literal.written); }
  }

  predicate PlainText(s: string) { forall i :: 0 <= i < |s| ==> s[i] !in {'"', '\\', '\n'} }

  lemma QuotedTurn(under: seq<Mode>, c: char, tail: string)
    requires c != '\\' && c != '\n'
    ensures var stack := under + [Quoted('"')];
            Scan(stack, [c] + tail) == Behind([c], Scan(if c == '"' then under else stack, tail))
  {
    var stack := under + [Quoted('"')];
    assert stack[..|under|] == under && ([c] + tail)[..1] == [c];
    OneTurn(stack, c, tail, if c == '"' then under else stack);
  }

  lemma {:induction false} QuotedRun(under: seq<Mode>, s: string, tail: string)
    requires PlainText(s)
    ensures Scan(under + [Quoted('"')], s + ("\"" + tail)) == Behind(s + "\"", Scan(under, tail))
  {
    if s == "" {
      assert s + ("\"" + tail) == ['"'] + tail && s + "\"" == ['"'];
      QuotedTurn(under, '"', tail);
    } else {
      var head, rest := [s[0]], s[1..];
      QuotedRun(under, rest, tail);
      assert s == head + rest;
      Associate(head, rest, "\"" + tail);
      Associate(head, rest, "\"");
      QuotedTurn(under, s[0], rest + ("\"" + tail));
      BehindTwice(head, rest + "\"", Scan(under, tail));
    }
  }

  lemma HoleBegins(tail: string)
    requires tail != "" && tail[0] != '{'
    ensures Scan([Chunks(false)], ['{'] + tail) == Behind("{", Scan([Chunks(false)] + [Hole(false)], tail))
  {
    var s := ['{'] + tail;
    assert s[..1] == ['{'] && s[1] == tail[0];
    OneTurn([Chunks(false)], '{', tail, [Chunks(false)] + [Hole(false)]);
  }

  // A character of expression code that opens nothing, or a bracket or string.
  function CodeChar(stack: seq<Mode>, c: char): seq<Mode>
  {
    if c == '[' then stack + [Brackets] else if c == '"' then stack + [Quoted('"')] else stack
  }

  predicate LeavesHoleOpen(c: char)
  {
    c !in {'/', '$', '@', '\'', '(', '{', ')', ']', '}', ':', '\n'}
  }

  lemma CodeStep(stack: seq<Mode>, c: char, tail: string)
    requires stack != [] && (stack[|stack| - 1].Hole? || stack[|stack| - 1].Brackets?)
    requires LeavesHoleOpen(c)
    ensures Scan(stack, [c] + tail) == Behind([c], Scan(CodeChar(stack, c), tail))
  {
    assert ([c] + tail)[..1] == [c];
    assert CodeTurn(stack, [c] + tail) == Turn(CodeChar(stack, c), [c]);
    OneTurn(stack, c, tail, CodeChar(stack, c));
  }

  lemma HoleTurns(hole: seq<Mode>, tail: string)
    requires hole == [Chunks(false)] + [Hole(false)]
    ensures Scan(hole, ['d'] + (['['] + (['"'] + tail))) ==
            Behind(['d'], Behind(['['], Behind(['"'], Scan(hole + [Brackets] + [Quoted('"')], tail))))
  {
    CodeStep(hole, 'd', ['['] + (['"'] + tail));
    CodeStep(hole, '[', ['"'] + tail);
    CodeStep(hole + [Brackets], '"', tail);
  }

  lemma BehindFour(found: Found)
    ensures Behind("{", Behind(['d'], Behind(['['], Behind(['"'], found)))) == Behind("{d[\"", found)
  {
    BehindTwice("[", "\"", found);
    BehindTwice("d", "[\"", found);
    BehindTwice("{", "d[\"", found);
  }

  lemma HoleOpens(tail: string)
    ensures Scan([Chunks(false)], "{d[\"" + tail) ==
            Behind("{d[\"", Scan([Chunks(false), Hole(false), Brackets, Quoted('"')], tail))
  {
    var hole := [Chunks(false)] + [Hole(false)];
    var first := ['d'] + (['['] + (['"'] + tail));
    HoleBegins(first);
    HoleTurns(hole, tail);
    assert "{d[\"" + tail == ['{'] + first;
    assert hole + [Brackets] + [Quoted('"')] == [Chunks(false), Hole(false), Brackets, Quoted('"')];
    BehindFour(Scan([Chunks(false), Hole(false), Brackets, Quoted('"')], tail));
  }

  lemma ModeEnds(under: seq<Mode>, top: Mode, c: char, tail: string)
    requires (top == Hole(false) && c == '}') || (top == Brackets && c == ']')
    ensures Scan(under + [top], [c] + tail) == Behind([c], Scan(under, tail))
  {
    assert (under + [top])[..|under|] == under && ([c] + tail)[..1] == [c];
    OneTurn(under + [top], c, tail, under);
  }

  lemma LiteralEnds(after: string)
    requires !StartsWith(after, '"')
    ensures Scan([Chunks(false)], ['"'] + after) == Just(Closed("\"", after))
  {
    assert [Chunks(false)][..0] == [] && (['"'] + after)[..1] == ['"'];
    OneTurn([Chunks(false)], '"', after, []);
    assert "\"" + "" == "\"";
  }

  lemma HoleEnds(hole: seq<Mode>, after: string)
    requires hole == [Chunks(false)] + [Hole(false)] && !StartsWith(after, '"')
    ensures Scan(hole + [Brackets], [']'] + (['}'] + (['"'] + after))) == Just(Closed("]}\"", after))
  {
    ModeEnds(hole, Brackets, ']', ['}'] + (['"'] + after));
    ModeEnds([Chunks(false)], Hole(false), '}', ['"'] + after);
    LiteralEnds(after);
    BehindTwice("]", "}", Just(Closed("\"", after)));
  }

  lemma CloserText(after: string)
    ensures "]}\"" + after == [']'] + (['}'] + (['"'] + after))
    ensures [Chunks(false)] + [Hole(false)] + [Brackets] == [Chunks(false), Hole(false), Brackets]
  {
  }

  lemma HoleCloses(after: string)
    requires !StartsWith(after, '"')
    ensures Scan([Chunks(false), Hole(false), Brackets], "]}\"" + after) == Just(Closed("]}\"", after))
  {
    var hole := [Chunks(false)] + [Hole(false)];
    HoleEnds(hole, after);
    CloserText(after);
  }

  // The index of a dictionary in a hole may be any string.
  lemma IndexedByString(name: string, after: string)
    requires PlainText(name) && !StartsWith(after, '"')
    ensures var text := "$\"" + ("{d[\"" + name + "\"]}\"");
            StartsInterpolated(text) && Interpolate(text + after) == Just(Closed(text, after))
  {
    var body := "{d[\"" + name + "\"]}\"";
    var tail := "\"" + ("]}\"" + after);
    assert ("$\"" + body + after)[2..] == "{d[\"" + (name + tail);
    HoleOpens(name + tail);
    QuotedRun([Chunks(false), Hole(false), Brackets], name, "]}\"" + after);
    assert [Chunks(false), Hole(false), Brackets] + [Quoted('"')] == [Chunks(false), Hole(false), Brackets, Quoted('"')];
    HoleCloses(after);
    assert "{d[\"" + (name + "\"" + "]}\"") == body;
  }
}
