// Preprocessing lines and the sections that conditional compilation skips (section
// 6.5 of ECMA-334, 6th edition).
module Preprocessing {
  import opened Collecting
  import opened Literals
  import opened Options

  predicate IsWhite(c: char) { c == ' ' || c == '\t' || c == '\r' || c == 11 as char || c == 12 as char }

  function DropWhite(s: string): string
  {
    if s != "" && IsWhite(s[0]) then DropWhite(s[1..]) else s
  }

  predicate IsWordChar(c: char) { 'a' <= c <= 'z' || 'A' <= c <= 'Z' || '0' <= c <= '9' || c == '_' }

  function Word(s: string): string
  {
    if s != "" && IsWordChar(s[0]) then [s[0]] + Word(s[1..]) else ""
  }

  datatype Kind = If | Elif | Else | Endif | Other

  // The kind of a line, which need not be a directive.
  function KindOf(line: string): Kind
  {
    var text := DropWhite(line);
    if !StartsWith(text, '#') then Other
    else
      var word := Word(DropWhite(text[1..]));
      if word == "if" then If
      else if word == "elif" then Elif
      else if word == "else" then Else
      else if word == "endif" then Endif
      else Other
  }

  lemma {:induction false} WordIs(s: string)
    requires forall i :: 0 <= i < |s| ==> IsWordChar(s[i])
    ensures Word(s) == s
  {
    if s != "" { WordIs(s[1..]); }
  }

  lemma KindOfWord(word: string)
    requires word != "" && forall i :: 0 <= i < |word| ==> IsWordChar(word[i])
    ensures KindOf("#" + word) == match word
                                  case "if" => If
                                  case "elif" => Elif
                                  case "else" => Else
                                  case "endif" => Endif
                                  case _ => Other
  {
    WordIs(word);
    assert ("#" + word)[1..] == word;
  }

  // The first line, if it is complete.
  function FirstLine(s: string): (n: Option<nat>)
    ensures n.Some? ==> n.value < |s| && s[n.value] == '\n' && '\n' !in s[..n.value]
    ensures n.None? ==> '\n' !in s
  {
    if s == "" then None
    else if s[0] == '\n' then Some(0)
    else
      var rest := FirstLine(s[1..]);
      assert s == [s[0]] + s[1..];
      if rest.None? then None
      else
        assert s[..rest.value + 1] == [s[0]] + s[1..][..rest.value];
        Some(rest.value + 1)
  }

  // How lines are told apart; KindOf does it for C#.
  type Kinds = string -> Kind

  // A line that ends a section of the same conditional.
  predicate Closes(kinds: Kinds, s: string)
  {
    var n := FirstLine(s);
    n.Some? && kinds(s[..n.value]) in {Elif, Else, Endif}
  }

  function Deeper(kinds: Kinds, line: string, depth: nat): nat
  {
    match kinds(line)
    case If => depth + 1
    case Endif => if depth > 0 then depth - 1 else depth
    case _ => depth
  }

  // The length of the lines up to the one that closes the section, over conditionals
  // nested in it.
  function SectionLength(kinds: Kinds, s: string, depth: nat): (n: Option<nat>)
    ensures n.Some? ==> n.value <= |s|
    decreases |s|
  {
    var line := FirstLine(s);
    if depth == 0 && Closes(kinds, s) then Some(0)
    else if line.None? then None
    else
      Longer(line.value + 1, SectionLength(kinds, s[line.value + 1..], Deeper(kinds, s[..line.value], depth)))
  }

  function Longer(n: nat, rest: Option<nat>): Option<nat> { if rest.None? then None else Some(n + rest.value) }

  // A section that does not end here goes on behind the first line.
  lemma SectionStep(kinds: Kinds, s: string, depth: nat, line: string, rest: string)
    requires !(depth == 0 && Closes(kinds, s))
    requires FirstLine(s) == Some(|line|) && s == line + "\n" + rest
    ensures SectionLength(kinds, s, depth) == Longer(|line| + 1, SectionLength(kinds, rest, Deeper(kinds, line, depth)))
  {
    assert s[..|line|] == line && s[|line| + 1..] == rest;
  }

  lemma FirstLineParts(s: string) returns (line: string, rest: string)
    requires FirstLine(s).Some?
    ensures FirstLine(s) == Some(|line|) && s == line + "\n" + rest && '\n' !in line
  {
    var n := FirstLine(s).value;
    line, rest := s[..n], s[n + 1..];
    assert s == s[..n] + [s[n]] + s[n + 1..];
  }

  lemma {:induction false} FirstLineIs(line: string, rest: string)
    requires '\n' !in line
    ensures FirstLine(line + "\n" + rest) == Some(|line|)
  {
    var s := line + "\n" + rest;
    if line != "" {
      FirstLineIs(line[1..], rest);
      assert s[1..] == line[1..] + "\n" + rest;
    }
  }

  // A section ends with its last line, in front of a closing one.
  lemma {:induction false} SectionEnds(kinds: Kinds, s: string, depth: nat) returns (lines: string, rest: string)
    requires SectionLength(kinds, s, depth).Some?
    ensures s == lines + rest && |lines| == SectionLength(kinds, s, depth).value
    ensures (lines != "" ==> lines[|lines| - 1] == '\n') && Closes(kinds, rest)
    decreases |s|
  {
    if depth == 0 && Closes(kinds, s) {
      lines, rest := "", s;
    } else {
      var line, behind := FirstLineParts(s);
      SectionStep(kinds, s, depth, line, behind);
      lines, rest := SectionEnds(kinds, behind, Deeper(kinds, line, depth));
      Associate(line + "\n", lines, rest);
      lines := line + "\n" + lines;
    }
  }

  lemma ClosesWith(kinds: Kinds, line: string, rest: string)
    requires '\n' !in line
    ensures Closes(kinds, line + "\n" + rest) <==> kinds(line) in {Elif, Else, Endif}
  {
    FirstLineIs(line, rest);
    assert (line + "\n" + rest)[..|line|] == line;
  }

  lemma ClosesAhead(kinds: Kinds, s: string, tail: string)
    requires Closes(kinds, s)
    ensures Closes(kinds, s + tail)
  {
    var line, rest := FirstLineParts(s);
    ClosesWith(kinds, line, rest);
    ClosesWith(kinds, line, rest + tail);
    Associate(line + "\n", rest, tail);
  }

  lemma Overlap(a: string, b: string, head: string, tail: string)
    requires a + b == head + tail && |head| <= |a|
    ensures a == head + a[|head|..] && tail == a[|head|..] + b
  {
    assert a == (head + tail)[..|a|] && tail == (a + b)[|head|..];
  }

  // Where a section ends does not depend on which closing line follows it.
  lemma {:induction false} SectionCut(kinds: Kinds, lines: string, rest: string, depth: nat, tail: string)
    requires SectionLength(kinds, lines + rest, depth) == Some(|lines|) && Closes(kinds, tail)
    ensures SectionLength(kinds, lines + tail, depth) == Some(|lines|)
    decreases |lines|
  {
    var s := lines + rest;
    if depth == 0 && Closes(kinds, s) {
      assert lines + tail == tail;
    } else {
      var line, behind := FirstLineParts(s);
      SectionStep(kinds, s, depth, line, behind);
      var lines' := lines[|line| + 1..];
      Overlap(lines, rest, line + "\n", behind);
      SectionCut(kinds, lines', rest, Deeper(kinds, line, depth), tail);
      ClosesWith(kinds, line, behind);
      ClosesWith(kinds, line, lines' + tail);
      FirstLineIs(line, lines' + tail);
      Associate(line + "\n", lines', tail);
      SectionStep(kinds, lines + tail, depth, line, lines' + tail);
    }
  }

  // Whether the condition of a directive holds, which the symbols defined in the text
  // before it decide.
  type Symbols = (string, string) -> bool

  // The conditionals that are open, each with whether one of its sections was taken.
  type Conditionals = seq<bool>

  // Whether the section behind a directive is lexed. A stray elif, else or endif, which
  // C# rejects, is taken as any other directive.
  predicate Selects(symbols: Symbols, before: string, line: string, open: Conditionals)
  {
    match KindOf(line)
    case If => symbols(before, line)
    case Elif => open != [] ==> !open[|open| - 1] && symbols(before, line)
    case Else => open != [] ==> !open[|open| - 1]
    case _ => true
  }

  function AfterDirective(symbols: Symbols, before: string, line: string, open: Conditionals): Conditionals
  {
    match KindOf(line)
    case If => open + [symbols(before, line)]
    case Endif => if open == [] then [] else open[..|open| - 1]
    case Other => open
    case _ =>
      if open == [] then []
      else open[..|open| - 1] + [open[|open| - 1] || Selects(symbols, before, line, open)]
  }
}
