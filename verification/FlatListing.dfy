// The other listing form: one path per line. parse picks the form, and both
// forms of the same forest name the same files.
module FlatListing {
  import opened Collecting
  import opened Options
  import opened Paths
  import opened TreeListing

  predicate IsBoxDrawing(c: char) { c == TEE || c == ELBOW || c == BAR }

  predicate HasBoxDrawing(line: string)
  {
    exists i :: 0 <= i < |line| && IsBoxDrawing(line[i])
  }

  predicate IsBoxForm(lines: seq<string>)
  {
    exists i :: 0 <= i < |lines| && HasBoxDrawing(lines[i])
  }

  // strings.TrimRight(line, "\r")
  function TrimReturns(line: string): (r: string)
    ensures r <= line && (r == line <==> line == "" || line[|line| - 1] != '\r')
  {
    if line != "" && line[|line| - 1] == '\r' then TrimReturns(line[..|line| - 1]) else line
  }

  predicate StartsDigit(s: string) { s != "" && '0' <= s[0] <= '9' }

  function DropDigits(s: string): string
  {
    if StartsDigit(s) then DropDigits(s[1..]) else s
  }

  // ^\d+ director(?:y|ies), \d+ files?$
  predicate IsSummary(line: string)
  {
    var a := DropDigits(line);
    var b := if " directory, " <= a then a[12..] else if " directories, " <= a then a[14..] else "";
    StartsDigit(line) && StartsDigit(b) && DropDigits(b) in [" file", " files"]
  }

  predicate NamesNoFile(line: string)
  {
    line == "" || line[|line| - 1] == SEPARATOR || IsSummary(line)
  }

  function FlatLine(line: string): seq<string>
  {
    var trimmed := TrimReturns(line);
    if NamesNoFile(trimmed) then [] else [Clean(trimmed)]
  }

  function FlatPaths(lines: seq<string>): seq<string>
  {
    FlatMap(FlatLine, lines)
  }

  method ParseFlat(lines: seq<string>) returns (paths: seq<string>)
    ensures paths == FlatPaths(lines)
  {
    paths := [];
    for i := 0 to |lines|
      invariant paths == FlatPaths(lines[..i])
    {
      FlatMapStep(FlatLine, lines, i);
      var line := TrimReturns(lines[i]);
      if line == "" || line[|line| - 1] == SEPARATOR || IsSummary(line) { continue; }
      paths := paths + [Clean(line)];
    }
    assert lines[..|lines|] == lines;
  }

  ghost function ListedPaths(lines: seq<string>, grow: nat -> nat): Option<seq<string>>
    requires Grows(grow)
  {
    if IsBoxForm(lines) then BoxPaths(lines, grow) else Some(FlatPaths(lines))
  }

  method Parse(lines: seq<string>, grow: nat -> nat) returns (paths: Option<seq<string>>)
    requires Grows(grow)
    ensures paths == ListedPaths(lines, grow)
  {
    var box := false;
    for i := 0 to |lines|
      invariant !box && !IsBoxForm(lines[..i])
    {
      if HasBoxDrawing(lines[i]) {
        box := true;
        break;
      }
    }
    if box {
      paths := ParseBox(lines, grow);
    } else {
      assert lines[..|lines|] == lines;
      var flat := ParseFlat(lines);
      paths := Some(flat);
    }
  }

  // A joined path that the flat form keeps as it is.
  predicate FlatSafe(path: string)
  {
    path != "" && path[|path| - 1] != '\r' && !IsSummary(path) && !HasBoxDrawing(path)
  }

  lemma {:induction false} LastOfJoined(names: seq<string>)
    requires names != [] && AllPlain(names)
    ensures Intercalate(names) != ""
    ensures Intercalate(names)[|Intercalate(names)| - 1] != SEPARATOR
  {
    assert Plain(names[0]);
    if |names| > 1 { LastOfJoined(names[1..]); }
  }

  lemma FlatKeeps(names: seq<string>)
    requires names != [] && AllPlain(names) && FlatSafe(Join(names))
    ensures FlatLine(Join(names)) == [Join(names)]
  {
    JoinPlain(names);
    CleanPlain(names);
    LastOfJoined(names);
  }

  predicate FlatSafeAll(paths: seq<seq<string>>)
  {
    forall i :: 0 <= i < |paths| ==> paths[i] != [] && AllPlain(paths[i]) && FlatSafe(Join(paths[i]))
  }

  lemma {:induction false} FlatKeepsAll(paths: seq<seq<string>>)
    requires FlatSafeAll(paths)
    ensures FlatPaths(JoinAll(paths)) == JoinAll(paths)
  {
    if paths != [] {
      FlatKeeps(paths[0]);
      FlatKeepsAll(paths[1..]);
      assert JoinAll(paths)[1..] == JoinAll(paths[1..]);
    }
  }

  // Lines after the last path: blank, directory or summary lines.
  predicate Trailer(lines: seq<string>)
  {
    forall i :: 0 <= i < |lines| ==> NamesNoFile(TrimReturns(lines[i])) && !HasBoxDrawing(lines[i])
  }

  lemma FlatDrops(lines: seq<string>)
    requires forall i :: 0 <= i < |lines| ==> NamesNoFile(TrimReturns(lines[i]))
    ensures FlatPaths(lines) == []
  {
    FlatMapNone(FlatLine, lines);
  }

  lemma NotBoxForm(paths: seq<seq<string>>, trailer: seq<string>)
    requires FlatSafeAll(paths) && Trailer(trailer)
    ensures !IsBoxForm(JoinAll(paths) + trailer)
  {
  }

  // A flat listing of safe paths parses to those paths.
  lemma FlatForm(paths: seq<seq<string>>, trailer: seq<string>, grow: nat -> nat)
    requires Grows(grow) && FlatSafeAll(paths) && Trailer(trailer)
    ensures ListedPaths(JoinAll(paths) + trailer, grow) == Some(JoinAll(paths))
  {
    var flat := JoinAll(paths);
    FlatKeepsAll(paths);
    FlatDrops(trailer);
    FlatMapSplit(FlatLine, flat, trailer);
    assert JoinAll(paths) + [] == JoinAll(paths);
    NotBoxForm(paths, trailer);
  }

  lemma PrintedIsBoxForm(forest: Forest, header: seq<string>, footer: seq<string>, layout: Layout)
    requires forest.Branch?
    ensures IsBoxForm(header + PrintTree(forest, "", layout) + footer)
  {
    var box := header + PrintTree(forest, "", layout) + footer;
    assert box[|header|] == PrintEntry("", forest.rest.Empty?, forest.name);
    assert IsBoxDrawing(box[|header|][0]);
  }

  // Both listings of a forest, each with its own header and summary lines, parse
  // to the same paths: box drawing is recognised in the one, absent in the other.
  lemma FormsAgree(forest: Forest, header: seq<string>, footer: seq<string>, trailer: seq<string>,
                   layout: Layout, grow: nat -> nat)
    requires Grows(grow) && IsLayout(layout) && Noise(header) && Noise(footer)
    requires forest.Branch? && FlatSafeAll(LeafPaths(forest, [])) && Trailer(trailer)
    ensures ListedPaths(header + PrintTree(forest, "", layout) + footer, grow) ==
            ListedPaths(JoinAll(LeafPaths(forest, [])) + trailer, grow) == Some(JoinAll(LeafPaths(forest, [])))
  {
    PrintedIsBoxForm(forest, header, footer, layout);
    ParseInvertsPrint(forest, header, footer, layout, grow);
    FlatForm(LeafPaths(forest, []), trailer, grow);
  }

  // ------------------------------------------------------ which lines name files

  predicate Digits(s: string) { s != "" && forall i :: 0 <= i < |s| ==> '0' <= s[i] <= '9' }

  lemma {:induction false} DropDigitsExactly(s: string) returns (digits: string)
    ensures s == digits + DropDigits(s) && !StartsDigit(DropDigits(s)) && (StartsDigit(s) <==> Digits(digits))
  {
    digits := "";
    if StartsDigit(s) {
      digits := DropDigitsExactly(s[1..]);
      digits := [s[0]] + digits;
    }
  }

  lemma {:induction false} DropThrough(digits: string, rest: string)
    requires Digits(digits) && !StartsDigit(rest)
    ensures DropDigits(digits + rest) == rest && StartsDigit(digits + rest)
  {
    assert (digits + rest)[1..] == digits[1..] + rest;
    if |digits| > 1 { DropThrough(digits[1..], rest); } else { assert digits[1..] + rest == rest; }
  }

  // The summary that ends a tree listing.
  predicate Summary(line: string, dirs: string, mid: string, files: string, end: string)
  {
    && line == dirs + (mid + (files + end)) && Digits(dirs) && Digits(files)
    && mid in [" directory, ", " directories, "] && end in [" file", " files"]
  }

  lemma SummaryExactly(line: string)
    ensures IsSummary(line) <==> exists dirs, mid, files, end :: Summary(line, dirs, mid, files, end)
  {
    if IsSummary(line) {
      var a := DropDigits(line);
      var mid := if " directory, " <= a then " directory, " else " directories, ";
      var dirs := DropDigitsExactly(line);
      var files := DropDigitsExactly(a[|mid|..]);
      assert a == mid + a[|mid|..];
      assert Summary(line, dirs, mid, files, DropDigits(a[|mid|..]));
    }
    if dirs, mid, files, end :| Summary(line, dirs, mid, files, end) { SummaryRead(line, dirs, mid, files, end); }
  }

  lemma SummaryRead(line: string, dirs: string, mid: string, files: string, end: string)
    requires Summary(line, dirs, mid, files, end)
    ensures IsSummary(line)
  {
    var b := files + end;
    var a := mid + b;
    assert a[0] == ' ' && end[0] == ' ';
    DropThrough(dirs, a);
    DropThrough(files, end);
    assert a[..|mid|] == mid && a[|mid|..] == b;
    if mid == " directories, " { assert a[9] == 'i' && !(" directory, " <= a); }
  }

  // A line names the file that is left of it without trailing carriage returns, unless
  // that is nothing, ends in a separator, or is a summary.
  lemma FlatLineExactly(body: string, tail: string)
    requires body == "" || body[|body| - 1] != '\r'
    requires forall i :: 0 <= i < |tail| ==> tail[i] == '\r'
    ensures FlatLine(body + tail) ==
            if body == "" || body[|body| - 1] == '/' || IsSummary(body) then [] else [Clean(body)]
  {
    TrimExactly(body, tail);
  }

  lemma {:induction false} TrimExactly(body: string, tail: string)
    requires body == "" || body[|body| - 1] != '\r'
    requires forall i :: 0 <= i < |tail| ==> tail[i] == '\r'
    ensures TrimReturns(body + tail) == body
  {
    if tail == "" {
      assert body + tail == body;
    } else {
      var n := |tail| - 1;
      TrimExactly(body, tail[..n]);
      assert (body + tail)[..|body + tail| - 1] == body + tail[..n];
    }
  }

  // A listing is in box form when one of the three tree characters is in it.
  lemma BoxFormExactly(lines: seq<string>)
    ensures IsBoxForm(lines) <==>
            exists line :: line in lines && ('\U{251C}' in line || '\U{2514}' in line || '\U{2502}' in line)
  {
    forall line ensures HasBoxDrawing(line) <==> '\U{251C}' in line || '\U{2514}' in line || '\U{2502}' in line { }
    if line :| line in lines && HasBoxDrawing(line) {
      var i :| 0 <= i < |lines| && lines[i] == line;
    }
  }
}
