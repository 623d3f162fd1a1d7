// Interpreting the captures of a winning series pattern as season, episode,
// absolute or air-date numbering.
module SeriesMatch {
  import opened Numbers
  import opened Options

  // A capture of a named group: its text and its rune range in the matched title.
  datatype Capture = Capture(text: string, index: nat, length: nat)

  // One regex match, as the captures of its participating groups.
  type Match = map<string, seq<Capture>>

  // How numerals and white space are recognised: Unicode digits and English words
  // for whole numbers, decimals for absolute ones.
  datatype Reader = Reader(whole: string -> Option<int>, decimal: string -> Option<real>, isSpace: char -> bool)
  {
    predicate Blank(s: string) { forall i :: 0 <= i < |s| ==> isSpace(s[i]) }
  }

  function Captures(m: Match, name: string): seq<Capture> { if name in m then m[name] else [] }

  predicate Present(m: Match, name: string) { Captures(m, name) != [] }

  // A group's value and end are those of its last capture.
  function Last(captures: seq<Capture>): Capture
    requires captures != []
  {
    captures[|captures| - 1]
  }

  function GroupValue(m: Match, name: string): string
  {
    if Present(m, name) then Last(Captures(m, name)).text else ""
  }

  function End(c: Capture): nat { c.index + c.length }

  function GroupEnd(m: Match, name: string): nat
  {
    if Present(m, name) then End(Last(Captures(m, name))) else 0
  }

  function Max(a: int, b: int): int { if a > b then a else b }

  // -------------------------------------------------------------- the result

  datatype Kind = NoNumbering | SeasonEpisode | Absolute | Daily

  datatype Date = Date(year: int, month: int, day: int)

  datatype Result = Result(
    season: Option<int>, episodes: seq<int>, absolutes: seq<int>, specials: seq<real>, airDate: Option<Date>,
    fullSeason: bool, partialSeason: bool, seasonPart: int, multiSeason: bool, miniSeries: bool,
    special: bool, splitEpisode: bool, seasonExtra: bool, dailyPart: Option<int>,
    releaseTokens: string, kind: Kind)

  const EMPTY := Result(None, [], [], [], None, false, false, 0, false, false, false, false, false, None, "", NoNumbering)

  // Success, try the next pattern, or give up on the whole title.
  datatype Outcome = Success(result: Result) | NextPattern | Abort

  function RangeInts(first: int, last: int): (r: seq<int>)
    ensures |r| == if first > last then 0 else last - first + 1
    ensures forall i :: 0 <= i < |r| ==> r[i] == first + i
    decreases last - first + 1
  {
    if first > last then [] else RangeInts(first, last - 1) + [last]
  }

  method MakeRange(first: int, last: int) returns (out: seq<int>)
    ensures out == RangeInts(first, last)
  {
    out := [];
    var i := first;
    while i <= last
      invariant first <= i && (if first <= last then i <= last + 1 else i == first)
      invariant |out| == i - first && forall k :: 0 <= k < |out| ==> out[k] == first + k
      decreases last - i + 1
    {
      out := out + [i];
      i := i + 1;
    }
    assert |out| == |RangeInts(first, last)|;
  }

  // ------------------------------------------------------ reading one match

  datatype EpisodeReading = NoEpisodes | BadEpisodes | Episodes(first: int, last: int)

  function ReadEpisodes(reader: Reader, m: Match): EpisodeReading
  {
    var caps := Captures(m, "episode");
    if caps == [] then NoEpisodes
    else
      var first, last := reader.whole(caps[0].text), reader.whole(Last(caps).text);
      if first.None? || last.None? || first.value > last.value then BadEpisodes
      else Episodes(first.value, last.value)
  }

  datatype AbsoluteReading = NoAbsolutes | BadAbsolutes | Special(number: real) | Absolutes(first: int, last: int)

  predicate IsWhole(x: real) { x == x.Floor as real }

  // Fractional numbers are specials, allowed only alone.
  function ReadAbsolutes(reader: Reader, m: Match): AbsoluteReading
  {
    var caps := Captures(m, "absoluteepisode");
    if caps == [] then NoAbsolutes
    else
      var first, last := reader.decimal(caps[0].text), reader.decimal(Last(caps).text);
      if first.None? || last.None? || first.value > last.value then BadAbsolutes
      else if !IsWhole(first.value) || !IsWhole(last.value) then
        if |caps| == 1 then Special(first.value) else BadAbsolutes
      else Absolutes(first.value.Floor, last.value.Floor)
  }

  predicate Unreadable(reader: Reader, m: Match)
  {
    ReadEpisodes(reader, m).BadEpisodes? || ReadAbsolutes(reader, m).BadAbsolutes?
  }

  // Two episode captures of which the second repeats the advertised episode count
  // mean the full season.
  predicate FullSeasonOverride(m0: Match, m: Match)
  {
    var caps := Captures(m, "episode");
    |caps| == 2 && Present(m0, "episodecount") && Last(caps).text == GroupValue(m0, "episodecount")
  }

  // A match with neither kind of number stands for a season, or a part of one.
  predicate SeasonOnly(m: Match) { !Present(m, "episode") && !Present(m, "absoluteepisode") }

  // What one match contributes, field by field, on top of what earlier ones did.
  function ApplyEpisodes(reader: Reader, m: Match, res: Result): Result
  {
    var e := ReadEpisodes(reader, m);
    res.(episodes := if e.Episodes? then RangeInts(e.first, e.last) else res.episodes,
         special := res.special || (e.Episodes? && Present(m, "special")),
         splitEpisode := res.splitEpisode || (e.Episodes? && Present(m, "splitepisode")))
  }

  function ApplyAbsolutes(reader: Reader, m: Match, res: Result): Result
  {
    var a := ReadAbsolutes(reader, m);
    res.(absolutes := if a.Absolutes? then RangeInts(a.first, a.last) else res.absolutes,
         specials := if a.Special? then [a.number] else res.specials,
         special := res.special || a.Special? || (a.Absolutes? && Present(m, "special")))
  }

  function ApplySeasonOnly(reader: Reader, m0: Match, m: Match, res: Result): Result
  {
    var part := GroupValue(m0, "seasonpart");
    var partial := SeasonOnly(m) && !reader.Blank(part);
    res.(seasonExtra := res.seasonExtra || (SeasonOnly(m) && !reader.Blank(GroupValue(m0, "extras"))),
         fullSeason := res.fullSeason || (SeasonOnly(m) && reader.Blank(part)),
         partialSeason := res.partialSeason || partial,
         seasonPart := if partial && ParseInt(part).Some? then ParseInt(part).value else res.seasonPart)
  }

  function ApplyOverride(m0: Match, m: Match, res: Result): Result
  {
    res.(episodes := if FullSeasonOverride(m0, m) then [] else res.episodes,
         fullSeason := res.fullSeason || FullSeasonOverride(m0, m))
  }

  function Apply(reader: Reader, m0: Match, m: Match, res: Result): Result
  {
    ApplyOverride(m0, m, ApplySeasonOnly(reader, m0, m, ApplyAbsolutes(reader, m, ApplyEpisodes(reader, m, res))))
  }

  function ApplyAll(reader: Reader, m0: Match, matches: seq<Match>): Result
  {
    if matches == [] then EMPTY
    else Apply(reader, m0, matches[|matches| - 1], ApplyAll(reader, m0, matches[..|matches| - 1]))
  }

  // The furthest rune that numbering captures reach.
  function Reach(m: Match): nat
  {
    Max(if Present(m, "episode") then End(Last(Captures(m, "episode"))) else 0,
        if Present(m, "absoluteepisode") then End(Last(Captures(m, "absoluteepisode"))) else 0)
  }

  function ReachAll(matches: seq<Match>, start: nat): nat
  {
    if matches == [] then start else Max(ReachAll(matches[..|matches| - 1], start), Reach(matches[|matches| - 1]))
  }

  function Seasons(captures: seq<Capture>): seq<int>
  {
    if captures == [] then []
    else
      var c := captures[|captures| - 1];
      Seasons(captures[..|captures| - 1]) + (if ParseInt(c.text).Some? then [ParseInt(c.text).value] else [])
  }

  function SeasonReach(captures: seq<Capture>, start: nat): nat
  {
    if captures == [] then start
    else
      var c := captures[|captures| - 1];
      var earlier := SeasonReach(captures[..|captures| - 1], start);
      if ParseInt(c.text).Some? then Max(earlier, End(c)) else earlier
  }

  function SeriesKind(res: Result): Kind
  {
    var hasSE := res.season.Some? || res.episodes != [];
    if hasSE then SeasonEpisode
    else if res.absolutes != [] || res.specials != [] then Absolute
    else NoNumbering
  }

  function ApplySeasons(seasons: seq<int>, res: Result): Result
  {
    var mini := seasons == [] && res.absolutes == [] && res.episodes != [];
    res.(season := if seasons != [] then Some(seasons[0]) else if mini then Some(1) else res.season,
         multiSeason := res.multiSeason || |set s | s in seasons| > 1,
         miniSeries := res.miniSeries || mini)
  }

  // The release title from the furthest numbering rune on, or all of it.
  function ReleaseTokens(releaseTitle: string, reach: nat): string
  {
    if reach < |releaseTitle| then releaseTitle[reach..] else releaseTitle
  }

  function Standard(reader: Reader, matches: seq<Match>, releaseTitle: string): Outcome
    requires matches != []
  {
    if exists i :: 0 <= i < |matches| && Unreadable(reader, matches[i]) then NextPattern
    else
      var m0 := matches[0];
      var captures := Captures(m0, "season");
      var res := ApplySeasons(Seasons(captures), ApplyAll(reader, m0, matches));
      var reach := SeasonReach(captures, ReachAll(matches, GroupEnd(m0, "title")));
      Success(res.(kind := SeriesKind(res), releaseTokens := ReleaseTokens(releaseTitle, reach)))
  }

  // -------------------------------------------------------------- air dates

  predicate LeapYear(year: int) { year % 4 == 0 && (year % 100 != 0 || year % 400 == 0) }

  function DaysIn(year: int, month: int): int
  {
    if month == 2 then (if LeapYear(year) then 29 else 28)
    else if month in {4, 6, 9, 11} then 30
    else 31
  }

  predicate Gregorian(d: Date)
  {
    d.year >= 1 && 1 <= d.month <= 12 && 1 <= d.day <= DaysIn(d.year, d.month)
  }

  // What the calendar constructor makes of a month in range and a day up to 31:
  // excess days run over into the next month.
  function Normalized(d: Date): Date
  {
    var days := DaysIn(d.year, d.month);
    if d.day <= days then d
    else if d.month == 12 then Date(d.year + 1, 1, d.day - days)
    else Date(d.year, d.month + 1, d.day - days)
  }

  function MakeDate(year: int, month: int, day: int): (d: Option<Date>)
    ensures d.Some? <==> Gregorian(Date(year, month, day))
    ensures d.Some? ==> d.value == Date(year, month, day)
  {
    if month < 1 || month > 12 || day < 1 || day > 31 || year < 1 then None
    else
      var t := Normalized(Date(year, month, day));
      if t != Date(year, month, day) then None else Some(t)
  }

  predicate Before(a: Date, b: Date)
  {
    a.year < b.year || (a.year == b.year && (a.month < b.month || (a.month == b.month && a.day < b.day)))
  }

  const EPOCH := Date(1970, 1, 1)

  // Month and day of a daily match: ambiguous order must not be resolvable both
  // ways, and a month beyond 12 is taken for a day.
  function MonthAndDay(m0: Match): Option<(int, int)>
  {
    if Present(m0, "ambiguousairmonth") && Present(m0, "ambiguousairday") then
      var month, day := Atoi(GroupValue(m0, "ambiguousairmonth")), Atoi(GroupValue(m0, "ambiguousairday"));
      if month <= 12 && day <= 12 then None else Some((month, day))
    else
      var month, day := Atoi(GroupValue(m0, "airmonth")), Atoi(GroupValue(m0, "airday"));
      Some(if month > 12 then (day, month) else (month, day))
  }

  predicate InWindow(reader: Reader, m0: Match, d: Date, tomorrow: Date)
  {
    !Before(tomorrow, d) && (!Before(d, EPOCH) || !reader.Blank(GroupValue(m0, "titleyear")))
  }

  function DailyOutcome(reader: Reader, m0: Match, year: int, tomorrow: Date, releaseTitle: string): Outcome
  {
    var md := MonthAndDay(m0);
    if md.None? then Abort
    else
      var date := MakeDate(year, md.value.0, md.value.1);
      if date.None? || !InWindow(reader, m0, date.value, tomorrow) then Abort
      else
        var reach := Max(Max(Max(GroupEnd(m0, "title"), GroupEnd(m0, "airyear")), GroupEnd(m0, "airmonth")), GroupEnd(m0, "airday"));
        Success(EMPTY.(airDate := date, kind := Daily, dailyPart := ParseInt(GroupValue(m0, "part")),
                       releaseTokens := ReleaseTokens(releaseTitle, reach)))
  }

  function AirYear(m0: Match): int
  {
    var year := ParseInt(GroupValue(m0, "airyear"));
    if year.None? then 0 else year.value
  }

  function Interpret(reader: Reader, matches: seq<Match>, releaseTitle: string, tomorrow: Date): Outcome
    requires matches != []
  {
    var airYear := AirYear(matches[0]);
    if airYear < 1900 then Standard(reader, matches, releaseTitle)
    else DailyOutcome(reader, matches[0], airYear, tomorrow, releaseTitle)
  }

  // -------------------------------------------------------- the interpreter

  method TakeEpisodes(reader: Reader, m: Match, before: Result, reach: nat) returns (res: Option<Result>, reach': nat)
    ensures res == if ReadEpisodes(reader, m).BadEpisodes? then None else Some(ApplyEpisodes(reader, m, before))
    ensures res.Some? ==> reach' == Max(reach, if Present(m, "episode") then End(Last(Captures(m, "episode"))) else 0)
  {
    var caps := Captures(m, "episode");
    reach' := reach;
    if |caps| == 0 { return Some(before), reach; }
    var first, last := reader.whole(caps[0].text), reader.whole(Last(caps).text);
    if first.None? || last.None? { return None, reach; }
    if first.value > last.value { return None, reach; }
    var range := MakeRange(first.value, last.value);
    var r := before.(episodes := range);
    reach' := Max(reach, End(Last(caps)));
    if Present(m, "special") { r := r.(special := true); }
    if Present(m, "splitepisode") { r := r.(splitEpisode := true); }
    res := Some(r);
  }

  method TakeAbsolutes(reader: Reader, m: Match, before: Result, reach: nat) returns (res: Option<Result>, reach': nat)
    ensures res == if ReadAbsolutes(reader, m).BadAbsolutes? then None else Some(ApplyAbsolutes(reader, m, before))
    ensures res.Some? ==>
              reach' == Max(reach, if Present(m, "absoluteepisode") then End(Last(Captures(m, "absoluteepisode"))) else 0)
  {
    var caps := Captures(m, "absoluteepisode");
    reach' := reach;
    if |caps| == 0 { return Some(before), reach; }
    var first, last := reader.decimal(caps[0].text), reader.decimal(Last(caps).text);
    if first.None? || last.None? { return None, reach; }
    if first.value > last.value { return None, reach; }
    if !IsWhole(first.value) || !IsWhole(last.value) {
      if |caps| != 1 { return None, reach; }
      return Some(before.(specials := [first.value], special := true)), Max(reach, End(caps[0]));
    }
    var range := MakeRange(first.value.Floor, last.value.Floor);
    var r := before.(absolutes := range);
    if Present(m, "special") { r := r.(special := true); }
    return Some(r), Max(reach, End(Last(caps)));
  }

  method TakeSeasonOnly(reader: Reader, m0: Match, m: Match, before: Result) returns (res: Result)
    ensures res == ApplySeasonOnly(reader, m0, m, before)
  {
    res := before;
    if SeasonOnly(m) {
      res := TakeExtra(reader, GroupValue(m0, "extras"), res);
      res := TakeSeasonPart(reader, GroupValue(m0, "seasonpart"), res);
    }
  }

  method TakeExtra(reader: Reader, extras: string, before: Result) returns (res: Result)
    ensures res == before.(seasonExtra := before.seasonExtra || !reader.Blank(extras))
  {
    res := before;
    if !reader.Blank(extras) { res := res.(seasonExtra := true); }
  }

  method TakeSeasonPart(reader: Reader, part: string, before: Result) returns (res: Result)
    ensures res == before.(fullSeason := before.fullSeason || reader.Blank(part),
                           partialSeason := before.partialSeason || !reader.Blank(part),
                           seasonPart := if !reader.Blank(part) && ParseInt(part).Some? then ParseInt(part).value
                                         else before.seasonPart)
  {
    if reader.Blank(part) { return before.(fullSeason := true); }
    res := before;
    var n := ParseInt(part);
    if n.Some? { res := res.(seasonPart := n.value); }
    res := res.(partialSeason := true);
  }

  method TakeOverride(m0: Match, m: Match, before: Result) returns (res: Result)
    ensures res == ApplyOverride(m0, m, before)
  {
    var caps := Captures(m, "episode");
    if |caps| == 2 && Present(m0, "episodecount") && Last(caps).text == GroupValue(m0, "episodecount") {
      return before.(episodes := [], fullSeason := true);
    }
    return before;
  }

  // One turn of the loop over the matches; None asks for the next pattern.
  method ReadMatch(reader: Reader, m0: Match, m: Match, before: Result, reach: nat)
    returns (res: Option<Result>, reach': nat)
    ensures res == if Unreadable(reader, m) then None else Some(Apply(reader, m0, m, before))
    ensures res.Some? ==> reach' == Max(reach, Reach(m))
  {
    res, reach' := TakeEpisodes(reader, m, before, reach);
    if res.None? { return; }
    res, reach' := TakeAbsolutes(reader, m, res.value, reach');
    if res.None? { return; }
    var r := TakeSeasonOnly(reader, m0, m, res.value);
    r := TakeOverride(m0, m, r);
    res := Some(r);
  }

  method ReadSeasons(captures: seq<Capture>, start: nat) returns (seasons: seq<int>, reach: nat)
    ensures seasons == Seasons(captures) && reach == SeasonReach(captures, start)
  {
    seasons, reach := [], start;
    for i := 0 to |captures|
      invariant seasons == Seasons(captures[..i]) && reach == SeasonReach(captures[..i], start)
    {
      assert captures[..i + 1][..i] == captures[..i];
      var n := ParseInt(captures[i].text);
      if n.Some? {
        seasons := seasons + [n.value];
        reach := Max(reach, End(captures[i]));
      }
    }
    assert captures[..|captures|] == captures;
  }

  method ParseMatchCollection(reader: Reader, matches: seq<Match>, releaseTitle: string, tomorrow: Date)
    returns (outcome: Outcome)
    requires matches != []
    ensures outcome == Interpret(reader, matches, releaseTitle, tomorrow)
  {
    var m0 := matches[0];
    var airYear := AirYear(m0);
    if airYear >= 1900 { return DailyOutcome(reader, m0, airYear, tomorrow, releaseTitle); }
    outcome := ReadStandard(reader, matches, releaseTitle);
  }

  // The first i matches have been read into r, up to this rune.
  ghost predicate ReadUpTo(reader: Reader, matches: seq<Match>, i: nat, r: Result, reach: nat)
    requires i <= |matches| && matches != []
  {
    && (forall k :: 0 <= k < i ==> !Unreadable(reader, matches[k]))
    && r == ApplyAll(reader, matches[0], matches[..i])
    && reach == ReachAll(matches[..i], GroupEnd(matches[0], "title"))
  }

  lemma ReadOneMore(reader: Reader, matches: seq<Match>, i: nat, r: Result, reach: nat)
    requires i < |matches| && ReadUpTo(reader, matches, i, r, reach) && !Unreadable(reader, matches[i])
    ensures ReadUpTo(reader, matches, i + 1, Apply(reader, matches[0], matches[i], r), Max(reach, Reach(matches[i])))
  {
    assert matches[..i + 1][..i] == matches[..i];
  }

  method ReadAll(reader: Reader, matches: seq<Match>) returns (res: Option<Result>, reach: nat)
    requires matches != []
    ensures res.None? <==> exists i :: 0 <= i < |matches| && Unreadable(reader, matches[i])
    ensures res.Some? ==> res.value == ApplyAll(reader, matches[0], matches)
                          && reach == ReachAll(matches, GroupEnd(matches[0], "title"))
  {
    var r := EMPTY;
    reach := GroupEnd(matches[0], "title");
    for i := 0 to |matches|
      invariant ReadUpTo(reader, matches, i, r, reach)
    {
      ghost var before, reachBefore := r, reach;
      res, reach := ReadMatch(reader, matches[0], matches[i], r, reach);
      if res.None? { return; }
      ReadOneMore(reader, matches, i, before, reachBefore);
      r := res.value;
    }
    assert matches[..|matches|] == matches;
    res := Some(r);
  }

  // The standard branch: numbering by season, episode or absolute number.
  method ReadStandard(reader: Reader, matches: seq<Match>, releaseTitle: string) returns (outcome: Outcome)
    requires matches != []
    ensures outcome == Standard(reader, matches, releaseTitle)
  {
    var read, reach := ReadAll(reader, matches);
    if read.None? { return NextPattern; }
    var res := read.value;
    var seasons: seq<int>;
    seasons, reach := ReadSeasons(Captures(matches[0], "season"), reach);
    res := ResolveSeason(seasons, res);
    res := res.(kind := SeriesKind(res));
    outcome := Success(res.(releaseTokens := ReleaseTokens(releaseTitle, reach)));
  }

  method ResolveSeason(seasons: seq<int>, before: Result) returns (res: Result)
    ensures res == ApplySeasons(seasons, before)
  {
    res := before;
    if |set s | s in seasons| > 1 { res := res.(multiSeason := true); }
    if |seasons| > 0 {
      res := res.(season := Some(seasons[0]));
    } else if |res.absolutes| == 0 && |res.episodes| > 0 {
      res := res.(season := Some(1), miniSeries := true);
    }
  }
}
