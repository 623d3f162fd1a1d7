// What a successful interpretation guarantees, and the loop that tries one
// pattern after another.
module SeriesIdentity {
  import opened Numbers
  import opened Options
  import opened SeriesMatch

  // ------------------------------------------------------ the pattern loop

  // The captures of each pattern on the title, in table order; an empty list is a
  // pattern that does not match.
  function Identity(reader: Reader, attempts: seq<seq<Match>>, releaseTitle: string, tomorrow: Date): Option<Result>
  {
    if attempts == [] then None
    else if attempts[0] == [] then Identity(reader, attempts[1..], releaseTitle, tomorrow)
    else
      match Interpret(reader, attempts[0], releaseTitle, tomorrow)
      case Success(r) => Some(r)
      case Abort => None
      case NextPattern => Identity(reader, attempts[1..], releaseTitle, tomorrow)
  }

  method ParseIdentity(reader: Reader, attempts: seq<seq<Match>>, releaseTitle: string, tomorrow: Date)
    returns (result: Option<Result>)
    ensures result == Identity(reader, attempts, releaseTitle, tomorrow)
  {
    assert attempts[0..] == attempts;
    for i := 0 to |attempts|
      invariant Identity(reader, attempts, releaseTitle, tomorrow) == Identity(reader, attempts[i..], releaseTitle, tomorrow)
    {
      assert attempts[i..][1..] == attempts[i + 1..];
      if |attempts[i]| == 0 { continue; }
      var outcome := ParseMatchCollection(reader, attempts[i], releaseTitle, tomorrow);
      if outcome.Abort? { return None; }
      if outcome.NextPattern? { continue; }
      return Some(outcome.result);
    }
    result := None;
  }

  predicate Undecided(reader: Reader, attempt: seq<Match>, releaseTitle: string, tomorrow: Date)
  {
    attempt == [] || Interpret(reader, attempt, releaseTitle, tomorrow) == NextPattern
  }

  // The first pattern that decides is the one that counts: its success is the
  // identity, its abort leaves the title without one.
  lemma {:induction false} FirstDecisionCounts(reader: Reader, attempts: seq<seq<Match>>, i: nat,
                                               releaseTitle: string, tomorrow: Date)
    requires i <= |attempts| && forall k :: 0 <= k < i ==> Undecided(reader, attempts[k], releaseTitle, tomorrow)
    requires i < |attempts| ==> !Undecided(reader, attempts[i], releaseTitle, tomorrow)
    ensures Identity(reader, attempts, releaseTitle, tomorrow) ==
            if i == |attempts| then None
            else match Interpret(reader, attempts[i], releaseTitle, tomorrow)
                 case Success(r) => Some(r)
                 case _ => None
  {
    if i > 0 {
      assert Undecided(reader, attempts[0], releaseTitle, tomorrow);
      FirstDecisionCounts(reader, attempts[1..], i - 1, releaseTitle, tomorrow);
    }
  }

  // ------------------------------------------------------- the three outcomes

  predicate IsDaily(matches: seq<Match>)
    requires matches != []
  {
    AirYear(matches[0]) >= 1900
  }

  // A malformed or descending number asks for the next pattern, only without an
  // air year; a date that is ambiguous, impossible or outside the window aborts,
  // only with one; everything else succeeds.
  lemma OutcomesPartition(reader: Reader, matches: seq<Match>, releaseTitle: string, tomorrow: Date)
    requires matches != []
    ensures var outcome := Interpret(reader, matches, releaseTitle, tomorrow);
            && (outcome == NextPattern <==>
                  !IsDaily(matches) && exists i :: 0 <= i < |matches| && Unreadable(reader, matches[i]))
            && (outcome == Abort <==>
                  IsDaily(matches) &&
                  (MonthAndDay(matches[0]).None? ||
                   var d := Date(AirYear(matches[0]), MonthAndDay(matches[0]).value.0, MonthAndDay(matches[0]).value.1);
                   !Gregorian(d) || !InWindow(reader, matches[0], d, tomorrow)))
  {
  }

  // ------------------------------------------------------- a daily success

  // An air date is set exactly for daily numbering; it is a real calendar date
  // inside the window, and nothing else is numbered.
  lemma AirDateIffDaily(reader: Reader, matches: seq<Match>, releaseTitle: string, tomorrow: Date, r: Result)
    requires matches != [] && Interpret(reader, matches, releaseTitle, tomorrow) == Success(r)
    ensures r.airDate.Some? <==> r.kind == Daily
    ensures r.kind == Daily <==> IsDaily(matches)
    ensures r.kind == Daily ==>
              && Gregorian(r.airDate.value) && r.airDate.value.year == AirYear(matches[0])
              && InWindow(reader, matches[0], r.airDate.value, tomorrow)
              && r.season == None && r.episodes == [] && r.absolutes == [] && r.specials == []
  {
    if !IsDaily(matches) {
      StandardKeeps(reader, matches, releaseTitle, r);
      NoAirDate(reader, matches[0], matches);
    }
  }

  lemma {:induction false} NoAirDate(reader: Reader, m0: Match, matches: seq<Match>)
    ensures ApplyAll(reader, m0, matches).airDate == None && !ApplyAll(reader, m0, matches).miniSeries
    ensures ApplyAll(reader, m0, matches).season == None && !ApplyAll(reader, m0, matches).multiSeason
  {
    if matches != [] { NoAirDate(reader, m0, matches[..|matches| - 1]); }
  }

  // An ambiguous pair that survives has one number beyond 12, and a plain month
  // beyond 12 trades places with its day.
  lemma MonthAndDayChoice(m0: Match)
    requires MonthAndDay(m0).Some? && Gregorian(Date(2000, MonthAndDay(m0).value.0, MonthAndDay(m0).value.1))
    ensures Present(m0, "ambiguousairmonth") && Present(m0, "ambiguousairday") ==> MonthAndDay(m0).value.1 > 12
    ensures !(Present(m0, "ambiguousairmonth") && Present(m0, "ambiguousairday")) ==>
              MonthAndDay(m0).value.0 == Atoi(GroupValue(m0, "airmonth")) || Atoi(GroupValue(m0, "airmonth")) > 12
  {
  }

  // ---------------------------------------------------- a standard success

  // The last match with an episode range, and the last with whole absolute numbers.
  function LastEpisodes(reader: Reader, matches: seq<Match>): (k: Option<nat>)
    ensures k.Some? ==> k.value < |matches| && ReadEpisodes(reader, matches[k.value]).Episodes?
  {
    if matches == [] then None
    else if ReadEpisodes(reader, matches[|matches| - 1]).Episodes? then Some(|matches| - 1)
    else LastEpisodes(reader, matches[..|matches| - 1])
  }

  function LastAbsolutes(reader: Reader, matches: seq<Match>): (k: Option<nat>)
    ensures k.Some? ==> k.value < |matches| && ReadAbsolutes(reader, matches[k.value]).Absolutes?
  {
    if matches == [] then None
    else if ReadAbsolutes(reader, matches[|matches| - 1]).Absolutes? then Some(|matches| - 1)
    else LastAbsolutes(reader, matches[..|matches| - 1])
  }

  // The last match with a lone fractional number.
  function LastSpecial(reader: Reader, matches: seq<Match>): (k: Option<nat>)
    ensures k.Some? ==> k.value < |matches| && ReadAbsolutes(reader, matches[k.value]).Special?
  {
    if matches == [] then None
    else if ReadAbsolutes(reader, matches[|matches| - 1]).Special? then Some(|matches| - 1)
    else LastSpecial(reader, matches[..|matches| - 1])
  }

  lemma {:induction false} LastIsLast(reader: Reader, matches: seq<Match>, i: nat)
    requires i < |matches|
    ensures ReadEpisodes(reader, matches[i]).Episodes? ==>
              LastEpisodes(reader, matches).Some? && i <= LastEpisodes(reader, matches).value
    ensures ReadAbsolutes(reader, matches[i]).Absolutes? ==>
              LastAbsolutes(reader, matches).Some? && i <= LastAbsolutes(reader, matches).value
    ensures ReadAbsolutes(reader, matches[i]).Special? ==>
              LastSpecial(reader, matches).Some? && i <= LastSpecial(reader, matches).value
  {
    if i < |matches| - 1 { LastIsLast(reader, matches[..|matches| - 1], i); }
  }

  predicate AllReadable(reader: Reader, matches: seq<Match>)
  {
    forall i :: 0 <= i < |matches| ==> !Unreadable(reader, matches[i])
  }

  function EpisodesOf(reader: Reader, m0: Match, matches: seq<Match>): seq<int>
  {
    var k := LastEpisodes(reader, matches);
    if k.None? || FullSeasonOverride(m0, matches[k.value]) then []
    else
      var range := ReadEpisodes(reader, matches[k.value]);
      RangeInts(range.first, range.last)
  }

  function AbsolutesOf(reader: Reader, matches: seq<Match>): seq<int>
  {
    var k := LastAbsolutes(reader, matches);
    if k.None? then []
    else
      var range := ReadAbsolutes(reader, matches[k.value]);
      RangeInts(range.first, range.last)
  }

  function SpecialsOf(reader: Reader, matches: seq<Match>): seq<real>
  {
    var k := LastSpecial(reader, matches);
    if k.None? then [] else [ReadAbsolutes(reader, matches[k.value]).number]
  }

  lemma OverrideHasEpisodes(reader: Reader, m0: Match, m: Match)
    ensures FullSeasonOverride(m0, m) && !Unreadable(reader, m) ==> ReadEpisodes(reader, m).Episodes?
  {
  }

  // How one more match changes what the last ones say.
  lemma LastEpisodesSnoc(reader: Reader, m0: Match, matches: seq<Match>)
    requires matches != []
    ensures var n, m := |matches| - 1, matches[|matches| - 1];
            EpisodesOf(reader, m0, matches) ==
            (if !ReadEpisodes(reader, m).Episodes? then EpisodesOf(reader, m0, matches[..n])
             else if FullSeasonOverride(m0, m) then []
             else RangeInts(ReadEpisodes(reader, m).first, ReadEpisodes(reader, m).last))
  {
    var n := |matches| - 1;
    if !ReadEpisodes(reader, matches[n]).Episodes? {
      assert LastEpisodes(reader, matches) == LastEpisodes(reader, matches[..n]);
    } else {
      assert LastEpisodes(reader, matches) == Some(n);
    }
  }

  lemma LastAbsolutesSnoc(reader: Reader, matches: seq<Match>)
    requires matches != []
    ensures var n, m := |matches| - 1, matches[|matches| - 1];
            AbsolutesOf(reader, matches) ==
            (if !ReadAbsolutes(reader, m).Absolutes? then AbsolutesOf(reader, matches[..n])
             else RangeInts(ReadAbsolutes(reader, m).first, ReadAbsolutes(reader, m).last))
  {
    var n := |matches| - 1;
    if !ReadAbsolutes(reader, matches[n]).Absolutes? {
      assert LastAbsolutes(reader, matches) == LastAbsolutes(reader, matches[..n]);
    } else {
      assert LastAbsolutes(reader, matches) == Some(n);
    }
  }

  lemma LastSpecialSnoc(reader: Reader, matches: seq<Match>)
    requires matches != []
    ensures var n, m := |matches| - 1, matches[|matches| - 1];
            SpecialsOf(reader, matches) ==
            (if ReadAbsolutes(reader, m).Special? then [ReadAbsolutes(reader, m).number] else SpecialsOf(reader, matches[..n]))
  {
  }

  lemma {:induction false} NumbersOfLast(reader: Reader, m0: Match, matches: seq<Match>)
    requires AllReadable(reader, matches)
    ensures ApplyAll(reader, m0, matches).episodes == EpisodesOf(reader, m0, matches)
    ensures ApplyAll(reader, m0, matches).absolutes == AbsolutesOf(reader, matches)
    ensures ApplyAll(reader, m0, matches).specials == SpecialsOf(reader, matches)
  {
    if matches != [] {
      var n := |matches| - 1;
      assert AllReadable(reader, matches[..n]) && !Unreadable(reader, matches[n]);
      NumbersOfLast(reader, m0, matches[..n]);
      LastEpisodesSnoc(reader, m0, matches);
      LastAbsolutesSnoc(reader, matches);
      LastSpecialSnoc(reader, matches);
      OverrideHasEpisodes(reader, m0, matches[n]);
    }
  }

  // What a single match may mean, whichever others there are.
  type Meaning = Match -> bool

  // Full-season packs: a match with no number and no season part, or an override.
  function FullSeason(reader: Reader, m0: Match): Meaning
  {
    m => FullSeasonOverride(m0, m) || (SeasonOnly(m) && reader.Blank(GroupValue(m0, "seasonpart")))
  }

  function PartialSeason(reader: Reader, m0: Match): Meaning
  {
    m => SeasonOnly(m) && !reader.Blank(GroupValue(m0, "seasonpart"))
  }

  function SeasonExtra(reader: Reader, m0: Match): Meaning
  {
    m => SeasonOnly(m) && !reader.Blank(GroupValue(m0, "extras"))
  }

  function IsSpecial(reader: Reader): Meaning
  {
    m => ReadAbsolutes(reader, m).Special?
         || (Present(m, "special") && (ReadEpisodes(reader, m).Episodes? || ReadAbsolutes(reader, m).Absolutes?))
  }

  function SplitEpisode(reader: Reader): Meaning
  {
    m => ReadEpisodes(reader, m).Episodes? && Present(m, "splitepisode")
  }

  predicate Any(means: Meaning, matches: seq<Match>)
  {
    exists i :: 0 <= i < |matches| && means(matches[i])
  }

  lemma AnySnoc(means: Meaning, matches: seq<Match>)
    requires matches != []
    ensures Any(means, matches) <==> Any(means, matches[..|matches| - 1]) || means(matches[|matches| - 1])
  {
    var earlier := matches[..|matches| - 1];
    assert forall i :: 0 <= i < |earlier| ==> matches[i] == earlier[i];
  }

  // The number of the part of the season, which the first match names.
  function SeasonPartOf(reader: Reader, m0: Match, isPartial: bool): int
  {
    var part := ParseInt(GroupValue(m0, "seasonpart"));
    if isPartial && part.Some? then part.value else 0
  }

  // The flags and the season part say what some match means.
  predicate FlagsSay(reader: Reader, m0: Match, matches: seq<Match>, r: Result)
  {
    && r.fullSeason == Any(FullSeason(reader, m0), matches)
    && r.partialSeason == Any(PartialSeason(reader, m0), matches)
    && r.seasonPart == SeasonPartOf(reader, m0, r.partialSeason)
    && r.seasonExtra == Any(SeasonExtra(reader, m0), matches)
    && r.special == Any(IsSpecial(reader), matches)
    && r.splitEpisode == Any(SplitEpisode(reader), matches)
  }

  // One more match, flag by flag.
  lemma FlagsStep(reader: Reader, m0: Match, matches: seq<Match>, res: Result)
    requires matches != [] && FlagsSay(reader, m0, matches[..|matches| - 1], res)
    ensures FlagsSay(reader, m0, matches, Apply(reader, m0, matches[|matches| - 1], res))
  {
    var m := matches[|matches| - 1];
    AnySnoc(FullSeason(reader, m0), matches);
    AnySnoc(PartialSeason(reader, m0), matches);
    AnySnoc(SeasonExtra(reader, m0), matches);
    AnySnoc(IsSpecial(reader), matches);
    AnySnoc(SplitEpisode(reader), matches);
  }

  lemma {:induction false} FlagsOfAny(reader: Reader, m0: Match, matches: seq<Match>)
    ensures FlagsSay(reader, m0, matches, ApplyAll(reader, m0, matches))
  {
    if matches != [] {
      FlagsOfAny(reader, m0, matches[..|matches| - 1]);
      FlagsStep(reader, m0, matches, ApplyAll(reader, m0, matches[..|matches| - 1]));
    }
  }

  // Seasons, kind and tokens are filled in afterwards and touch no number.
  lemma StandardKeeps(reader: Reader, matches: seq<Match>, releaseTitle: string, r: Result)
    requires matches != [] && Standard(reader, matches, releaseTitle) == Success(r)
    ensures var all := ApplyAll(reader, matches[0], matches);
            && r.episodes == all.episodes && r.absolutes == all.absolutes && r.specials == all.specials
            && r.fullSeason == all.fullSeason && r.special == all.special && r.airDate == all.airDate
            && r.partialSeason == all.partialSeason && r.seasonPart == all.seasonPart
            && r.seasonExtra == all.seasonExtra && r.splitEpisode == all.splitEpisode
  {
  }

  // The episode list is the contiguous range of the last match with episode
  // captures, emptied by the full-season override; the absolute list is that of the
  // last match with whole absolute numbers, the special number that of the last with
  // a fractional one. Every flag says whether some match means it.
  lemma StandardNumbers(reader: Reader, matches: seq<Match>, releaseTitle: string, tomorrow: Date, r: Result)
    requires matches != [] && !IsDaily(matches)
    requires Interpret(reader, matches, releaseTitle, tomorrow) == Success(r)
    ensures AllReadable(reader, matches)
    ensures r.episodes == EpisodesOf(reader, matches[0], matches)
    ensures r.absolutes == AbsolutesOf(reader, matches) && r.specials == SpecialsOf(reader, matches)
    ensures FlagsSay(reader, matches[0], matches, r)
  {
    StandardKeeps(reader, matches, releaseTitle, r);
    NumbersOfLast(reader, matches[0], matches);
    FlagsOfAny(reader, matches[0], matches);
  }

  // Episodes without any season make a mini-series of season 1; otherwise the
  // season is the first numeric season capture.
  lemma StandardSeason(reader: Reader, matches: seq<Match>, releaseTitle: string, tomorrow: Date, r: Result)
    requires matches != [] && !IsDaily(matches)
    requires Interpret(reader, matches, releaseTitle, tomorrow) == Success(r)
    ensures var seasons := Seasons(Captures(matches[0], "season"));
            && (r.miniSeries <==> seasons == [] && r.episodes != [] && r.absolutes == [])
            && (r.miniSeries ==> r.season == Some(1))
            && (!r.miniSeries ==> r.season == if seasons == [] then None else Some(seasons[0]))
            && (r.multiSeason <==> exists i, j :: 0 <= i < j < |seasons| && seasons[i] != seasons[j])
  {
    var seasons := Seasons(Captures(matches[0], "season"));
    NoAirDate(reader, matches[0], matches);
    ManyDistinct(seasons);
  }

  lemma ManyDistinct(xs: seq<int>)
    ensures |set x | x in xs| > 1 <==> exists i, j :: 0 <= i < j < |xs| && xs[i] != xs[j]
  {
    var s := set x | x in xs;
    if i, j :| 0 <= i < j < |xs| && xs[i] != xs[j] {
      assert {xs[i], xs[j]} <= s;
      SubsetSize({xs[i], xs[j]}, s);
    } else if xs != [] {
      assert s == {xs[0]};
    }
  }

  lemma {:induction false} SubsetSize<T>(a: set<T>, b: set<T>)
    requires a <= b
    ensures |a| <= |b|
  {
    if a != {} {
      var x :| x in a;
      SubsetSize(a - {x}, b - {x});
    }
  }

  // Absolute numbering is reported only without season and episodes.
  lemma StandardKind(reader: Reader, matches: seq<Match>, releaseTitle: string, tomorrow: Date, r: Result)
    requires matches != [] && !IsDaily(matches)
    requires Interpret(reader, matches, releaseTitle, tomorrow) == Success(r)
    ensures r.kind == SeasonEpisode <==> r.season.Some? || r.episodes != []
    ensures r.kind == Absolute <==> r.season.None? && r.episodes == [] && (r.absolutes != [] || r.specials != [])
  {
  }

  // ------------------------------------------------------- every success

  predicate IsSuffix(s: string, whole: string)
  {
    |s| <= |whole| && s == whole[|whole| - |s|..]
  }

  // Release tokens are what follows in the release title; never a part before the
  // furthest number unless that lies beyond it.
  lemma TokensAreSuffix(reader: Reader, matches: seq<Match>, releaseTitle: string, tomorrow: Date, r: Result)
    requires matches != [] && Interpret(reader, matches, releaseTitle, tomorrow) == Success(r)
    ensures IsSuffix(r.releaseTokens, releaseTitle)
    ensures r.releaseTokens == releaseTitle || |r.releaseTokens| <= |releaseTitle| - GroupEnd(matches[0], "title")
  {
    if !IsDaily(matches) {
      var captures, start := Captures(matches[0], "season"), GroupEnd(matches[0], "title");
      ReachGrows(matches, start);
      SeasonReachGrows(captures, ReachAll(matches, start));
      StandardTokens(reader, matches, releaseTitle, r);
    }
  }

  lemma StandardTokens(reader: Reader, matches: seq<Match>, releaseTitle: string, r: Result)
    requires matches != [] && Standard(reader, matches, releaseTitle) == Success(r)
    ensures r.releaseTokens == ReleaseTokens(releaseTitle, SeasonReach(Captures(matches[0], "season"),
                                               ReachAll(matches, GroupEnd(matches[0], "title"))))
  {
  }

  lemma {:induction false} ReachGrows(matches: seq<Match>, start: nat)
    ensures ReachAll(matches, start) >= start
  {
    if matches != [] { ReachGrows(matches[..|matches| - 1], start); }
  }

  lemma {:induction false} SeasonReachGrows(captures: seq<Capture>, start: nat)
    ensures SeasonReach(captures, start) >= start
  {
    if captures != [] { SeasonReachGrows(captures[..|captures| - 1], start); }
  }
}
