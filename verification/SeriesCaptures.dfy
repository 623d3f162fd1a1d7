// What a series title is taken to say, read off the captures alone.
module SeriesCaptures {
  import opened Numbers
  import opened Options
  import opened SeriesIdentity
  import opened SeriesMatch

  // The last capture of a group is the one that counts, for its text as for its end.
  lemma GroupReads(m: Match, name: string, earlier: seq<Capture>, last: Capture)
    ensures name in m && m[name] == earlier + [last] ==>
              Present(m, name) && GroupValue(m, name) == last.text && GroupEnd(m, name) == last.index + last.length
    ensures name !in m || m[name] == [] ==>
              !Present(m, name) && GroupValue(m, name) == "" && GroupEnd(m, name) == 0
  {
  }

  // ---------------------------------------------------------------- air dates

  // The Gregorian calendar.
  lemma GregorianExactly(d: Date)
    ensures Gregorian(d) <==>
              && d.year >= 1 && 1 <= d.month <= 12 && d.day >= 1
              && (|| d.day <= 28
                  || (d.day == 29 && (d.month != 2 || (d.year % 4 == 0 && (d.year % 100 == 0 ==> d.year % 400 == 0))))
                  || (d.day == 30 && d.month != 2)
                  || (d.day == 31 && (d.month == 1 || d.month == 3 || d.month == 5 || d.month == 7
                                      || d.month == 8 || d.month == 10 || d.month == 12)))
  {
  }

  // A number that grows with the date.
  function Ordinal(d: Date): int { d.year * 372 + d.month * 31 + d.day }

  lemma BeforeExactly(a: Date, b: Date)
    requires Gregorian(a) && Gregorian(b)
    ensures Before(a, b) <==> Ordinal(a) < Ordinal(b)
  {
  }

  // The number that a group spells, zero for any other text.
  function Spelled(m: Match, name: string): int { Atoi(GroupValue(m, name)) }

  // The captures spell this date: in doubtful order with one number beyond 12, otherwise
  // as month and day, or as day and month when the month is beyond 12.
  predicate SpellsDate(m: Match, d: Date)
  {
    && ParseInt(GroupValue(m, "airyear")) == Some(d.year)
    && if Present(m, "ambiguousairmonth") && Present(m, "ambiguousairday") then
         && d.month == Spelled(m, "ambiguousairmonth") && d.day == Spelled(m, "ambiguousairday")
         && (d.month > 12 || d.day > 12)
       else if Spelled(m, "airmonth") <= 12 then d.month == Spelled(m, "airmonth") && d.day == Spelled(m, "airday")
       else d.month == Spelled(m, "airday") && d.day == Spelled(m, "airmonth")
  }

  // A date that counts: in the calendar, no later than tomorrow, and from 1970 on unless
  // the title carries a year of its own.
  predicate Accepted(reader: Reader, m: Match, d: Date, tomorrow: Date)
  {
    && SpellsDate(m, d) && Gregorian(d) && Ordinal(d) <= Ordinal(tomorrow)
    && (d.year >= 1970 || !reader.Blank(GroupValue(m, "titleyear")))
  }

  // A title with an air year from 1900 on is about one day: it is taken for the date its
  // captures spell, and gives up when they spell none that counts.
  lemma DailyOnCaptures(reader: Reader, matches: seq<Match>, releaseTitle: string, tomorrow: Date, year: int)
    requires matches != [] && ParseInt(GroupValue(matches[0], "airyear")) == Some(year) && year >= 1900
    requires Gregorian(tomorrow)
    ensures var outcome := Interpret(reader, matches, releaseTitle, tomorrow);
            && (forall d :: Accepted(reader, matches[0], d, tomorrow) ==>
                  outcome.Success? && outcome.result.kind == Daily && outcome.result.airDate == Some(d))
            && (outcome == Abort <==> forall d :: !Accepted(reader, matches[0], d, tomorrow))
            && (outcome.Success? || outcome == Abort)
  {
    var m := matches[0];
    var md := MonthAndDay(m);
    forall d | SpellsDate(m, d) && Gregorian(d) ensures md == Some((d.month, d.day)) && d.year == year {
    }
    if md.Some? {
      var d := Date(year, md.value.0, md.value.1);
      if Gregorian(d) {
        WindowExactly(reader, m, d, tomorrow);
        assert Accepted(reader, m, d, tomorrow) <==> InWindow(reader, m, d, tomorrow);
      }
    }
  }

  lemma WindowExactly(reader: Reader, m: Match, d: Date, tomorrow: Date)
    requires Gregorian(d) && Gregorian(tomorrow)
    ensures InWindow(reader, m, d, tomorrow) <==>
            Ordinal(d) <= Ordinal(tomorrow) && (d.year >= 1970 || !reader.Blank(GroupValue(m, "titleyear")))
  {
    BeforeExactly(tomorrow, d);
  }

  // Round trip: captures that spell a date of the window, the month in front of the day
  // or, for days beyond 12, behind it, give back exactly that date.
  lemma DateRoundTrip(reader: Reader, matches: seq<Match>, releaseTitle: string, tomorrow: Date, d: Date)
    requires matches != [] && Gregorian(d) && Gregorian(tomorrow) && 1970 <= d.year && Ordinal(d) <= Ordinal(tomorrow)
    requires !Present(matches[0], "ambiguousairmonth") && ParseInt(GroupValue(matches[0], "airyear")) == Some(d.year)
    requires var first, second := ParseInt(GroupValue(matches[0], "airmonth")), ParseInt(GroupValue(matches[0], "airday"));
             (first == Some(d.month) && second == Some(d.day)) || (d.day > 12 && first == Some(d.day) && second == Some(d.month))
    ensures var outcome := Interpret(reader, matches, releaseTitle, tomorrow);
            outcome.Success? && outcome.result.airDate == Some(d)
  {
    assert Accepted(reader, matches[0], d, tomorrow);
    DailyOnCaptures(reader, matches, releaseTitle, tomorrow, d.year);
  }

  // What else a daily success says: the part if there is a numeric one, and the release
  // tokens from the end of the last of title, year, month and day on.
  lemma DailyRest(reader: Reader, matches: seq<Match>, releaseTitle: string, tomorrow: Date, r: Result)
    requires matches != [] && IsDaily(matches) && Interpret(reader, matches, releaseTitle, tomorrow) == Success(r)
    ensures r.dailyPart == ParseInt(GroupValue(matches[0], "part"))
    ensures exists reach: nat ::
              Furthest([GroupEnd(matches[0], "title"), GroupEnd(matches[0], "airyear"), GroupEnd(matches[0], "airmonth"),
                        GroupEnd(matches[0], "airday")], reach)
              && TokensFrom(releaseTitle, reach, r.releaseTokens)
  {
    var m := matches[0];
    var ends := [GroupEnd(m, "title"), GroupEnd(m, "airyear"), GroupEnd(m, "airmonth"), GroupEnd(m, "airday")];
    var reach := Furthest4(ends);
    assert Furthest(ends, reach) && TokensFrom(releaseTitle, reach, r.releaseTokens);
  }

  lemma Furthest4(ends: seq<nat>) returns (reach: nat)
    requires |ends| == 4
    ensures reach == Max(Max(Max(ends[0], ends[1]), ends[2]), ends[3]) && Furthest(ends, reach)
  {
    reach := Max(Max(Max(ends[0], ends[1]), ends[2]), ends[3]);
  }

  predicate Furthest(ends: seq<nat>, reach: nat)
  {
    reach in ends && forall i :: 0 <= i < |ends| ==> ends[i] <= reach
  }

  // What follows that rune, or the whole title when nothing does.
  predicate TokensFrom(title: string, reach: nat, tokens: string)
  {
    tokens == if reach < |title| then title[reach..] else title
  }

  // ----------------------------------------------------- seasons and episodes

  function Episodes(m: Match): seq<Capture> { Captures(m, "episode") }

  function Absolutes(m: Match): seq<Capture> { Captures(m, "absoluteepisode") }

  // The captures' first and last texts are numbers in ascending order.
  predicate SpansNumbers(reader: Reader, caps: seq<Capture>)
    requires caps != []
  {
    var first, last := reader.whole(caps[0].text), reader.whole(caps[|caps| - 1].text);
    first.Some? && last.Some? && first.value <= last.value
  }

  // Likewise for absolute numbers; a fraction must stand alone.
  predicate SpansDecimals(reader: Reader, caps: seq<Capture>)
    requires caps != []
  {
    var first, last := reader.decimal(caps[0].text), reader.decimal(caps[|caps| - 1].text);
    && first.Some? && last.Some? && first.value <= last.value
    && (|caps| == 1 || (Integral(first.value) && Integral(last.value)))
  }

  predicate Integral(x: real) { x == x.Floor as real }

  // The next pattern is asked for exactly when some match numbers in disorder.
  lemma NextExactly(reader: Reader, matches: seq<Match>, releaseTitle: string, tomorrow: Date)
    requires matches != [] && !IsDaily(matches)
    ensures var outcome := Interpret(reader, matches, releaseTitle, tomorrow);
            && (outcome == NextPattern <==> exists m :: m in matches && Disorderly(reader, m))
            && (outcome.Success? || outcome == NextPattern)
  {
    forall m ensures Unreadable(reader, m) <==> Disorderly(reader, m) { DisorderlyExactly(reader, m); }
    if m :| m in matches && Disorderly(reader, m) {
      var i :| 0 <= i < |matches| && matches[i] == m;
      assert Unreadable(reader, matches[i]);
    }
  }

  predicate Disorderly(reader: Reader, m: Match)
  {
    || (Episodes(m) != [] && !SpansNumbers(reader, Episodes(m)))
    || (Absolutes(m) != [] && !SpansDecimals(reader, Absolutes(m)))
  }

  lemma DisorderlyExactly(reader: Reader, m: Match)
    ensures Unreadable(reader, m) <==> Disorderly(reader, m)
  {
  }

  // k is the last match of which p holds.
  predicate LastWith(matches: seq<Match>, p: Meaning, k: nat)
  {
    k < |matches| && p(matches[k]) && forall i :: k < i < |matches| ==> !p(matches[i])
  }

  function HasEpisodes(): Meaning { m => Episodes(m) != [] }

  // Absolute numbers that are whole, or a fraction alone.
  function HasWhole(reader: Reader): Meaning { m => Absolutes(m) != [] && SpansIntegers(reader, Absolutes(m)) }

  function HasFraction(reader: Reader): Meaning { m => Absolutes(m) != [] && !SpansIntegers(reader, Absolutes(m)) }

  predicate SpansIntegers(reader: Reader, caps: seq<Capture>)
    requires caps != []
  {
    var first, last := reader.decimal(caps[0].text), reader.decimal(caps[|caps| - 1].text);
    first.Some? && last.Some? && Integral(first.value) && Integral(last.value)
  }

  predicate Counts(s: seq<int>, first: int, last: int)
  {
    |s| == last - first + 1 && forall i :: 0 <= i < |s| ==> s[i] == first + i
  }

  // Two captures of which the second repeats the advertised episode count.
  predicate RepeatsCount(m0: Match, m: Match)
  {
    |Episodes(m)| == 2 && Present(m0, "episodecount") && Episodes(m)[1].text == GroupValue(m0, "episodecount")
  }

  lemma LastEpisodesAt(reader: Reader, matches: seq<Match>, k: nat)
    requires AllReadable(reader, matches)
    ensures LastWith(matches, HasEpisodes(), k) ==> LastEpisodes(reader, matches) == Some(k)
    ensures (forall m :: m in matches ==> Episodes(m) == []) ==> LastEpisodes(reader, matches).None?
  {
    var last := LastEpisodes(reader, matches);
    if last.Some? { assert matches[last.value] in matches && HasEpisodes()(matches[last.value]); }
    if LastWith(matches, HasEpisodes(), k) {
      assert !Unreadable(reader, matches[k]);
      LastIsLast(reader, matches, k);
    }
  }

  // The episodes run from the first to the last capture of the last match that has any,
  // unless that is a count of the whole season.
  lemma EpisodesOnCaptures(reader: Reader, matches: seq<Match>, releaseTitle: string, tomorrow: Date, r: Result, k: nat)
    requires matches != [] && !IsDaily(matches) && Interpret(reader, matches, releaseTitle, tomorrow) == Success(r)
    ensures LastWith(matches, HasEpisodes(), k) ==>
              var caps := Episodes(matches[k]);
              SpansNumbers(reader, caps)
              && if RepeatsCount(matches[0], matches[k]) then r.episodes == []
                 else Counts(r.episodes, reader.whole(caps[0].text).value, reader.whole(caps[|caps| - 1].text).value)
    ensures (forall m :: m in matches ==> Episodes(m) == []) ==> r.episodes == []
  {
    StandardNumbers(reader, matches, releaseTitle, tomorrow, r);
    EpisodesFromLast(reader, matches, k);
  }

  lemma EpisodesFromLast(reader: Reader, matches: seq<Match>, k: nat)
    requires matches != [] && AllReadable(reader, matches)
    ensures LastWith(matches, HasEpisodes(), k) ==>
              var caps, episodes := Episodes(matches[k]), EpisodesOf(reader, matches[0], matches);
              SpansNumbers(reader, caps)
              && if RepeatsCount(matches[0], matches[k]) then episodes == []
                 else Counts(episodes, reader.whole(caps[0].text).value, reader.whole(caps[|caps| - 1].text).value)
    ensures (forall m :: m in matches ==> Episodes(m) == []) ==> EpisodesOf(reader, matches[0], matches) == []
  {
    LastEpisodesAt(reader, matches, k);
    if LastWith(matches, HasEpisodes(), k) { assert !Unreadable(reader, matches[k]); }
  }

  lemma LastAbsolutesAt(reader: Reader, matches: seq<Match>, k: nat)
    requires AllReadable(reader, matches)
    ensures LastWith(matches, HasWhole(reader), k) ==> LastAbsolutes(reader, matches) == Some(k)
    ensures (forall m :: m in matches ==> !HasWhole(reader)(m)) ==> LastAbsolutes(reader, matches).None?
  {
    var last := LastAbsolutes(reader, matches);
    if last.Some? { assert matches[last.value] in matches && HasWhole(reader)(matches[last.value]); }
    if LastWith(matches, HasWhole(reader), k) {
      assert !Unreadable(reader, matches[k]);
      LastIsLast(reader, matches, k);
    }
  }

  lemma LastSpecialAt(reader: Reader, matches: seq<Match>, k: nat)
    requires AllReadable(reader, matches)
    ensures LastWith(matches, HasFraction(reader), k) ==> LastSpecial(reader, matches) == Some(k)
    ensures (forall m :: m in matches ==> !HasFraction(reader)(m)) ==> LastSpecial(reader, matches).None?
  {
    var last := LastSpecial(reader, matches);
    if last.Some? { assert matches[last.value] in matches && HasFraction(reader)(matches[last.value]); }
    if LastWith(matches, HasFraction(reader), k) {
      assert !Unreadable(reader, matches[k]);
      LastIsLast(reader, matches, k);
    }
  }

  // The absolute numbers run from the first to the last capture of the last match that
  // has whole ones.
  lemma AbsolutesOnCaptures(reader: Reader, matches: seq<Match>, releaseTitle: string, tomorrow: Date, r: Result, k: nat)
    requires matches != [] && !IsDaily(matches) && Interpret(reader, matches, releaseTitle, tomorrow) == Success(r)
    ensures LastWith(matches, HasWhole(reader), k) ==>
              var caps := Absolutes(matches[k]);
              var first, last := reader.decimal(caps[0].text).value, reader.decimal(caps[|caps| - 1].text).value;
              first <= last && Counts(r.absolutes, first.Floor, last.Floor)
    ensures (forall m :: m in matches ==> !HasWhole(reader)(m)) ==> r.absolutes == []
  {
    StandardNumbers(reader, matches, releaseTitle, tomorrow, r);
    AbsolutesFromLast(reader, matches, k);
  }

  lemma AbsolutesFromLast(reader: Reader, matches: seq<Match>, k: nat)
    requires AllReadable(reader, matches)
    ensures LastWith(matches, HasWhole(reader), k) ==>
              var caps := Absolutes(matches[k]);
              var first, last := reader.decimal(caps[0].text).value, reader.decimal(caps[|caps| - 1].text).value;
              first <= last && Counts(AbsolutesOf(reader, matches), first.Floor, last.Floor)
    ensures (forall m :: m in matches ==> !HasWhole(reader)(m)) ==> AbsolutesOf(reader, matches) == []
  {
    LastAbsolutesAt(reader, matches, k);
    if LastWith(matches, HasWhole(reader), k) { assert !Unreadable(reader, matches[k]); }
  }

  // And the special number is the fraction of the last match that has one.
  lemma SpecialOnCaptures(reader: Reader, matches: seq<Match>, releaseTitle: string, tomorrow: Date, r: Result, k: nat)
    requires matches != [] && !IsDaily(matches) && Interpret(reader, matches, releaseTitle, tomorrow) == Success(r)
    ensures LastWith(matches, HasFraction(reader), k) ==>
              var caps := Absolutes(matches[k]);
              |caps| == 1 && reader.decimal(caps[0].text).Some? && r.specials == [reader.decimal(caps[0].text).value]
    ensures (forall m :: m in matches ==> !HasFraction(reader)(m)) ==> r.specials == []
  {
    StandardNumbers(reader, matches, releaseTitle, tomorrow, r);
    SpecialFromLast(reader, matches, k);
  }

  lemma SpecialFromLast(reader: Reader, matches: seq<Match>, k: nat)
    requires AllReadable(reader, matches)
    ensures LastWith(matches, HasFraction(reader), k) ==>
              var caps := Absolutes(matches[k]);
              |caps| == 1 && reader.decimal(caps[0].text).Some?
              && SpecialsOf(reader, matches) == [reader.decimal(caps[0].text).value]
    ensures (forall m :: m in matches ==> !HasFraction(reader)(m)) ==> SpecialsOf(reader, matches) == []
  {
    LastSpecialAt(reader, matches, k);
    if LastWith(matches, HasFraction(reader), k) { assert !Unreadable(reader, matches[k]); }
  }

  predicate Numbered(m: Match) { Episodes(m) != [] || Absolutes(m) != [] }

  // What the first match says of the season's part and extras.
  predicate Says(reader: Reader, m0: Match, group: string)
  {
    exists i :: 0 <= i < |GroupValue(m0, group)| && !reader.isSpace(GroupValue(m0, group)[i])
  }

  // A match without numbers stands for the season, or for a part of it when the first
  // match names one; a season is full too when a match repeats its count. A special is
  // marked as one or has a fraction.
  lemma FlagsOnCaptures(reader: Reader, matches: seq<Match>, releaseTitle: string, tomorrow: Date, r: Result)
    requires matches != [] && !IsDaily(matches) && Interpret(reader, matches, releaseTitle, tomorrow) == Success(r)
    ensures var m0 := matches[0];
            && (r.fullSeason <==>
                  exists m :: m in matches && (RepeatsCount(m0, m) || (!Numbered(m) && !Says(reader, m0, "seasonpart"))))
            && (r.partialSeason <==> exists m :: m in matches && !Numbered(m) && Says(reader, m0, "seasonpart"))
            && r.seasonPart == (if r.partialSeason && ParseInt(GroupValue(m0, "seasonpart")).Some?
                                then ParseInt(GroupValue(m0, "seasonpart")).value else 0)
            && (r.seasonExtra <==> exists m :: m in matches && !Numbered(m) && Says(reader, m0, "extras"))
            && (r.special <==>
                  exists m :: m in matches && (HasFraction(reader)(m) || (Numbered(m) && Present(m, "special"))))
            && (r.splitEpisode <==> exists m :: m in matches && Episodes(m) != [] && Present(m, "splitepisode"))
  {
    var m0 := matches[0];
    StandardNumbers(reader, matches, releaseTitle, tomorrow, r);
    forall m | m in matches ensures !Unreadable(reader, m) { }
    AnyMember(FullSeason(reader, m0), matches);
    AnyMember(PartialSeason(reader, m0), matches);
    AnyMember(SeasonExtra(reader, m0), matches);
    AnyMember(IsSpecial(reader), matches);
    AnyMember(SplitEpisode(reader), matches);
    BlankExactly(reader, m0, "seasonpart");
    BlankExactly(reader, m0, "extras");
    FlagMeanings(reader, m0, matches);
  }

  lemma BlankExactly(reader: Reader, m0: Match, group: string)
    ensures reader.Blank(GroupValue(m0, group)) <==> !Says(reader, m0, group)
  {
  }

  lemma AnyMember(means: Meaning, matches: seq<Match>)
    ensures Any(means, matches) <==> exists m :: m in matches && means(m)
  {
    if m :| m in matches && means(m) {
      var i :| 0 <= i < |matches| && matches[i] == m;
      assert means(matches[i]);
    }
  }

  lemma FlagMeanings(reader: Reader, m0: Match, matches: seq<Match>)
    requires AllReadable(reader, matches)
    ensures forall m :: m in matches ==> (FullSeason(reader, m0)(m) <==>
              RepeatsCount(m0, m) || (!Numbered(m) && reader.Blank(GroupValue(m0, "seasonpart"))))
    ensures forall m :: m in matches ==> (PartialSeason(reader, m0)(m) <==> !Numbered(m) && !reader.Blank(GroupValue(m0, "seasonpart")))
    ensures forall m :: m in matches ==> (SeasonExtra(reader, m0)(m) <==> !Numbered(m) && !reader.Blank(GroupValue(m0, "extras")))
    ensures forall m :: m in matches ==> (IsSpecial(reader)(m) <==> HasFraction(reader)(m) || (Numbered(m) && Present(m, "special")))
    ensures forall m :: m in matches ==> (SplitEpisode(reader)(m) <==> Episodes(m) != [] && Present(m, "splitepisode"))
  {
    forall m | m in matches ensures !Unreadable(reader, m) {
      var i :| 0 <= i < |matches| && matches[i] == m;
    }
  }

  // ------------------------------------------------------------------ the season

  predicate Numeric(c: Capture) { ParseInt(c.text).Some? }

  // k is the first numeric capture.
  predicate FirstNumeric(captures: seq<Capture>, k: nat)
  {
    k < |captures| && Numeric(captures[k]) && forall i :: 0 <= i < k ==> !Numeric(captures[i])
  }

  lemma {:induction false} SeasonIn(captures: seq<Capture>, c: Capture)
    requires c in captures && Numeric(c)
    ensures ParseInt(c.text).value in Seasons(captures)
  {
    var n := |captures| - 1;
    var earlier := captures[..n];
    if captures[n] != c {
      assert c in earlier;
      SeasonIn(earlier, c);
    }
  }

  lemma {:induction false} SeasonFrom(captures: seq<Capture>, n: int) returns (c: Capture)
    requires n in Seasons(captures)
    ensures c in captures && ParseInt(c.text) == Some(n)
  {
    var k := |captures| - 1;
    c := captures[k];
    if n in Seasons(captures[..k]) { c := SeasonFrom(captures[..k], n); }
  }

  lemma NoSeason(captures: seq<Capture>)
    requires forall c :: c in captures ==> !Numeric(c)
    ensures Seasons(captures) == []
  {
    if Seasons(captures) != [] { var c := SeasonFrom(captures, Seasons(captures)[0]); }
  }

  lemma {:induction false} FirstSeason(captures: seq<Capture>, k: nat)
    requires FirstNumeric(captures, k)
    ensures Seasons(captures) != [] && Seasons(captures)[0] == ParseInt(captures[k].text).value
  {
    var n := |captures| - 1;
    assert forall j :: 0 <= j < n ==> captures[..n][j] == captures[j];
    if k < n {
      assert FirstNumeric(captures[..n], k);
      FirstSeason(captures[..n], k);
    } else {
      NoSeason(captures[..n]);
    }
  }

  // The season is the first numeric one of the first match, several different ones make
  // it a multi-season release, and without any, episodes alone make a mini-series.
  lemma SeasonOnCaptures(reader: Reader, matches: seq<Match>, releaseTitle: string, tomorrow: Date, r: Result, k: nat)
    requires matches != [] && !IsDaily(matches) && Interpret(reader, matches, releaseTitle, tomorrow) == Success(r)
    ensures var captures := Captures(matches[0], "season");
            && (FirstNumeric(captures, k) ==> r.season == ParseInt(captures[k].text) && !r.miniSeries)
            && ((forall c :: c in captures ==> !Numeric(c)) ==>
                  (r.miniSeries <==> r.episodes != [] && r.absolutes == []) && r.season == if r.miniSeries then Some(1) else None)
            && (r.multiSeason <==>
                  exists c, d :: c in captures && d in captures && Numeric(c) && Numeric(d) && ParseInt(c.text) != ParseInt(d.text))
  {
    var captures := Captures(matches[0], "season");
    StandardSeason(reader, matches, releaseTitle, tomorrow, r);
    if FirstNumeric(captures, k) { FirstSeason(captures, k); }
    if forall c :: c in captures ==> !Numeric(c) { NoSeason(captures); }
    SeveralSeasons(captures);
  }

  lemma SeveralSeasons(captures: seq<Capture>)
    ensures var seasons := Seasons(captures);
            (exists i, j :: 0 <= i < j < |seasons| && seasons[i] != seasons[j]) <==>
            exists c, d :: c in captures && d in captures && Numeric(c) && Numeric(d) && ParseInt(c.text) != ParseInt(d.text)
  {
    var seasons := Seasons(captures);
    if c, d :| c in captures && d in captures && Numeric(c) && Numeric(d) && ParseInt(c.text) != ParseInt(d.text) {
      SeasonIn(captures, c);
      SeasonIn(captures, d);
      TwoPlaces(seasons, ParseInt(c.text).value, ParseInt(d.text).value);
    }
    if i, j :| 0 <= i < j < |seasons| && seasons[i] != seasons[j] {
      var c := SeasonFrom(captures, seasons[i]);
      var d := SeasonFrom(captures, seasons[j]);
    }
  }

  lemma TwoPlaces(s: seq<int>, m: int, n: int)
    requires m in s && n in s && m != n
    ensures exists i, j :: 0 <= i < j < |s| && s[i] != s[j]
  {
    var i :| 0 <= i < |s| && s[i] == m;
    var j :| 0 <= j < |s| && s[j] == n;
    assert s[if i < j then i else j] != s[if i < j then j else i];
  }

  // -------------------------------------------------------------- release tokens

  // Where a capture that counts ends: the title's, the last number of some match, or a
  // numeric season.
  predicate NumberEnds(matches: seq<Match>, e: nat)
    requires matches != []
  {
    || e == GroupEnd(matches[0], "title")
    || (exists m :: m in matches && Episodes(m) != [] && e == End(Episodes(m)[|Episodes(m)| - 1]))
    || (exists m :: m in matches && Absolutes(m) != [] && e == End(Absolutes(m)[|Absolutes(m)| - 1]))
    || (exists c :: c in Captures(matches[0], "season") && Numeric(c) && e == End(c))
  }

  lemma {:induction false} ReachAt(matches: seq<Match>, start: nat)
    ensures forall m :: m in matches ==> Reach(m) <= ReachAll(matches, start)
    ensures start <= ReachAll(matches, start)
    ensures ReachAll(matches, start) == start || exists m :: m in matches && Reach(m) == ReachAll(matches, start) > 0
  {
    if matches != [] {
      var n := |matches| - 1;
      ReachAt(matches[..n], start);
      assert matches == matches[..n] + [matches[n]];
    }
  }

  lemma {:induction false} SeasonReachAt(captures: seq<Capture>, start: nat)
    ensures forall c :: c in captures && Numeric(c) ==> End(c) <= SeasonReach(captures, start)
    ensures start <= SeasonReach(captures, start)
    ensures SeasonReach(captures, start) == start
            || exists c :: c in captures && Numeric(c) && End(c) == SeasonReach(captures, start)
  {
    if captures != [] {
      var n := |captures| - 1;
      SeasonReachAt(captures[..n], start);
      assert captures == captures[..n] + [captures[n]];
    }
  }

  // The release tokens start where the last capture that counts ends.
  lemma TokensOnCaptures(reader: Reader, matches: seq<Match>, releaseTitle: string, tomorrow: Date, r: Result)
    requires matches != [] && !IsDaily(matches) && Interpret(reader, matches, releaseTitle, tomorrow) == Success(r)
    ensures exists reach: nat ::
              NumberEnds(matches, reach) && (forall e: nat :: NumberEnds(matches, e) ==> e <= reach)
              && TokensFrom(releaseTitle, reach, r.releaseTokens)
  {
    var captures, title := Captures(matches[0], "season"), GroupEnd(matches[0], "title");
    var reach := SeasonReach(captures, ReachAll(matches, title));
    StandardTokens(reader, matches, releaseTitle, r);
    FurthestEnd(matches, reach);
  }

  lemma FurthestEnd(matches: seq<Match>, reach: nat)
    requires matches != []
    requires var captures, title := Captures(matches[0], "season"), GroupEnd(matches[0], "title");
             reach == SeasonReach(captures, ReachAll(matches, title))
    ensures NumberEnds(matches, reach) && forall e: nat :: NumberEnds(matches, e) ==> e <= reach
  {
    var captures, title := Captures(matches[0], "season"), GroupEnd(matches[0], "title");
    ReachAt(matches, title);
    SeasonReachAt(captures, ReachAll(matches, title));
    forall m | m in matches
      ensures Episodes(m) != [] ==> End(Episodes(m)[|Episodes(m)| - 1]) <= Reach(m)
      ensures Absolutes(m) != [] ==> End(Absolutes(m)[|Absolutes(m)| - 1]) <= Reach(m)
    {
    }
  }
}
