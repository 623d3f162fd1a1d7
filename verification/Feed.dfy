// Building the home feed: rows filled greedily under diversity caps, with one
// set of shown titles shared by all rows.
module Feed {
  import opened Collecting
  import opened Numbers
  import opened Options
  import opened Stability

  // The fields of a title that selection reads.
  datatype Title = Title(mediaType: string, tmdbId: int, genres: seq<int>, language: string)

  // Zero or negative caps do not apply.
  datatype Diversity = Diversity(maxPerGenre: int, maxPerLanguage: int)

  function TitleKey(t: Title): string
  {
    t.mediaType + ":" + FormatInt(t.tmdbId)
  }

  // -------------------------------------------------------------- the counters

  function Occurrences(genres: seq<int>, genre: int): nat
  {
    if genres == [] then 0
    else Occurrences(genres[..|genres| - 1], genre) + (if genres[|genres| - 1] == genre then 1 else 0)
  }

  // How often a genre has been counted over the selected titles; a title listing
  // it twice counts twice.
  function GenreCount(selected: seq<Title>, genre: int): nat
  {
    if selected == [] then 0
    else GenreCount(selected[..|selected| - 1], genre) + Occurrences(selected[|selected| - 1].genres, genre)
  }

  function LanguageCount(selected: seq<Title>, language: string): nat
  {
    if selected == [] then 0
    else LanguageCount(selected[..|selected| - 1], language)
         + (if selected[|selected| - 1].language == language then 1 else 0)
  }

  // The selected titles that list a genre.
  function TitlesWithGenre(selected: seq<Title>, genre: int): nat
  {
    if selected == [] then 0
    else TitlesWithGenre(selected[..|selected| - 1], genre)
         + (if genre in selected[|selected| - 1].genres then 1 else 0)
  }

  // No cap is reached by what t would add to the selection.
  predicate Passes(t: Title, rules: Diversity, selected: seq<Title>)
  {
    && (rules.maxPerGenre > 0 ==> forall g :: g in t.genres ==> GenreCount(selected, g) < rules.maxPerGenre)
    && (rules.maxPerLanguage > 0 && t.language != "" ==> LanguageCount(selected, t.language) < rules.maxPerLanguage)
  }

  function CountOf<K>(counts: map<K, nat>, key: K): nat { if key in counts then counts[key] else 0 }

  // The running counters agree with what has been selected.
  ghost predicate Counted(genreCounts: map<int, nat>, langCounts: map<string, nat>, selected: seq<Title>)
  {
    && (forall g :: CountOf(genreCounts, g) == GenreCount(selected, g))
    && (forall l :: l != "" ==> CountOf(langCounts, l) == LanguageCount(selected, l))
  }

  method PassesDiversity(t: Title, rules: Diversity, genreCounts: map<int, nat>, langCounts: map<string, nat>,
                         ghost selected: seq<Title>)
    returns (ok: bool)
    requires Counted(genreCounts, langCounts, selected)
    ensures ok <==> Passes(t, rules, selected)
  {
    if rules.maxPerGenre > 0 {
      for i := 0 to |t.genres|
        invariant forall k :: 0 <= k < i ==> GenreCount(selected, t.genres[k]) < rules.maxPerGenre
      {
        if CountOf(genreCounts, t.genres[i]) >= rules.maxPerGenre {
          assert t.genres[i] in t.genres;
          return false;
        }
      }
    }
    if rules.maxPerLanguage > 0 && t.language != "" {
      if CountOf(langCounts, t.language) >= rules.maxPerLanguage { return false; }
    }
    return true;
  }

  method CountTitle(t: Title, genreCounts: map<int, nat>, langCounts: map<string, nat>, ghost selected: seq<Title>)
    returns (genreCounts': map<int, nat>, langCounts': map<string, nat>)
    requires Counted(genreCounts, langCounts, selected)
    ensures Counted(genreCounts', langCounts', selected + [t])
  {
    genreCounts', langCounts' := genreCounts, langCounts;
    for i := 0 to |t.genres|
      invariant forall g :: CountOf(genreCounts', g) == CountOf(genreCounts, g) + Occurrences(t.genres[..i], g)
    {
      assert t.genres[..i + 1][..i] == t.genres[..i];
      genreCounts' := genreCounts'[t.genres[i] := CountOf(genreCounts', t.genres[i]) + 1];
    }
    assert t.genres[..|t.genres|] == t.genres;
    if t.language != "" {
      langCounts' := langCounts'[t.language := CountOf(langCounts', t.language) + 1];
    }
    assert (selected + [t])[..|selected|] == selected;
  }

  // --------------------------------------------------------------- one row

  // The title is taken after these ones.
  predicate Takes(t: Title, selected: seq<Title>, target: nat, rules: Option<Diversity>, seen: set<string>)
  {
    && |selected| < target
    && TitleKey(t) !in seen
    && (rules.Some? ==> Passes(t, rules.value, selected))
  }

  // Greedy selection over a prefix of the candidates.
  function Select(candidates: seq<Title>, target: nat, rules: Option<Diversity>, seen: set<string>): seq<Title>
  {
    if candidates == [] then []
    else
      var earlier, t := Select(candidates[..|candidates| - 1], target, rules, seen), candidates[|candidates| - 1];
      if Takes(t, earlier, target, rules, seen) then earlier + [t] else earlier
  }

  lemma SelectSnoc(candidates: seq<Title>, i: nat, target: nat, rules: Option<Diversity>, seen: set<string>)
    requires i < |candidates|
    ensures var earlier := Select(candidates[..i], target, rules, seen);
            Select(candidates[..i + 1], target, rules, seen) ==
            if Takes(candidates[i], earlier, target, rules, seen) then earlier + [candidates[i]] else earlier
  {
    assert candidates[..i + 1][..i] == candidates[..i];
  }

  lemma {:induction false} SelectFull(candidates: seq<Title>, i: nat, target: nat, rules: Option<Diversity>, seen: set<string>)
    requires i <= |candidates| && |Select(candidates[..i], target, rules, seen)| >= target
    ensures Select(candidates, target, rules, seen) == Select(candidates[..i], target, rules, seen)
    decreases |candidates| - i
  {
    if i == |candidates| {
      assert candidates[..i] == candidates;
    } else {
      SelectSnoc(candidates, i, target, rules, seen);
      SelectFull(candidates, i + 1, target, rules, seen);
    }
  }

  method SelectItems(candidates: seq<Title>, target: nat, diversity: Option<Diversity>, seen: set<string>)
    returns (selected: seq<Title>)
    ensures selected == Select(candidates, target, diversity, seen)
  {
    selected := [];
    var genreCounts: map<int, nat>, langCounts: map<string, nat> := map[], map[];
    for i := 0 to |candidates|
      invariant selected == Select(candidates[..i], target, diversity, seen)
      invariant Counted(genreCounts, langCounts, selected)
    {
      if |selected| >= target {
        SelectFull(candidates, i, target, diversity, seen);
        return;
      }
      SelectSnoc(candidates, i, target, diversity, seen);
      var candidate := candidates[i];
      if TitleKey(candidate) in seen { continue; }
      if diversity.Some? {
        var ok := PassesDiversity(candidate, diversity.value, genreCounts, langCounts, selected);
        if !ok { continue; }
      }
      genreCounts, langCounts := CountTitle(candidate, genreCounts, langCounts, selected);
      selected := selected + [candidate];
    }
    assert candidates[..|candidates|] == candidates;
  }

  // -------------------------------------------------------------- the feed

  // A row definition with its ranked candidates already fetched.
  datatype RowSource = RowSource(intent: string, candidates: seq<Title>, target: nat, diversity: Option<Diversity>)

  datatype Row = Row(intent: string, items: seq<Title>)

  function Keys(titles: seq<Title>): set<string> { set t | t in titles :: TitleKey(t) }

  // The keys shown so far, shared by every row of one feed.
  class SeenKeys {
    var keys: set<string>

    constructor ()
      ensures keys == {}
    {
      keys := {};
    }

    method Add(key: string)
      modifies this
      ensures keys == old(keys) + {key}
    {
      keys := keys + {key};
    }
  }

  lemma KeysStep(titles: seq<Title>, i: nat)
    requires i < |titles|
    ensures Keys(titles[..i + 1]) == Keys(titles[..i]) + {TitleKey(titles[i])}
  {
    assert titles[..i + 1] == titles[..i] + [titles[i]];
  }

  method BuildRow(def: RowSource, seen: SeenKeys) returns (row: Row)
    modifies seen
    ensures row.items == Select(def.candidates, def.target, def.diversity, old(seen.keys))
    ensures row.items != [] ==> row.intent == def.intent
    ensures seen.keys == old(seen.keys) + Keys(row.items)
  {
    if |def.candidates| == 0 { return Row("", []); }
    var selected := SelectItems(def.candidates, def.target, def.diversity, seen.keys);
    for i := 0 to |selected|
      invariant seen.keys == old(seen.keys) + Keys(selected[..i])
    {
      KeysStep(selected, i);
      seen.Add(TitleKey(selected[i]));
    }
    assert selected[..|selected|] == selected;
    row := Row(def.intent, selected);
  }

  // The non-empty rows of a feed, and the keys shown with them.
  function Rows(defs: seq<RowSource>, shown: set<string>): seq<Row>
  {
    if defs == [] then []
    else
      var items := Select(defs[0].candidates, defs[0].target, defs[0].diversity, shown);
      (if items != [] then [Row(defs[0].intent, items)] else []) + Rows(defs[1..], shown + Keys(items))
  }

  lemma RowsUnfold(defs: seq<RowSource>, i: nat, shown: set<string>, rows: seq<Row>)
    requires i < |defs|
    ensures var items := Select(defs[i].candidates, defs[i].target, defs[i].diversity, shown);
            rows + Rows(defs[i..], shown) ==
            (if items != [] then rows + [Row(defs[i].intent, items)] else rows) + Rows(defs[i + 1..], shown + Keys(items))
  {
    assert defs[i..][1..] == defs[i + 1..];
  }

  method BuildFeed(heroKey: string, defs: seq<RowSource>) returns (rows: seq<Row>)
    ensures rows == Rows(defs, if heroKey == "" then {} else {heroKey})
  {
    var seen := new SeenKeys();
    if heroKey != "" { seen.Add(heroKey); }
    rows := [];
    ghost var all := Rows(defs, seen.keys);
    assert seen.keys == if heroKey == "" then {} else {heroKey};
    assert defs[0..] == defs;
    for i := 0 to |defs|
      invariant fresh(seen)
      invariant all == rows + Rows(defs[i..], seen.keys)
    {
      RowsUnfold(defs, i, seen.keys, rows);
      var row := BuildRow(defs[i], seen);
      if |row.items| > 0 { rows := rows + [row]; }
    }
    assert Rows(defs[|defs|..], seen.keys) == [];
  }

  // ------------------------------------------------------- what a row guarantees

  // s with some elements left out.
  predicate IsSubsequence(sub: seq<Title>, s: seq<Title>)
  {
    sub == [] || (s != [] && ((sub[|sub| - 1] == s[|s| - 1] && IsSubsequence(sub[..|sub| - 1], s[..|s| - 1]))
                              || IsSubsequence(sub, s[..|s| - 1])))
  }

  lemma {:induction false} OccurrencesPositive(genres: seq<int>, genre: int)
    ensures Occurrences(genres, genre) > 0 <==> genre in genres
  {
    if genres != [] {
      OccurrencesPositive(genres[..|genres| - 1], genre);
      assert genres == genres[..|genres| - 1] + [genres[|genres| - 1]];
    }
  }

  lemma {:induction false} TitlesWithinOccurrences(selected: seq<Title>, genre: int)
    ensures TitlesWithGenre(selected, genre) <= GenreCount(selected, genre)
  {
    if selected != [] {
      TitlesWithinOccurrences(selected[..|selected| - 1], genre);
      OccurrencesPositive(selected[|selected| - 1].genres, genre);
    }
  }

  lemma {:induction false} OccurrencesOnce(genres: seq<int>, genre: int)
    ensures Occurrences(genres, genre) <= 1 <==>
            forall i, j :: 0 <= i < j < |genres| ==> !(genres[i] == genre == genres[j])
  {
    if genres != [] {
      OccurrencesOnce(genres[..|genres| - 1], genre);
      OccurrencesPositive(genres[..|genres| - 1], genre);
    }
  }

  // The counter is the number of titles exactly when no selected title lists the genre
  // twice; one that does counts as often as it lists it.
  lemma {:induction false} CountsTitlesExactly(selected: seq<Title>, genre: int)
    ensures GenreCount(selected, genre) == TitlesWithGenre(selected, genre) <==>
            forall k :: 0 <= k < |selected| ==> Occurrences(selected[k].genres, genre) <= 1
  {
    if selected != [] {
      var n := |selected| - 1;
      CountsTitlesExactly(selected[..n], genre);
      TitlesWithinOccurrences(selected[..n], genre);
      OccurrencesPositive(selected[n].genres, genre);
    }
  }

  lemma {:induction false} OccurrencesExactly(genres: seq<int>, genre: int)
    ensures Occurrences(genres, genre) == multiset(genres)[genre]
  {
    if genres != [] {
      OccurrencesExactly(genres[..|genres| - 1], genre);
      assert genres == genres[..|genres| - 1] + [genres[|genres| - 1]];
    }
  }

  lemma FilterSnoc(keep: Title -> bool, s: seq<Title>, t: Title)
    ensures Filter(keep, s + [t]) == Filter(keep, s) + if keep(t) then [t] else []
  {
    FilterSplit(keep, s, [t]);
    assert [t][1..] == [];
  }

  // What is counted: the selected titles of a language, those that list a genre, and
  // for the genre caps each of their listings.
  lemma {:induction false} CountsExactly(selected: seq<Title>, genre: int, language: string)
    ensures LanguageCount(selected, language) == |Filter((t: Title) => t.language == language, selected)|
    ensures TitlesWithGenre(selected, genre) == |Filter((t: Title) => genre in t.genres, selected)|
    ensures forall t :: GenreCount(selected + [t], genre) == GenreCount(selected, genre) + multiset(t.genres)[genre]
    ensures GenreCount([], genre) == 0
  {
    forall t: Title ensures GenreCount(selected + [t], genre) == GenreCount(selected, genre) + multiset(t.genres)[genre] {
      GenreCountSnoc(selected, t, genre);
    }
    if selected != [] {
      var n := |selected| - 1;
      CountsExactly(selected[..n], genre, language);
      assert selected == selected[..n] + [selected[n]];
      FilterSnoc((t: Title) => t.language == language, selected[..n], selected[n]);
      FilterSnoc((t: Title) => genre in t.genres, selected[..n], selected[n]);
    }
  }

  lemma GenreCountSnoc(selected: seq<Title>, t: Title, genre: int)
    ensures GenreCount(selected + [t], genre) == GenreCount(selected, genre) + multiset(t.genres)[genre]
  {
    assert (selected + [t])[..|selected|] == selected;
    OccurrencesExactly(t.genres, genre);
  }

  // A row is a subsequence of its candidates, avoids what was shown, keeps to its
  // target and respects both caps, counted in titles.
  lemma {:induction false} RowIsSelection(candidates: seq<Title>, target: nat, rules: Option<Diversity>, seen: set<string>)
    ensures var row := Select(candidates, target, rules, seen);
            && IsSubsequence(row, candidates)
            && |row| <= target
            && (forall t :: t in row ==> TitleKey(t) !in seen)
  {
    if candidates != [] {
      var n := |candidates| - 1;
      RowIsSelection(candidates[..n], target, rules, seen);
      var earlier := Select(candidates[..n], target, rules, seen);
      assert (earlier + [candidates[n]])[..|earlier|] == earlier;
    }
  }

  lemma {:induction false} RowRespectsCaps(candidates: seq<Title>, target: nat, rules: Diversity, seen: set<string>,
                                           genre: int, language: string)
    ensures var row := Select(candidates, target, Some(rules), seen);
            && (rules.maxPerGenre > 0 ==> TitlesWithGenre(row, genre) <= rules.maxPerGenre)
            && (rules.maxPerLanguage > 0 && language != "" ==> LanguageCount(row, language) <= rules.maxPerLanguage)
  {
    if candidates != [] {
      var n := |candidates| - 1;
      RowRespectsCaps(candidates[..n], target, rules, seen, genre, language);
      var earlier := Select(candidates[..n], target, Some(rules), seen);
      assert (earlier + [candidates[n]])[..|earlier|] == earlier;
      TitlesWithinOccurrences(earlier, genre);
    }
  }

  lemma CountsSnoc(part: seq<Title>, t: Title, genre: int, language: string)
    ensures GenreCount(part, genre) <= GenreCount(part + [t], genre)
    ensures LanguageCount(part, language) <= LanguageCount(part + [t], language)
  {
    assert (part + [t])[..|part|] == part;
  }

  // Counters only grow as a row does.
  lemma {:induction false} CountsGrow(candidates: seq<Title>, i: nat, target: nat, rules: Option<Diversity>, seen: set<string>,
                                      genre: int, language: string)
    requires i <= |candidates|
    ensures var part, row := Select(candidates[..i], target, rules, seen), Select(candidates, target, rules, seen);
            && |part| <= |row|
            && GenreCount(part, genre) <= GenreCount(row, genre)
            && LanguageCount(part, language) <= LanguageCount(row, language)
    decreases |candidates| - i
  {
    if i == |candidates| {
      assert candidates[..i] == candidates;
    } else {
      SelectSnoc(candidates, i, target, rules, seen);
      CountsGrow(candidates, i + 1, target, rules, seen, genre, language);
      CountsSnoc(Select(candidates[..i], target, rules, seen), candidates[i], genre, language);
    }
  }

  // Selection is maximal: in a row short of its target, a candidate that was
  // passed over had been shown before or would break a cap of the finished row.
  lemma RowIsMaximal(candidates: seq<Title>, i: nat, target: nat, rules: Option<Diversity>, seen: set<string>)
    requires i < |candidates| && |Select(candidates, target, rules, seen)| < target
    requires Select(candidates[..i + 1], target, rules, seen) == Select(candidates[..i], target, rules, seen)
    ensures TitleKey(candidates[i]) in seen
            || (rules.Some? && !Passes(candidates[i], rules.value, Select(candidates, target, rules, seen)))
  {
    var t, part := candidates[i], Select(candidates[..i], target, rules, seen);
    SelectSnoc(candidates, i, target, rules, seen);
    CountsGrow(candidates, i, target, rules, seen, 0, t.language);
    assert part + [t] != part;
    if TitleKey(t) !in seen {
      if rules.value.maxPerGenre > 0 {
        if g :| g in t.genres && GenreCount(part, g) >= rules.value.maxPerGenre {
          CountsGrow(candidates, i, target, rules, seen, g, t.language);
        }
      }
    }
  }

  // Spelled out: with room left in the row, a candidate is passed over only if its key
  // was shown, if one of its genres has reached a positive cap, or if its language has,
  // where no language at all is never capped.
  lemma PassedOverExactly(candidates: seq<Title>, i: nat, target: nat, rules: Option<Diversity>, seen: set<string>)
    requires i < |candidates| && |Select(candidates[..i], target, rules, seen)| < target
    ensures var t, row := candidates[i], Select(candidates[..i], target, rules, seen);
            Select(candidates[..i + 1], target, rules, seen) == row <==>
              || t.mediaType + ":" + FormatInt(t.tmdbId) in seen
              || (rules.Some? && rules.value.maxPerGenre > 0
                  && exists g :: g in t.genres && GenreCount(row, g) >= rules.value.maxPerGenre)
              || (rules.Some? && rules.value.maxPerLanguage > 0 && t.language != ""
                  && LanguageCount(row, t.language) >= rules.value.maxPerLanguage)
  {
    SelectSnoc(candidates, i, target, rules, seen);
    var row := Select(candidates[..i], target, rules, seen);
    assert row + [candidates[i]] != row;
  }

  // ------------------------------------------------------- what a feed guarantees

  // No key of one row appears in another, and none is among the keys already shown.
  predicate RowsDisjoint(rows: seq<Row>, shown: set<string>)
  {
    && (forall i :: 0 <= i < |rows| ==> Keys(rows[i].items) !! shown)
    && (forall i, j :: 0 <= i < j < |rows| ==> Keys(rows[i].items) !! Keys(rows[j].items))
  }

  lemma {:induction false} FeedRowsDisjoint(defs: seq<RowSource>, shown: set<string>)
    ensures RowsDisjoint(Rows(defs, shown), shown)
    ensures forall i :: 0 <= i < |Rows(defs, shown)| ==> Rows(defs, shown)[i].items != []
  {
    if defs != [] {
      var def := defs[0];
      var items := Select(def.candidates, def.target, def.diversity, shown);
      RowIsSelection(def.candidates, def.target, def.diversity, shown);
      FeedRowsDisjoint(defs[1..], shown + Keys(items));
      var rest := Rows(defs[1..], shown + Keys(items));
      forall i | 0 <= i < |rest| ensures Keys(rest[i].items) !! shown && Keys(rest[i].items) !! Keys(items) {}
      assert Keys(items) !! shown;
    }
  }

  predicate DistinctKeys(titles: seq<Title>)
  {
    forall i, j :: 0 <= i < j < |titles| ==> TitleKey(titles[i]) != TitleKey(titles[j])
  }

  lemma {:induction false} SelectedFrom(candidates: seq<Title>, target: nat, rules: Option<Diversity>, seen: set<string>, t: Title)
    requires t in Select(candidates, target, rules, seen)
    ensures t in candidates
  {
    var n := |candidates| - 1;
    if t in Select(candidates[..n], target, rules, seen) {
      SelectedFrom(candidates[..n], target, rules, seen, t);
    }
  }

  lemma {:induction false} SelectedDistinct(candidates: seq<Title>, target: nat, rules: Option<Diversity>, seen: set<string>)
    requires DistinctKeys(candidates)
    ensures DistinctKeys(Select(candidates, target, rules, seen))
  {
    if candidates != [] {
      var n := |candidates| - 1;
      SelectedDistinct(candidates[..n], target, rules, seen);
      var earlier := Select(candidates[..n], target, rules, seen);
      forall k | 0 <= k < |earlier| ensures TitleKey(earlier[k]) != TitleKey(candidates[n]) {
        SelectedFrom(candidates[..n], target, rules, seen, earlier[k]);
      }
    }
  }

  // With no cap, an ample target and nothing shown, everything is selected.
  lemma {:induction false} SelectEverything(candidates: seq<Title>, target: nat)
    requires |candidates| <= target
    ensures Select(candidates, target, None, {}) == candidates
  {
    if candidates != [] {
      SelectEverything(candidates[..|candidates| - 1], target);
      assert candidates == candidates[..|candidates| - 1] + [candidates[|candidates| - 1]];
    }
  }

  // Selection never adds to the shown keys inside a row. So rows drawn from a list of
  // candidates are free of repeats, whatever the target, the caps and the shown keys,
  // exactly when the list itself is.
  lemma RowsRepeatExactly(candidates: seq<Title>)
    ensures DistinctKeys(candidates) <==>
            forall target: nat, rules, seen :: DistinctKeys(Select(candidates, target, rules, seen))
  {
    if DistinctKeys(candidates) {
      forall target: nat, rules, seen ensures DistinctKeys(Select(candidates, target, rules, seen)) {
        SelectedDistinct(candidates, target, rules, seen);
      }
    } else {
      SelectEverything(candidates, |candidates|);
    }
  }

  // All titles of a feed, row by row.
  function AllItems(rows: seq<Row>): seq<Title>
  {
    if rows == [] then [] else rows[0].items + AllItems(rows[1..])
  }

  lemma DistinctJoin(a: seq<Title>, b: seq<Title>)
    requires DistinctKeys(a) && DistinctKeys(b) && forall t :: t in b ==> TitleKey(t) !in Keys(a)
    ensures DistinctKeys(a + b)
  {
  }

  lemma AllItemsUnfold(def: RowSource, defs: seq<RowSource>, shown: set<string>)
    ensures var items := Select(def.candidates, def.target, def.diversity, shown);
            AllItems(Rows([def] + defs, shown)) == items + AllItems(Rows(defs, shown + Keys(items)))
  {
    var items := Select(def.candidates, def.target, def.diversity, shown);
    var rest := Rows(defs, shown + Keys(items));
    assert ([def] + defs)[1..] == defs;
    if items != [] {
      assert ([Row(def.intent, items)] + rest)[1..] == rest;
    } else {
      assert [] + rest == rest && items + AllItems(rest) == AllItems(rest);
    }
  }

  lemma KeysJoin(a: seq<Title>, b: seq<Title>)
    ensures Keys(a + b) == Keys(a) + Keys(b)
  {
  }

  // What one definition contributes, given what was shown before.
  function RowOf(d: RowSource, shown: set<string>): seq<Row>
  {
    var items := Select(d.candidates, d.target, d.diversity, shown);
    if items == [] then [] else [Row(d.intent, items)]
  }

  // What has been shown once these definitions are through.
  function ShownAfter(defs: seq<RowSource>, shown: set<string>): set<string>
  {
    shown + Keys(AllItems(Rows(defs, shown)))
  }

  // Each definition yields the row selected from its candidates under its own intent,
  // against what was shown before the feed and by the rows above it; empty rows are left
  // out.
  lemma {:induction false} RowsInOrder(a: seq<RowSource>, d: RowSource, b: seq<RowSource>, shown: set<string>)
    ensures var seen := ShownAfter(a, shown);
            Rows(a + [d] + b, shown) == Rows(a, shown) + (RowOf(d, seen) + Rows(b, ShownAfter([d], seen)))
  {
    var all := a + [d] + b;
    if a == [] {
      assert all == [d] + b && all[1..] == b;
      assert ShownAfter(a, shown) == shown;
      RowsFirst(all, shown);
      assert Rows(a, shown) + Rows(all, shown) == Rows(all, shown);
    } else {
      var shown' := ShownAfter([a[0]], shown);
      RowsInOrder(a[1..], d, b, shown');
      assert all[0] == a[0] && all[1..] == a[1..] + [d] + b;
      RowsFirst(a, shown);
      RowsFirst(all, shown);
      ShownFirst(a, shown);
      var seen := ShownAfter(a[1..], shown');
      Associate(RowOf(a[0], shown), Rows(a[1..], shown'), RowOf(d, seen) + Rows(b, ShownAfter([d], seen)));
    }
  }

  lemma ShownFirst(defs: seq<RowSource>, shown: set<string>)
    requires defs != []
    ensures ShownAfter(defs, shown) == ShownAfter(defs[1..], ShownAfter([defs[0]], shown))
  {
    var d := defs[0];
    var items := Select(d.candidates, d.target, d.diversity, shown);
    OneRow(d, shown);
    AllItemsUnfold(d, defs[1..], shown);
    assert defs == [d] + defs[1..];
    KeysJoin(items, AllItems(Rows(defs[1..], shown + Keys(items))));
  }

  lemma OneRow(d: RowSource, shown: set<string>)
    ensures ShownAfter([d], shown) == shown + Keys(Select(d.candidates, d.target, d.diversity, shown))
  {
    var items := Select(d.candidates, d.target, d.diversity, shown);
    AllItemsUnfold(d, [], shown);
    assert [d] + [] == [d] && items + AllItems(Rows([], shown + Keys(items))) == items;
  }

  lemma RowsFirst(defs: seq<RowSource>, shown: set<string>)
    requires defs != []
    ensures Rows(defs, shown) == RowOf(defs[0], shown) + Rows(defs[1..], ShownAfter([defs[0]], shown))
  {
    OneRow(defs[0], shown);
  }

  // When each row's candidates are distinct, no key occurs twice in the whole feed,
  // and none that was shown before, such as the hero's, occurs at all.
  lemma {:induction false} FeedKeysDistinct(defs: seq<RowSource>, shown: set<string>)
    requires forall d :: d in defs ==> DistinctKeys(d.candidates)
    ensures DistinctKeys(AllItems(Rows(defs, shown)))
    ensures forall t :: t in AllItems(Rows(defs, shown)) ==> TitleKey(t) !in shown
  {
    if defs != [] {
      var def, items := defs[0], Select(defs[0].candidates, defs[0].target, defs[0].diversity, shown);
      assert def in defs && defs == [def] + defs[1..];
      AllItemsUnfold(def, defs[1..], shown);
      SelectedDistinct(def.candidates, def.target, def.diversity, shown);
      RowIsSelection(def.candidates, def.target, def.diversity, shown);
      FeedKeysDistinct(defs[1..], shown + Keys(items));
      DistinctJoin(items, AllItems(Rows(defs[1..], shown + Keys(items))));
    }
  }

  // A key names one title of one media type.
  lemma KeyIdentifies(a: Title, b: Title)
    requires TitleKey(a) == TitleKey(b)
    ensures a.mediaType == b.mediaType && a.tmdbId == b.tmdbId
  {
    var na, nb := FormatInt(a.tmdbId), FormatInt(b.tmdbId);
    NoColon(a.tmdbId);
    NoColon(b.tmdbId);
    LastColon(a.mediaType, na, b.mediaType, nb);
    LastColon(b.mediaType, nb, a.mediaType, na);
    var key := TitleKey(a);
    assert key[..|a.mediaType|] == a.mediaType && key[|a.mediaType| + 1..] == na;
    assert TitleKey(b)[..|b.mediaType|] == b.mediaType && TitleKey(b)[|b.mediaType| + 1..] == nb;
    FormatInjective(a.tmdbId, b.tmdbId);
  }

  lemma LastColon(m: string, n: string, m': string, n': string)
    requires m + ":" + n == m' + ":" + n' && forall i :: 0 <= i < |n| ==> n[i] != ':'
    ensures |m'| <= |m|
  {
    assert (m' + ":" + n')[|m'|] == ':';
    assert forall i :: 0 <= i < |n| ==> (m + ":" + n)[|m| + 1 + i] == n[i];
    assert forall k :: |m| < k < |m + ":" + n| ==> (m + ":" + n)[k] == n[k - |m| - 1];
  }

  lemma NoColon(n: int)
    ensures forall i :: 0 <= i < |FormatInt(n)| ==> FormatInt(n)[i] != ':'
  {
  }
}
