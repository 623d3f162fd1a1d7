// The TMDB adapter behind the matcher's metadata seam: validating an external ID
// and reordering search hits.
module Metadata {
  import opened Numbers
  import opened Options
  import opened Sorting
  import opened Stability

  datatype Source = Unset | TMDB | IMDB | TVDB | Other(name: string)

  datatype EntityType = Movie | Series

  datatype Item = Item(source: Source, externalId: string, kind: EntityType, title: string, year: int,
                       poster: string, redirected: bool)

  // A details endpoint's answer. Missing is an error shaped like a 404; an answer
  // may also carry the ID zero.
  datatype Details = Details(id: int, title: string, date: string, poster: string) | Missing | Failing

  datatype Found = Found(movies: seq<int>, series: seq<int>) | NoMapping | FindFailing

  datatype Client = Client(movie: int -> Details, series: int -> Details, find: (Source, string) -> Found)

  datatype LookupError = ProviderUnavailable | InvalidId | Upstream

  // Absent is the (nil, nil) answer for a dead ID.
  datatype Lookup = Hit(item: Item) | Absent | Error(error: LookupError)

  // The year in front of a YYYY-MM-DD date, zero when there is none.
  function SplitYear(date: string): int
  {
    if |date| < 4 then 0
    else
      var year := ParseInt(date[..4]);
      if year.None? then 0 else year.value
  }

  function ItemFrom(d: Details, kind: EntityType, requested: string): Item
    requires d.Details?
  {
    var returned := FormatInt(d.id);
    Item(TMDB, returned, kind, d.title, SplitYear(d.date), d.poster, returned != requested)
  }

  function LookupTmdb(client: Client, id: string): Lookup
  {
    var parsed := ParseInt(id);
    if parsed.None? then Error(InvalidId)
    else
      var movie := client.movie(parsed.value);
      if movie.Details? && movie.id != 0 then Hit(ItemFrom(movie, Movie, id))
      else if movie.Failing? then Error(Upstream)
      else
        var series := client.series(parsed.value);
        if series.Details? && series.id != 0 then Hit(ItemFrom(series, Series, id))
        else if series.Failing? then Error(Upstream)
        else Absent
  }

  // The TMDB ID an IMDb or TVDB ID maps to; "" when there is none.
  function ResolveCrossProvider(client: Client, source: Source, id: string): Option<string>
  {
    if source == TMDB then Some(id)
    else if source != IMDB && source != TVDB then Some("")
    else
      var found := client.find(source, id);
      match found
      case FindFailing => None
      case NoMapping => Some("")
      case Found(movies, series) =>
        if movies != [] then Some(FormatInt(movies[0]))
        else if series != [] then Some(FormatInt(series[0]))
        else Some("")
  }

  function LookupById(client: Option<Client>, source: Source, id: string): Lookup
  {
    if client.None? then Error(ProviderUnavailable)
    else if source == TMDB then LookupTmdb(client.value, id)
    else if source == IMDB || source == TVDB then
      var tmdbId := ResolveCrossProvider(client.value, source, id);
      if tmdbId.None? then Error(Upstream)
      else if tmdbId.value == "" then Absent
      else
        var lookup := LookupTmdb(client.value, tmdbId.value);
        if lookup.Hit? then Hit(lookup.item.(redirected := false)) else lookup
    else Error(ProviderUnavailable)
  }

  // What the matcher relies on: a hit in the requested namespace has the requested
  // ID unless it is flagged as redirected, and is never anonymous.
  predicate Honest(source: Source, id: string, lookup: Lookup)
  {
    lookup.Hit? ==>
      && lookup.item.source != Unset
      && (lookup.item.source == source && !lookup.item.redirected ==> lookup.item.externalId == id)
  }

  // The adapter keeps that contract for plain, merged and cross-provider IDs, and
  // flags a redirect exactly when TMDB answered a TMDB request under another ID.
  lemma LookupIsHonest(client: Option<Client>, source: Source, id: string)
    ensures Honest(source, id, LookupById(client, source, id))
    ensures var lookup := LookupById(client, source, id);
            lookup.Hit? ==>
              && lookup.item.source == TMDB
              && (lookup.item.redirected <==> source == TMDB && lookup.item.externalId != id)
              && ParseInt(lookup.item.externalId) != Some(0)
  {
    if client.Some? && (source == TMDB || source == IMDB || source == TVDB) {
      var tmdbId := ResolveCrossProvider(client.value, source, id);
      if tmdbId.Some? { TmdbIdNotZero(client.value, tmdbId.value); }
    }
  }

  lemma TmdbIdNotZero(client: Client, id: string)
    ensures var lookup := LookupTmdb(client, id);
            lookup.Hit? ==> ParseInt(lookup.item.externalId) != Some(0)
  {
    var lookup := LookupTmdb(client, id);
    if lookup.Hit? {
      var n := if lookup.item.kind == Movie then client.movie(ParseInt(id).value).id else client.series(ParseInt(id).value).id;
      FormatDenotes(n);
    }
  }

  // Only the first four bytes of a date count, and there must be as many.
  lemma SplitYearReads(year: string, rest: string)
    ensures |year| == 4 ==> SplitYear(year + rest) == if ParseInt(year).Some? then ParseInt(year).value else 0
    ensures |year| < 4 ==> SplitYear(year) == 0
  {
    if |year| == 4 { assert (year + rest)[..4] == year; }
  }

  // A record as the details endpoints answer it, zero standing for none.
  predicate Answers(d: Details) { d.Details? && d.id != 0 }

  // TMDB's movie of that number if there is one, else its series; a failing endpoint
  // fails the lookup unless a movie was found before it is asked.
  lemma TmdbLookupExactly(client: Client, id: string, n: int)
    requires ParseInt(id) == Some(n)
    ensures var lookup := LookupById(Some(client), TMDB, id); var movie, series := client.movie(n), client.series(n);
            && (lookup.Hit? <==> Answers(movie) || (!movie.Failing? && Answers(series)))
            && (lookup == Error(Upstream) <==> movie.Failing? || (!Answers(movie) && series.Failing?))
            && (lookup.Hit? ==>
                  var d := if Answers(movie) then movie else series;
                  && lookup.item.kind == (if Answers(movie) then Movie else Series)
                  && ParseInt(lookup.item.externalId) == (if InInt64(d.id) then Some(d.id) else None)
                  && lookup.item.title == d.title && lookup.item.poster == d.poster && lookup.item.year == SplitYear(d.date))
  {
    if Answers(client.movie(n)) { FormatDenotes(client.movie(n).id); }
    if Answers(client.series(n)) { FormatDenotes(client.series(n).id); }
  }

  // What an IMDb or TVDB ID maps to is looked up as if TMDB's own ID had been given:
  // the first movie of the mapping if it has one, else its first series.
  lemma CrossLookupExactly(client: Client, source: Source, id: string)
    requires source == IMDB || source == TVDB
    ensures var lookup, found := LookupById(Some(client), source, id), client.find(source, id);
            && (found.FindFailing? ==> lookup == Error(Upstream))
            && (found.NoMapping? || (found.Found? && found.movies == [] && found.series == []) ==> lookup == Absent)
            && (found.Found? && found.movies + found.series != [] ==>
                  var mapped := LookupById(Some(client), TMDB, FormatInt((found.movies + found.series)[0]));
                  if mapped.Hit? then lookup == Hit(mapped.item.(redirected := false)) else lookup == mapped)
  {
    var found := client.find(source, id);
    if found.Found? && found.movies + found.series != [] {
      assert (found.movies + found.series)[0] == if found.movies != [] then found.movies[0] else found.series[0];
      FormatDenotes((found.movies + found.series)[0]);
    }
  }

  // Without a client, or in any other namespace, there is no provider to ask, and a TMDB
  // ID is a number.
  lemma LookupRejects(client: Option<Client>, source: Source, id: string)
    ensures client.None? || source !in {TMDB, IMDB, TVDB} ==> LookupById(client, source, id) == Error(ProviderUnavailable)
    ensures client.Some? && source == TMDB ==> (LookupById(client, source, id) == Error(InvalidId) <==> ParseInt(id).None?)
  {
  }

  // ------------------------------------------------------------- search bias

  datatype SearchHit = SearchHit(id: string, kind: EntityType, year: int)

  datatype SearchOptions = SearchOptions(kind: Option<EntityType>, year: Option<int>)

  function Bias(opts: SearchOptions, hit: SearchHit): nat
  {
    (if opts.kind == Some(hit.kind) then 2 else 0) + (if hit.year != 0 && opts.year == Some(hit.year) then 1 else 0)
  }

  // The first hit of greatest bias.
  function BestHit(opts: SearchOptions, hits: seq<SearchHit>): (best: nat)
    requires hits != []
    ensures best < |hits|
  {
    var n := |hits| - 1;
    if n == 0 then 0
    else
      var best := BestHit(opts, hits[..n]);
      if Bias(opts, hits[n]) > Bias(opts, hits[best]) then n else best
  }

  lemma {:induction false} BestHitIsFirst(opts: SearchOptions, hits: seq<SearchHit>)
    requires hits != []
    ensures var best := BestHit(opts, hits);
            && (forall i :: 0 <= i < |hits| ==> Bias(opts, hits[i]) <= Bias(opts, hits[best]))
            && (forall i :: 0 <= i < best ==> Bias(opts, hits[i]) < Bias(opts, hits[best]))
  {
    if |hits| > 1 { BestHitIsFirst(opts, hits[..|hits| - 1]); }
  }

  // The tail once the best hit has swapped places with the first.
  function SwapOut(hits: seq<SearchHit>, best: nat): seq<SearchHit>
    requires best < |hits|
  {
    hits[best := hits[0]][1..]
  }

  // Selection sort on the bias, descending.
  function Biased(opts: SearchOptions, hits: seq<SearchHit>): seq<SearchHit>
    decreases |hits|
  {
    if |hits| <= 1 then hits
    else
      var best := BestHit(opts, hits);
      [hits[best]] + Biased(opts, SwapOut(hits, best))
  }

  lemma BestHitStep(opts: SearchOptions, hits: seq<SearchHit>, k: nat)
    requires 0 < k < |hits|
    ensures var best := BestHit(opts, hits[..k]);
            BestHit(opts, hits[..k + 1]) == if Bias(opts, hits[k]) > Bias(opts, hits[best]) then k else best
  {
    assert hits[..k + 1][..k] == hits[..k];
  }

  method FindBest(hits: array<SearchHit>, i: nat, opts: SearchOptions) returns (best: nat)
    requires i < hits.Length
    ensures i <= best < hits.Length && best - i == BestHit(opts, hits[i..])
  {
    ghost var rest := hits[i..];
    best := i;
    var j := i + 1;
    assert BestHit(opts, rest[..1]) == 0;
    while j < hits.Length
      invariant i <= best < j <= hits.Length
      invariant best - i == BestHit(opts, rest[..j - i])
    {
      BestHitStep(opts, rest, j - i);
      assert hits[j] == rest[j - i] && hits[best] == rest[best - i];
      if Bias(opts, hits[j]) > Bias(opts, hits[best]) { best := j; }
      j := j + 1;
    }
    assert rest[..hits.Length - i] == rest;
  }

  lemma BiasStep(opts: SearchOptions, done: seq<SearchHit>, rest: seq<SearchHit>)
    requires |rest| > 1
    ensures var best := BestHit(opts, rest);
            done + Biased(opts, rest) == (done + [rest[best]]) + Biased(opts, SwapOut(rest, best))
  {
  }

  lemma SwapSlices(all: seq<SearchHit>, i: nat, best: nat)
    requires i <= best < |all|
    ensures var after := all[i := all[best]][best := all[i]];
            after[..i + 1] == all[..i] + [all[i..][best - i]] && after[i + 1..] == SwapOut(all[i..], best - i)
  {
  }

  // The first i hits are in place.
  ghost predicate Placed(opts: SearchOptions, original: seq<SearchHit>, hits: seq<SearchHit>, i: nat)
  {
    i <= |hits| == |original| && hits[..i] + Biased(opts, hits[i..]) == Biased(opts, original)
  }

  lemma PlacedStep(opts: SearchOptions, original: seq<SearchHit>, hits: seq<SearchHit>, i: nat, best: nat)
    requires Placed(opts, original, hits, i) && i + 1 < |hits|
    requires i <= best < |hits| && best - i == BestHit(opts, hits[i..])
    ensures Placed(opts, original, hits[i := hits[best]][best := hits[i]], i + 1)
  {
    var swapped, rest := hits[i := hits[best]][best := hits[i]], hits[i..];
    BiasStep(opts, hits[..i], rest);
    SwapSlices(hits, i, best);
    assert swapped[..i + 1] == hits[..i] + [rest[best - i]] && swapped[i + 1..] == SwapOut(rest, best - i);
  }

  lemma PlacedAll(opts: SearchOptions, original: seq<SearchHit>, hits: seq<SearchHit>, i: nat)
    requires Placed(opts, original, hits, i) && i + 1 >= |hits|
    ensures hits == Biased(opts, original)
  {
    assert hits[..i] + hits[i..] == hits;
  }

  lemma PlacedNone(opts: SearchOptions, original: seq<SearchHit>)
    ensures Placed(opts, original, original, 0)
  {
    assert original[..0] == [] && original[0..] == original;
  }

  // One turn of the outer loop.
  method PlaceBest(hits: array<SearchHit>, opts: SearchOptions, i: nat, ghost original: seq<SearchHit>)
    requires i + 1 < hits.Length && Placed(opts, original, hits[..], i)
    modifies hits
    ensures Placed(opts, original, hits[..], i + 1)
  {
    ghost var before := hits[..];
    var best := FindBest(hits, i, opts);
    assert before[i..] == hits[i..];
    PlacedStep(opts, original, before, i, best);
    hits[i], hits[best] := hits[best], hits[i];
    assert hits[..] == before[i := before[best]][best := before[i]];
  }

  method BiasCandidates(hits: array<SearchHit>, opts: SearchOptions)
    modifies hits
    ensures hits[..] == Biased(opts, old(hits[..]))
  {
    if hits.Length <= 1 { return; }
    ghost var original := hits[..];
    PlacedNone(opts, original);
    var i := 0;
    while i < hits.Length - 1
      invariant i <= hits.Length - 1
      invariant Placed(opts, original, hits[..], i)
    {
      PlaceBest(hits, opts, i, original);
      i := i + 1;
    }
    PlacedAll(opts, original, hits[..], i);
  }

  lemma SwapKeepsElements(hits: seq<SearchHit>, best: nat)
    requires best < |hits|
    ensures multiset([hits[best]] + SwapOut(hits, best)) == multiset(hits)
  {
    assert [hits[best]] + SwapOut(hits, best) == hits[best := hits[0]][0 := hits[best]];
  }

  // Nothing is dropped, and better matches come first.
  lemma {:induction false} BiasedSorts(opts: SearchOptions, hits: seq<SearchHit>)
    ensures multiset(Biased(opts, hits)) == multiset(hits)
    ensures forall i, j :: 0 <= i < j < |Biased(opts, hits)| ==>
              Bias(opts, Biased(opts, hits)[i]) >= Bias(opts, Biased(opts, hits)[j])
    decreases |hits|
  {
    if |hits| > 1 {
      var best := BestHit(opts, hits);
      var rest := SwapOut(hits, best);
      BestHitIsFirst(opts, hits);
      BiasedSorts(opts, rest);
      SwapKeepsElements(hits, best);
      forall h | h in Biased(opts, rest) ensures Bias(opts, h) <= Bias(opts, hits[best]) {
        assert h in multiset(Biased(opts, rest));
        assert h in multiset([hits[best]] + rest);
        assert h in multiset(hits);
      }
    }
  }

  predicate OfType(opts: SearchOptions, hit: SearchHit) { opts.kind.None? || hit.kind == opts.kind.value }

  predicate OfYear(opts: SearchOptions, hit: SearchHit)
  {
    opts.year.None? || opts.year.value == 0 || hit.year == opts.year.value
  }

  // The requested type comes first, and within a type the requested year; year zero is
  // nobody's, so asking for it asks for nothing. A search that asks for nothing is
  // answered in TMDB's order.
  lemma BiasedByFields(opts: SearchOptions, hits: seq<SearchHit>, i: nat, j: nat)
    requires i < j < |Biased(opts, hits)|
    ensures var a, b := Biased(opts, hits)[i], Biased(opts, hits)[j];
            && (OfType(opts, b) ==> OfType(opts, a))
            && (OfType(opts, a) == OfType(opts, b) && OfYear(opts, b) ==> OfYear(opts, a))
    ensures opts.kind.None? && (opts.year.None? || opts.year.value == 0) ==> Biased(opts, hits) == hits
  {
    BiasedSorts(opts, hits);
    if opts.kind.None? && (opts.year.None? || opts.year.value == 0) { BiasKeepsSorted(opts, hits); }
  }

  // A list already in order is left alone.
  lemma {:induction false} BiasKeepsSorted(opts: SearchOptions, hits: seq<SearchHit>)
    requires InBiasOrder(opts, hits)
    ensures Biased(opts, hits) == hits
    decreases |hits|
  {
    if |hits| > 1 {
      BestHitIsFirst(opts, hits);
      assert SwapOut(hits, 0) == hits[1..];
      BiasKeepsSorted(opts, hits[1..]);
      assert hits == [hits[0]] + hits[1..];
    }
  }

  predicate InBiasOrder(opts: SearchOptions, hits: seq<SearchHit>)
  {
    forall i, j :: 0 <= i < j < |hits| ==> Bias(opts, hits[i]) >= Bias(opts, hits[j])
  }

  // -------------------------------------------- whether TMDB's ranking survives

  function MoreBiased(opts: SearchOptions): (SearchHit, SearchHit) -> bool
  {
    (a, b) => Bias(opts, a) > Bias(opts, b)
  }

  // The hits of one bias, in their order.
  function Class(opts: SearchOptions, b: nat, hits: seq<SearchHit>): seq<SearchHit>
  {
    Filter((h: SearchHit) => Bias(opts, h) == b, hits)
  }

  // t holds the hits of each bias in the order they have in s.
  ghost predicate KeepsRanking(opts: SearchOptions, s: seq<SearchHit>, t: seq<SearchHit>)
  {
    forall b: nat :: Class(opts, b, t) == Class(opts, b, s)
  }

  // The stable sort is the one sorted arrangement that keeps the ranking.
  lemma StableIffRanking(opts: SearchOptions, hits: seq<SearchHit>, t: seq<SearchHit>)
    requires InBiasOrder(opts, t)
    ensures t == StableSort(MoreBiased(opts), hits) <==> KeepsRanking(opts, hits, t)
  {
    var before, s := MoreBiased(opts), StableSort(MoreBiased(opts), hits);
    assert StrictWeakOrder(before);
    StableSortSorted(before, hits);
    forall b: nat ensures Class(opts, b, s) == Class(opts, b, hits) {
      StableSortStable(before, (h: SearchHit) => Bias(opts, h) == b, hits);
    }
    if KeepsRanking(opts, hits, t) {
      forall x ensures Filter(Ties(before, x), s) == Filter(Ties(before, x), t) {
        TiesAreClass(opts, x, s);
        TiesAreClass(opts, x, t);
        assert Class(opts, Bias(opts, x), t) == Class(opts, Bias(opts, x), hits);
      }
      StableUnique(before, s, t);
    }
  }

  lemma {:induction false} TiesAreClass(opts: SearchOptions, x: SearchHit, hits: seq<SearchHit>)
    ensures Filter(Ties(MoreBiased(opts), x), hits) == Class(opts, Bias(opts, x), hits)
  {
    if hits != [] { TiesAreClass(opts, x, hits[1..]); }
  }

  // The hit that makes way for the best one lands behind a different hit of its bias.
  predicate Jumps(opts: SearchOptions, hits: seq<SearchHit>)
    requires hits != []
  {
    exists j :: 0 < j < BestHit(opts, hits) && Bias(opts, hits[j]) == Bias(opts, hits[0]) && hits[j] != hits[0]
  }

  lemma {:induction false} Rotate<T>(h: T, x: seq<T>)
    ensures [h] + x == x + [h] <==> forall i :: 0 <= i < |x| ==> x[i] == h
  {
    if x != [] {
      Rotate(h, x[1..]);
      if [h] + x == x + [h] {
        assert ([h] + x)[0] == h && (x + [h])[0] == x[0];
        assert [h] + x[1..] == ([h] + x)[1..] == (x + [h])[1..] == x[1..] + [h];
      }
    }
  }

  // One swap, bias by bias: everything between the two places is passed over.
  lemma SwapClasses(opts: SearchOptions, b: nat, first: SearchHit, mid: seq<SearchHit>, best: SearchHit, tail: seq<SearchHit>)
    ensures Class(opts, b, [first] + mid + [best] + tail) ==
            Class(opts, b, [first]) + Class(opts, b, mid) + Class(opts, b, [best]) + Class(opts, b, tail)
    ensures Class(opts, b, [best] + mid + [first] + tail) ==
            Class(opts, b, [best]) + Class(opts, b, mid) + Class(opts, b, [first]) + Class(opts, b, tail)
  {
    var keep := (h: SearchHit) => Bias(opts, h) == b;
    FilterSplit(keep, [first] + mid + [best], tail);
    FilterSplit(keep, [first] + mid, [best]);
    FilterSplit(keep, [first], mid);
    FilterSplit(keep, [best] + mid + [first], tail);
    FilterSplit(keep, [best] + mid, [first]);
    FilterSplit(keep, [best], mid);
  }

  lemma ClassOne(opts: SearchOptions, b: nat, h: SearchHit)
    ensures Class(opts, b, [h]) == if Bias(opts, h) == b then [h] else []
  {
    assert [h][1..] == [] && Class(opts, b, []) == [];
  }

  lemma ClassEmpty(opts: SearchOptions, b: nat, hits: seq<SearchHit>)
    requires forall i :: 0 <= i < |hits| ==> Bias(opts, hits[i]) != b
    ensures Class(opts, b, hits) == []
  {
    var keep := (h: SearchHit) => Bias(opts, h) == b;
    if Class(opts, b, hits) != [] { FilterMember(keep, hits, Class(opts, b, hits)[0]); }
  }

  lemma SwapParts(hits: seq<SearchHit>, best: nat)
    requires 0 < best < |hits|
    ensures hits == [hits[0]] + hits[1..best] + [hits[best]] + hits[best + 1..]
    ensures [hits[best]] + SwapOut(hits, best) == [hits[best]] + hits[1..best] + [hits[0]] + hits[best + 1..]
  {
  }

  lemma RotatedClass(opts: SearchOptions, b: nat, first: SearchHit, mid: seq<SearchHit>)
    ensures [first] + Class(opts, b, mid) == Class(opts, b, mid) + [first] <==>
            forall j :: 0 <= j < |mid| && Bias(opts, mid[j]) == b ==> mid[j] == first
  {
    var keep := (h: SearchHit) => Bias(opts, h) == b;
    var inner := Class(opts, b, mid);
    Rotate(first, inner);
    forall x ensures x in inner <==> x in mid && Bias(opts, x) == b { FilterMember(keep, mid, x); }
    forall i | 0 <= i < |inner| ensures exists j :: 0 <= j < |mid| && mid[j] == inner[i] && Bias(opts, mid[j]) == b {
      assert inner[i] in inner;
    }
    forall j | 0 <= j < |mid| && Bias(opts, mid[j]) == b ensures exists i :: 0 <= i < |inner| && inner[i] == mid[j] {
      assert mid[j] in inner;
    }
  }

  lemma Regroup<T>(a: seq<T>, m: seq<T>, c: seq<T>, t: seq<T>)
    ensures a == [] && (m == [] || c == []) ==> a + m + c + t == c + m + a + t
    ensures c == [] ==> (a + m + c + t == c + m + a + t <==> a + m == m + a)
  {
    if c == [] {
      assert a + m + c == a + m && c + m + a == m + a;
      if a + m + t == m + a + t { CancelRight(a + m, m + a, t); }
    }
  }

  // One swap, at the bias of the hit that makes way and at any other.
  lemma SwappedClass(opts: SearchOptions, b: nat, first: SearchHit, mid: seq<SearchHit>, best: SearchHit, tail: seq<SearchHit>)
    requires Bias(opts, first) < Bias(opts, best)
    requires forall i :: 0 <= i < |mid| ==> Bias(opts, mid[i]) < Bias(opts, best)
    ensures Class(opts, b, [first] + mid + [best] + tail) == Class(opts, b, [best] + mid + [first] + tail) <==>
            b != Bias(opts, first) || forall j :: 0 <= j < |mid| && Bias(opts, mid[j]) == b ==> mid[j] == first
  {
    var a, m, c, t := Class(opts, b, [first]), Class(opts, b, mid), Class(opts, b, [best]), Class(opts, b, tail);
    SwapClasses(opts, b, first, mid, best, tail);
    ClassOne(opts, b, first);
    ClassOne(opts, b, best);
    if b == Bias(opts, best) { ClassEmpty(opts, b, mid); }
    Regroup(a, m, c, t);
    if b == Bias(opts, first) { RotatedClass(opts, b, first, mid); }
  }

  lemma JumpsMeans(opts: SearchOptions, hits: seq<SearchHit>)
    requires hits != [] && BestHit(opts, hits) > 0
    ensures var mid := hits[1..BestHit(opts, hits)];
            !Jumps(opts, hits) <==> forall j :: 0 <= j < |mid| && Bias(opts, mid[j]) == Bias(opts, hits[0]) ==> mid[j] == hits[0]
  {
    var mid := hits[1..BestHit(opts, hits)];
    assert forall j :: 0 <= j < |mid| ==> mid[j] == hits[j + 1];
    assert forall j :: 0 < j < BestHit(opts, hits) ==> hits[j] == mid[j - 1];
  }

  lemma SwapKeepsClass(opts: SearchOptions, hits: seq<SearchHit>, b: nat)
    requires hits != [] && BestHit(opts, hits) > 0
    ensures var best := BestHit(opts, hits);
            Class(opts, b, [hits[best]] + SwapOut(hits, best)) == Class(opts, b, hits) <==>
            b != Bias(opts, hits[0]) || !Jumps(opts, hits)
  {
    var best := BestHit(opts, hits);
    BestHitIsFirst(opts, hits);
    JumpsMeans(opts, hits);
    SwapParts(hits, best);
    SwappedClass(opts, b, hits[0], hits[1..best], hits[best], hits[best + 1..]);
  }

  lemma CancelRight<T>(a: seq<T>, b: seq<T>, c: seq<T>)
    requires a + c == b + c
    ensures a == b
  {
    assert |a| == |b|;
    assert a == (a + c)[..|a|] && b == (b + c)[..|b|];
  }

  // Exactly: one swap keeps the ranking among hits of equal bias if and only if the
  // hit that makes way jumps over none of its own bias.
  lemma SwapExactly(opts: SearchOptions, hits: seq<SearchHit>)
    requires hits != []
    ensures var best := BestHit(opts, hits);
            KeepsRanking(opts, hits, [hits[best]] + SwapOut(hits, best)) <==> !Jumps(opts, hits)
  {
    var best := BestHit(opts, hits);
    if best == 0 {
      assert [hits[0]] + SwapOut(hits, 0) == hits;
    } else {
      SwapKeepsClass(opts, hits, Bias(opts, hits[0]));
      forall b: nat | b != Bias(opts, hits[0])
        ensures Class(opts, b, [hits[best]] + SwapOut(hits, best)) == Class(opts, b, hits)
      {
        SwapKeepsClass(opts, hits, b);
      }
    }
  }

  // No swap of the whole run jumps.
  predicate Calm(opts: SearchOptions, hits: seq<SearchHit>)
    decreases |hits|
  {
    |hits| <= 1 || (!Jumps(opts, hits) && Calm(opts, SwapOut(hits, BestHit(opts, hits))))
  }

  lemma RankingAhead(opts: SearchOptions, h: SearchHit, s: seq<SearchHit>, t: seq<SearchHit>)
    requires KeepsRanking(opts, s, t)
    ensures KeepsRanking(opts, [h] + s, [h] + t)
  {
    assert ([h] + s)[1..] == s && ([h] + t)[1..] == t;
    forall b: nat ensures Class(opts, b, [h] + t) == Class(opts, b, [h] + s) {
      assert Class(opts, b, t) == Class(opts, b, s);
    }
  }

  lemma {:induction false} CalmKeepsRanking(opts: SearchOptions, hits: seq<SearchHit>)
    requires Calm(opts, hits)
    ensures KeepsRanking(opts, hits, Biased(opts, hits))
    decreases |hits|
  {
    if |hits| > 1 {
      var best := BestHit(opts, hits);
      var rest := SwapOut(hits, best);
      CalmKeepsRanking(opts, rest);
      RankingAhead(opts, hits[best], rest, Biased(opts, rest));
      SwapExactly(opts, hits);
      forall b: nat ensures Class(opts, b, Biased(opts, hits)) == Class(opts, b, hits) {
        assert Class(opts, b, [hits[best]] + rest) == Class(opts, b, hits);
        assert Class(opts, b, [hits[best]] + Biased(opts, rest)) == Class(opts, b, [hits[best]] + rest);
      }
    }
  }

  // A run without jumps is the stable sort that the comment promises.
  lemma CalmIsStable(opts: SearchOptions, hits: seq<SearchHit>)
    requires Calm(opts, hits)
    ensures Biased(opts, hits) == StableSort(MoreBiased(opts), hits)
  {
    CalmKeepsRanking(opts, hits);
    BiasedSorts(opts, hits);
    StableIffRanking(opts, hits, Biased(opts, hits));
  }

  // When the first swap is the only one, that is also necessary.
  lemma OneSwapExactly(opts: SearchOptions, hits: seq<SearchHit>)
    requires |hits| > 1 && InBiasOrder(opts, SwapOut(hits, BestHit(opts, hits)))
    ensures Biased(opts, hits) == StableSort(MoreBiased(opts), hits) <==> !Jumps(opts, hits)
  {
    var best := BestHit(opts, hits);
    BiasKeepsSorted(opts, SwapOut(hits, best));
    BiasedSorts(opts, hits);
    StableIffRanking(opts, hits, Biased(opts, hits));
    SwapExactly(opts, hits);
  }

  lemma BiasedStep(opts: SearchOptions, hits: seq<SearchHit>, best: nat, rest: seq<SearchHit>)
    requires |hits| > 1 && best < |hits| && SwapOut(hits, best) == rest
    requires forall i :: 0 <= i < |hits| && i != best ==> Bias(opts, hits[i]) < Bias(opts, hits[best])
    ensures BestHit(opts, hits) == best && Biased(opts, hits) == [hits[best]] + Biased(opts, rest)
  {
    BestHitIsFirst(opts, hits);
  }

  lemma CancellingSwaps(opts: SearchOptions, a: SearchHit, b: SearchHit, x: SearchHit, y: SearchHit)
    requires Bias(opts, a) == Bias(opts, b) < Bias(opts, y) < Bias(opts, x)
    ensures BestHit(opts, [a, b, x, y]) == 2
    ensures Biased(opts, [a, b, x, y]) == [x] + ([y] + [a, b])
  {
    assert SwapOut([a, b, x, y], 2) == [b, a, y];
    BiasedStep(opts, [a, b, x, y], 2, [b, a, y]);
    assert SwapOut([b, a, y], 2) == [a, b];
    BiasedStep(opts, [b, a, y], 2, [a, b]);
    BiasKeepsSorted(opts, [a, b]);
  }

  // With more swaps it is not: a second jump can undo the first. Here a and b trade
  // places twice, and the result is the stable sort although the run is not calm.
  lemma JumpsCanCancel(opts: SearchOptions, a: SearchHit, b: SearchHit, x: SearchHit, y: SearchHit)
    requires a != b && Bias(opts, a) == Bias(opts, b) < Bias(opts, y) < Bias(opts, x)
    ensures !Calm(opts, [a, b, x, y])
    ensures Biased(opts, [a, b, x, y]) == StableSort(MoreBiased(opts), [a, b, x, y])
  {
    var hits := [a, b, x, y];
    CancellingSwaps(opts, a, b, x, y);
    assert hits[1] == b && Jumps(opts, hits);
    BiasedSorts(opts, hits);
    CancelledRanking(opts, a, b, x, y);
    StableIffRanking(opts, hits, Biased(opts, hits));
  }

  lemma CancelledRanking(opts: SearchOptions, a: SearchHit, b: SearchHit, x: SearchHit, y: SearchHit)
    requires Bias(opts, a) == Bias(opts, b) < Bias(opts, y) < Bias(opts, x)
    ensures KeepsRanking(opts, [a, b, x, y], [x] + ([y] + [a, b]))
  {
    var s, t := [a, b], [x, y];
    assert s + t == [a, b, x, y] && t + s == [x] + ([y] + [a, b]);
    forall c: nat ensures Class(opts, c, t + s) == Class(opts, c, s + t) {
      var keep := (h: SearchHit) => Bias(opts, h) == c;
      FilterSplit(keep, s, t);
      FilterSplit(keep, t, s);
      if c == Bias(opts, a) { ClassEmpty(opts, c, t); } else { ClassEmpty(opts, c, s); }
    }
  }
}
