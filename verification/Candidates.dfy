// What resolvers emit and how a Tier-1 candidate is validated against the
// metadata provider. Confidences are real numbers in 0..1.
module Candidates {
  import opened Collecting
  import opened Options
  import M = Metadata

  datatype Ref = Ref(source: M.Source, id: string)

  datatype Episode = Episode(season: int, number: int)

  datatype Candidate = Candidate(ref: Ref, title: string, year: int, kind: string, poster: string,
                                 episode: Option<Episode>, edition: Option<string>, confidence: real)

  const VALID_MULTIPLIER := 0.99
  const REDIRECT_MULTIPLIER := 0.95

  // LookupByID of whichever provider is plugged in.
  type Provider = (M.Source, string) -> M.Lookup

  function KindName(kind: M.EntityType): string
  {
    match kind case Movie => "movie" case Series => "series"
  }

  // A dead ID drops its candidate; an upstream failure keeps it at face value,
  // without an item.
  datatype Checked = Dropped | Kept(candidate: Candidate, item: Option<M.Item>)

  function Check(provider: Provider, c: Candidate): Checked
  {
    match provider(c.ref.source, c.ref.id)
    case Error(_) => Kept(c, None)
    case Absent => Dropped
    case Hit(item) =>
      var shown := c.(title := item.title, year := item.year, kind := KindName(item.kind));
      if item.source != M.Unset && item.source != c.ref.source then
        Kept(shown.(ref := Ref(item.source, item.externalId), confidence := c.confidence * VALID_MULTIPLIER), Some(item))
      else if item.redirected then
        Kept(shown.(ref := Ref(c.ref.source, item.externalId), confidence := c.confidence * REDIRECT_MULTIPLIER), Some(item))
      else
        Kept(shown.(confidence := c.confidence * VALID_MULTIPLIER), Some(item))
  }

  function Survivor(checked: Checked): seq<Candidate>
  {
    if checked.Dropped? then [] else [checked.candidate]
  }

  function Survivors(provider: Provider, cands: seq<Candidate>): seq<Candidate>
  {
    if cands == [] then []
    else Survivors(provider, cands[..|cands| - 1]) + Survivor(Check(provider, cands[|cands| - 1]))
  }

  function File(items: map<Ref, M.Item>, checked: Checked): map<Ref, M.Item>
  {
    if checked.Kept? && checked.item.Some? then items[checked.candidate.ref := checked.item.value] else items
  }

  // The validated records by rewritten reference; a later candidate's record wins.
  function Items(provider: Provider, cands: seq<Candidate>): map<Ref, M.Item>
  {
    if cands == [] then map[]
    else
      File(Items(provider, cands[..|cands| - 1]), Check(provider, cands[|cands| - 1]))
  }

  // The rewrites that validation puts on record.
  datatype Rewrite = Redirect(fromId: string, toId: string) | CrossProvider(from: Ref, to: Ref)

  function RewriteOf(from: Ref, checked: Checked): seq<Rewrite>
  {
    match checked
    case Kept(kept, Some(item)) =>
      if item.source != M.Unset && item.source != from.source then [CrossProvider(from, kept.ref)]
      else if item.redirected then [Redirect(from.id, kept.ref.id)]
      else []
    case _ => []
  }

  function Rewrites(provider: Provider, cands: seq<Candidate>): seq<Rewrite>
  {
    if cands == [] then []
    else
      var c := cands[|cands| - 1];
      Rewrites(provider, cands[..|cands| - 1]) + RewriteOf(c.ref, Check(provider, c))
  }

  // One turn of the validation loop.
  method CheckCandidate(provider: Provider, candidate: Candidate) returns (checked: Checked, rewrite: seq<Rewrite>)
    ensures checked == Check(provider, candidate) && rewrite == RewriteOf(candidate.ref, checked)
  {
    var c := candidate;
    rewrite := [];
    var lookup := provider(c.ref.source, c.ref.id);
    if lookup.Error? { return Kept(c, None), []; }
    if lookup.Absent? { return Dropped, []; }
    var item := lookup.item;
    var origRef := c.ref;
    if item.source != M.Unset && item.source != c.ref.source {
      c := c.(ref := Ref(item.source, item.externalId), confidence := c.confidence * VALID_MULTIPLIER);
      rewrite := [CrossProvider(origRef, c.ref)];
    } else if item.redirected {
      c := c.(ref := c.ref.(id := item.externalId), confidence := c.confidence * REDIRECT_MULTIPLIER);
      rewrite := [Redirect(origRef.id, c.ref.id)];
    } else {
      c := c.(confidence := c.confidence * VALID_MULTIPLIER);
    }
    c := c.(title := item.title, year := item.year, kind := KindName(item.kind));
    checked := Kept(c, Some(item));
  }

  // validateAgainstProvider; a nil provider passes candidates through unchanged.
  method ValidateAgainstProvider(provider: Option<Provider>, cands: seq<Candidate>)
    returns (kept: seq<Candidate>, items: map<Ref, M.Item>, rewrites: seq<Rewrite>)
    ensures provider.None? ==> kept == cands && items == map[] && rewrites == []
    ensures provider.Some? ==> kept == Survivors(provider.value, cands) && items == Items(provider.value, cands)
                               && rewrites == Rewrites(provider.value, cands)
  {
    items, rewrites := map[], [];
    if provider.None? { return cands, items, rewrites; }
    kept := [];
    for i := 0 to |cands|
      invariant kept == Survivors(provider.value, cands[..i])
      invariant items == Items(provider.value, cands[..i])
      invariant rewrites == Rewrites(provider.value, cands[..i])
    {
      assert cands[..i + 1][..i] == cands[..i];
      var checked, rewrite := CheckCandidate(provider.value, cands[i]);
      rewrites := rewrites + rewrite;
      if checked.Dropped? { continue; }
      kept := kept + [checked.candidate];
      if checked.item.Some? { items := items[checked.candidate.ref := checked.item.value]; }
    }
    assert cands[..|cands|] == cands;
  }

  // ------------------------------------------------- what validation does

  // Whether the record found lives in another namespace than the candidate.
  predicate Crosses(c: Candidate, item: M.Item) { item.source != M.Unset && item.source != c.ref.source }

  // A candidate without a record is dropped, one that could not be looked up is left as
  // it is; any other shows the record's title, year and type, keeps its own poster,
  // episode and edition, takes the record's ID when that is another one, and loses five
  // percent of its confidence to a redirect and one percent otherwise.
  lemma CheckExactly(provider: Provider, c: Candidate)
    ensures var lookup, checked := provider(c.ref.source, c.ref.id), Check(provider, c);
            && (checked.Dropped? <==> lookup.Absent?)
            && (lookup.Error? ==> checked == Kept(c, None))
            && (lookup.Hit? ==>
                  && checked.Kept? && checked.item == Some(lookup.item)
                  && Shows(checked.candidate, lookup.item)
                  && checked.candidate.poster == c.poster && checked.candidate.episode == c.episode
                  && checked.candidate.edition == c.edition
                  && checked.candidate.ref.source == (if Crosses(c, lookup.item) then lookup.item.source else c.ref.source)
                  && checked.candidate.ref.id ==
                     (if Crosses(c, lookup.item) || lookup.item.redirected then lookup.item.externalId else c.ref.id)
                  && checked.candidate.confidence ==
                     c.confidence * (if lookup.item.redirected && !Crosses(c, lookup.item) then 0.95 else 0.99))
  {
  }

  // Whatever the provider, a rewrite is logged for a candidate that was kept with a
  // record of another namespace or a redirected one, and names both ends of it.
  lemma RewriteExactly(provider: Provider, c: Candidate)
    ensures var lookup, checked := provider(c.ref.source, c.ref.id), Check(provider, c);
            var log := RewriteOf(c.ref, checked);
            && (lookup.Hit? && Crosses(c, lookup.item) ==> log == [CrossProvider(c.ref, checked.candidate.ref)])
            && (lookup.Hit? && !Crosses(c, lookup.item) && lookup.item.redirected ==>
                  log == [Redirect(c.ref.id, checked.candidate.ref.id)])
            && (!lookup.Hit? || (!Crosses(c, lookup.item) && !lookup.item.redirected) ==> log == [])
  {
  }

  predicate Shows(c: Candidate, item: M.Item)
  {
    && c.title == item.title && c.year == item.year
    && (item.kind == M.Movie ==> c.kind == "movie") && (item.kind == M.Series ==> c.kind == "series")
  }

  lemma SurvivorsSnoc(provider: Provider, a: seq<Candidate>, c: Candidate)
    ensures Survivors(provider, a + [c]) == Survivors(provider, a) + Survivor(Check(provider, c))
    ensures Rewrites(provider, a + [c]) == Rewrites(provider, a) + RewriteOf(c.ref, Check(provider, c))
  {
    assert (a + [c])[..|a|] == a;
  }

  lemma {:induction false} SurvivorsSplit(provider: Provider, a: seq<Candidate>, b: seq<Candidate>)
    ensures Survivors(provider, a + b) == Survivors(provider, a) + Survivors(provider, b)
    ensures Rewrites(provider, a + b) == Rewrites(provider, a) + Rewrites(provider, b)
  {
    if b == [] {
      assert a + b == a;
    } else {
      var n := |b| - 1;
      var front, c := b[..n], b[n];
      SurvivorsSplit(provider, a, front);
      assert b == front + [c];
      Associate(a, front, [c]);
      SurvivorsSnoc(provider, a + front, c);
      SurvivorsSnoc(provider, front, c);
      Associate(Survivors(provider, a), Survivors(provider, front), Survivor(Check(provider, c)));
      Associate(Rewrites(provider, a), Rewrites(provider, front), RewriteOf(c.ref, Check(provider, c)));
    }
  }

  // Validation treats every candidate on its own, in order: what precedes and follows
  // one has no influence on what becomes of it.
  lemma ValidatedOneByOne(provider: Provider, a: seq<Candidate>, c: Candidate, b: seq<Candidate>)
    ensures var checked := Check(provider, c);
            && Survivors(provider, a + [c] + b) ==
               Survivors(provider, a) + (if checked.Kept? then [checked.candidate] else []) + Survivors(provider, b)
            && Rewrites(provider, a + [c] + b) == Rewrites(provider, a) + RewriteOf(c.ref, checked) + Rewrites(provider, b)
    ensures Survivors(provider, []) == [] && Rewrites(provider, []) == []
  {
    SurvivorsSplit(provider, a + [c], b);
    SurvivorsSplit(provider, a, [c]);
    assert [c][..0] == [];
  }

  lemma {:induction false} SurvivorsExactly(provider: Provider, cands: seq<Candidate>, s: Candidate)
    ensures s in Survivors(provider, cands) <==>
            exists c :: c in cands && Check(provider, c).Kept? && Check(provider, c).candidate == s
  {
    if cands != [] {
      var n := |cands| - 1;
      assert cands == cands[..n] + [cands[n]];
      SurvivorsExactly(provider, cands[..n], s);
    }
  }

  lemma ItemsSnoc(provider: Provider, cands: seq<Candidate>, ref: Ref)
    requires cands != []
    ensures var c, earlier, items := cands[|cands| - 1], Items(provider, cands[..|cands| - 1]), Items(provider, cands);
            if Files(provider, c, ref) then ref in items && items[ref] == Check(provider, c).item.value
            else (ref in items <==> ref in earlier) && (ref in items ==> items[ref] == earlier[ref])
  {
  }

  // A record is on file exactly for the references of candidates that were kept with one.
  lemma {:induction false} ItemsExactly(provider: Provider, cands: seq<Candidate>, ref: Ref)
    ensures ref in Items(provider, cands) <==> exists c :: c in cands && Files(provider, c, ref)
  {
    if cands != [] {
      var n := |cands| - 1;
      assert cands == cands[..n] + [cands[n]];
      ItemsSnoc(provider, cands, ref);
      ItemsExactly(provider, cands[..n], ref);
    }
  }

  // Of several candidates that file a record under one reference the last one's stays.
  lemma {:induction false} LastRecordStays(provider: Provider, cands: seq<Candidate>, k: int, ref: Ref)
    requires LastToFile(provider, cands, k, ref)
    ensures ref in Items(provider, cands) && Items(provider, cands)[ref] == Check(provider, cands[k]).item.value
  {
    var n := |cands| - 1;
    ItemsSnoc(provider, cands, ref);
    if k < n {
      assert forall j :: 0 <= j < n ==> cands[..n][j] == cands[j];
      LastRecordStays(provider, cands[..n], k, ref);
    }
  }

  predicate LastToFile(provider: Provider, cands: seq<Candidate>, k: int, ref: Ref)
  {
    && 0 <= k < |cands| && Files(provider, cands[k], ref)
    && forall j :: k < j < |cands| ==> !Files(provider, cands[j], ref)
  }

  predicate Files(provider: Provider, c: Candidate, ref: Ref)
  {
    Check(provider, c).Kept? && Check(provider, c).item.Some? && Check(provider, c).candidate.ref == ref
  }

  // -------------------------------------------------------- what it guarantees

  predicate SameIdentity(ref: Ref, item: M.Item)
  {
    ref.source == item.source && ref.id == item.externalId
  }

  predicate HonestProvider(provider: Provider, cands: seq<Candidate>)
  {
    forall c :: c in cands ==> M.Honest(c.ref.source, c.ref.id, provider(c.ref.source, c.ref.id))
  }

  lemma CheckKeepsIdentity(provider: Provider, c: Candidate)
    requires M.Honest(c.ref.source, c.ref.id, provider(c.ref.source, c.ref.id))
    ensures Check(provider, c).Kept? && Check(provider, c).item.Some? ==>
              SameIdentity(Check(provider, c).candidate.ref, Check(provider, c).item.value)
  {
  }

  // Every validated record is filed under its own identity, across plain,
  // redirected and cross-provider lookups.
  lemma {:induction false} ItemsKeepIdentity(provider: Provider, cands: seq<Candidate>)
    requires HonestProvider(provider, cands)
    ensures forall ref :: ref in Items(provider, cands) ==> SameIdentity(ref, Items(provider, cands)[ref])
  {
    if cands != [] {
      var n := |cands| - 1;
      ItemsKeepIdentity(provider, cands[..n]);
      CheckKeepsIdentity(provider, cands[n]);
    }
  }

  // The TMDB adapter is honest for every list of candidates.
  lemma TmdbProviderIsHonest(client: Option<M.Client>, cands: seq<Candidate>)
    ensures HonestProvider((source, id) => M.LookupById(client, source, id), cands)
  {
    forall c | c in cands ensures M.Honest(c.ref.source, c.ref.id, M.LookupById(client, c.ref.source, c.ref.id)) {
      M.LookupIsHonest(client, c.ref.source, c.ref.id);
    }
  }

  // Behind the TMDB adapter the audit log is complete and to the point: a candidate
  // has an entry exactly when its reference changed, naming what it was and became;
  // one that was kept without a record is untouched.
  lemma RewritesRecordChanges(client: Option<M.Client>, c: Candidate)
    ensures var checked := Check((source, id) => M.LookupById(client, source, id), c);
            var log := RewriteOf(c.ref, checked);
            && |log| <= 1
            && (log != [] <==> checked.Kept? && checked.candidate.ref != c.ref)
            && (checked.Kept? && checked.item.None? ==> checked.candidate == c)
            && (log != [] && log[0].CrossProvider? ==> log[0].from == c.ref && log[0].to == checked.candidate.ref)
            && (log != [] && log[0].Redirect? ==>
                  c.ref == Ref(checked.candidate.ref.source, log[0].fromId) && checked.candidate.ref.id == log[0].toId)
  {
    M.LookupIsHonest(client, c.ref.source, c.ref.id);
  }

  // Validation never raises a non-negative confidence, and never lowers it by
  // more than the redirect multiplier.
  lemma CheckNeverRaises(provider: Provider, c: Candidate)
    requires c.confidence >= 0.0
    ensures var checked := Check(provider, c);
            checked.Kept? ==>
              REDIRECT_MULTIPLIER * c.confidence <= checked.candidate.confidence <= c.confidence
  {
  }

  // Every survivor stems from a candidate at least as confident as itself.
  lemma {:induction false} ValidationNeverRaises(provider: Provider, cands: seq<Candidate>, s: Candidate)
    returns (c: Candidate)
    requires s in Survivors(provider, cands)
    ensures c in cands && Survivor(Check(provider, c)) == [s]
    ensures c.confidence >= 0.0 ==> 0.0 <= s.confidence <= c.confidence
  {
    var n := |cands| - 1;
    c := cands[n];
    if s in Survivors(provider, cands[..n]) {
      c := ValidationNeverRaises(provider, cands[..n], s);
    }
    if c.confidence >= 0.0 { CheckNeverRaises(provider, c); }
  }
}
