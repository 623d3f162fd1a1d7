// What a match decision considers, and what it reports of it: the tiered pipeline,
// read off the resolvers' turns and the provider's answers.
module Pipeline {
  import opened Aggregator
  import opened Candidates
  import opened Collecting
  import opened Merging
  import opened Options
  import E = Evidence
  import M = Metadata

  // ---------------------------------------------------------------- one tier

  // The resolver belongs to the tier, was available, did not fail and emitted c.
  predicate Emits(r: Resolver, tier: Tier, c: Candidate)
  {
    r.tier == tier && r.available && r.result.Some? && c in r.result.value.candidates
  }

  predicate Found(resolvers: seq<Resolver>, tier: Tier, c: Candidate)
  {
    exists r :: r in resolvers && Emits(r, tier, c)
  }

  // A tier's candidates and audits are those of its resolvers, one after the other.
  lemma TierOneByOne(a: seq<Resolver>, r: Resolver, b: seq<Resolver>, tier: Tier)
    ensures TierCandidates([], tier) == [] && TierAudits([], tier) == []
    ensures TierCandidates(a + [r] + b, tier) ==
            TierCandidates(a, tier)
            + (if r.tier == tier && r.available && r.result.Some? then r.result.value.candidates else [])
            + TierCandidates(b, tier)
    ensures TierAudits(a + [r] + b, tier) ==
            TierAudits(a, tier)
            + (if r.tier == tier && r.available && r.result.Some?
               then [Audit(r.name, r.tier, |r.result.value.candidates|, TopOf(r.result.value.candidates))] else [])
            + TierAudits(b, tier)
  {
    var emitted := (r: Resolver) => if Runs(r, tier) then r.result.value.candidates else [];
    var audited := (r: Resolver) => if Runs(r, tier) then [AuditOf(r)] else [];
    FlatMapAround(emitted, a, r, b);
    FlatMapAround(audited, a, r, b);
  }

  lemma FlatMapAround<A, B>(f: A -> seq<B>, a: seq<A>, x: A, b: seq<A>)
    ensures FlatMap(f, a + [x] + b) == FlatMap(f, a) + f(x) + FlatMap(f, b)
  {
    FlatMapSplit(f, a + [x], b);
    FlatMapSplit(f, a, [x]);
    assert [x][1..] == [];
    assert FlatMap(f, [x]) == f(x) + [] == f(x);
  }

  lemma {:induction false} FoundExactly(resolvers: seq<Resolver>, tier: Tier, c: Candidate)
    ensures c in TierCandidates(resolvers, tier) <==> Found(resolvers, tier, c)
  {
    if resolvers != [] {
      var r, rest := resolvers[0], resolvers[1..];
      assert resolvers == [r] + rest && [] + [r] + rest == resolvers;
      TierOneByOne([], r, rest, tier);
      FoundExactly(rest, tier, c);
      assert c in TierCandidates(resolvers, tier) <==> Emits(r, tier, c) || c in TierCandidates(rest, tier);
    }
  }

  // ------------------------------------------------------------ what is considered

  // s is what validation makes of a Tier-1 candidate.
  ghost predicate Validated(provider: Option<Provider>, resolvers: seq<Resolver>, s: Candidate)
  {
    exists c :: Found(resolvers, Tier1, c) && BecomesOf(provider, c, s)
  }

  predicate BecomesOf(provider: Option<Provider>, c: Candidate, s: Candidate)
  {
    if provider.None? then s == c else Check(provider.value, c).Kept? && Check(provider.value, c).candidate == s
  }

  // Tier 1 alone settles the matter when one of its candidates is in clear lead.
  ghost predicate Settles(t: Thresholds, provider: Option<Provider>, resolvers: seq<Resolver>)
  {
    HasLead(ValidTier1(provider, resolvers), t.auto)
  }

  // The lower tiers count unless it does.
  ghost predicate Considered(t: Thresholds, provider: Option<Provider>, resolvers: seq<Resolver>, c: Candidate)
  {
    || Validated(provider, resolvers, c)
    || (!Settles(t, provider, resolvers) && (Found(resolvers, Tier2, c) || Found(resolvers, Tier3, c)))
  }

  lemma ValidatedExactly(provider: Option<Provider>, resolvers: seq<Resolver>, s: Candidate)
    ensures s in ValidTier1(provider, resolvers) <==> Validated(provider, resolvers, s)
  {
    var found := TierCandidates(resolvers, Tier1);
    forall c ensures c in found <==> Found(resolvers, Tier1, c) { FoundExactly(resolvers, Tier1, c); }
    if provider.Some? {
      SurvivorsExactly(provider.value, found, s);
      if s in Survivors(provider.value, found) {
        var c :| c in found && Check(provider.value, c).Kept? && Check(provider.value, c).candidate == s;
        assert Found(resolvers, Tier1, c) && BecomesOf(provider, c, s);
      }
    } else if s in found {
      assert Found(resolvers, Tier1, s) && BecomesOf(provider, s, s);
    }
  }

  // Everything that the consulted tiers bring, in the order in which they bring it.
  ghost function Brought(t: Thresholds, provider: Option<Provider>, resolvers: seq<Resolver>): seq<Candidate>
  {
    ValidTier1(provider, resolvers)
    + if Settles(t, provider, resolvers) then [] else TierCandidates(resolvers, Tier2) + TierCandidates(resolvers, Tier3)
  }

  lemma BroughtExactly(t: Thresholds, provider: Option<Provider>, resolvers: seq<Resolver>, c: Candidate)
    ensures c in Brought(t, provider, resolvers) <==> Considered(t, provider, resolvers, c)
  {
    ValidatedExactly(provider, resolvers, c);
    FoundExactly(resolvers, Tier2, c);
    FoundExactly(resolvers, Tier3, c);
  }

  // What an identity is worth in the end: as it stands when Tier 1 settles the matter,
  // merged over all tiers otherwise.
  ghost predicate Worth(t: Thresholds, file: File, provider: Option<Provider>, resolvers: seq<Resolver>, c: Candidate,
                        worth: real)
  {
    if Settles(t, provider, resolvers) then worth == c.confidence
    else ConfidenceOf(Brought(t, provider, resolvers), file.hintYear, c.ref) == Some(worth)
  }

  // The items on file are those of Tier 1.
  function ItemsOf(provider: Option<Provider>, resolvers: seq<Resolver>): map<Ref, M.Item>
  {
    if provider.Some? then Items(provider.value, TierCandidates(resolvers, Tier1)) else map[]
  }

  // The candidates that are banded.
  ghost function Banded(t: Thresholds, file: File, provider: Option<Provider>, resolvers: seq<Resolver>): seq<Candidate>
  {
    var all := Brought(t, provider, resolvers);
    if Settles(t, provider, resolvers) then all else Merge(all, file.hintYear)
  }

  lemma AggregatedBands(t: Thresholds, file: File, provider: Option<Provider>, resolvers: seq<Resolver>)
    ensures Aggregated(t, file, provider, resolvers) ==
            RecordOf(t, file, Banded(t, file, provider, resolvers), ItemsOf(provider, resolvers))
  {
    var tier1 := ValidTier1(provider, resolvers);
    DominantExactly(tier1, t.auto);
    if Settles(t, provider, resolvers) {
      assert Brought(t, provider, resolvers) == tier1;
    } else {
      Associate(tier1, TierCandidates(resolvers, Tier2), TierCandidates(resolvers, Tier3));
    }
  }

  // Of the banded candidates each stands for a considered one of its identity and worth,
  // and every considered one is stood for.
  lemma BandedFromBrought(t: Thresholds, file: File, provider: Option<Provider>, resolvers: seq<Resolver>, b: Candidate)
    returns (c: Candidate)
    requires b in Banded(t, file, provider, resolvers)
    ensures c in Brought(t, provider, resolvers) && c.ref == b.ref && Worth(t, file, provider, resolvers, c, b.confidence)
  {
    c := b;
    if !Settles(t, provider, resolvers) {
      var all := Brought(t, provider, resolvers);
      MergedIdentities(all, file.hintYear);
      var i :| 0 <= i < |Merge(all, file.hintYear)| && Merge(all, file.hintYear)[i] == b;
      assert Refs(all)[i] in Refs(all);
      c :| c in all && c.ref == Refs(all)[i];
      RefsHaveGroups(all);
    }
  }

  lemma BroughtIsBanded(t: Thresholds, file: File, provider: Option<Provider>, resolvers: seq<Resolver>, c: Candidate)
    returns (b: Candidate)
    requires c in Brought(t, provider, resolvers)
    ensures b in Banded(t, file, provider, resolvers) && b.ref == c.ref && Worth(t, file, provider, resolvers, c, b.confidence)
  {
    b := c;
    if !Settles(t, provider, resolvers) {
      var all := Brought(t, provider, resolvers);
      MergedIdentities(all, file.hintYear);
      assert c.ref in Refs(all);
      var i :| 0 <= i < |Refs(all)| && Refs(all)[i] == c.ref;
      RefsHaveGroups(all);
      b := Merge(all, file.hintYear)[i];
    }
  }

  lemma AllConsidered(t: Thresholds, provider: Option<Provider>, resolvers: seq<Resolver>)
    ensures forall c :: c in Brought(t, provider, resolvers) <==> Considered(t, provider, resolvers, c)
  {
    forall c ensures c in Brought(t, provider, resolvers) <==> Considered(t, provider, resolvers, c) {
      BroughtExactly(t, provider, resolvers, c);
    }
  }

  lemma NothingBanded(t: Thresholds, file: File, provider: Option<Provider>, resolvers: seq<Resolver>)
    ensures Banded(t, file, provider, resolvers) == [] <==> Brought(t, provider, resolvers) == []
  {
    var brought, banded := Brought(t, provider, resolvers), Banded(t, file, provider, resolvers);
    if brought != [] { var b := BroughtIsBanded(t, file, provider, resolvers, brought[0]); }
    if banded != [] { var c := BandedFromBrought(t, file, provider, resolvers, banded[0]); }
  }

  // The record is about what was considered and nothing else. There is no match exactly
  // when nothing was.
  lemma NoMatchExactly(t: Thresholds, file: File, provider: Option<Provider>, resolvers: seq<Resolver>)
    ensures Aggregated(t, file, provider, resolvers).outcome == NoMatch <==> forall c :: !Considered(t, provider, resolvers, c)
  {
    AggregatedBands(t, file, provider, resolvers);
    NothingBanded(t, file, provider, resolvers);
    AllConsidered(t, provider, resolvers);
    var brought := Brought(t, provider, resolvers);
    if brought != [] { assert Considered(t, provider, resolvers, brought[0]); }
  }

  // No considered identity is worth more than the confidence the record reports.
  lemma RecordBounds(t: Thresholds, file: File, provider: Option<Provider>, resolvers: seq<Resolver>, c: Candidate, worth: real)
    requires Considered(t, provider, resolvers, c) && Worth(t, file, provider, resolvers, c, worth)
    ensures worth <= Aggregated(t, file, provider, resolvers).confidence
  {
    AggregatedBands(t, file, provider, resolvers);
    BroughtExactly(t, provider, resolvers, c);
    var b := BroughtIsBanded(t, file, provider, resolvers, c);
    BestIsMaximum(t, file, Banded(t, file, provider, resolvers), ItemsOf(provider, resolvers));
  }

  // Some one is worth just that, and is the choice if there is one.
  lemma RecordAttains(t: Thresholds, file: File, provider: Option<Provider>, resolvers: seq<Resolver>) returns (c: Candidate)
    requires Aggregated(t, file, provider, resolvers).outcome != NoMatch
    ensures var rec := Aggregated(t, file, provider, resolvers);
            && Considered(t, provider, resolvers, c) && Worth(t, file, provider, resolvers, c, rec.confidence)
            && (rec.chosenRef.Some? ==> rec.chosenRef == Some(c.ref))
  {
    var rec, banded := Aggregated(t, file, provider, resolvers), Banded(t, file, provider, resolvers);
    AggregatedBands(t, file, provider, resolvers);
    BestIsMaximum(t, file, banded, ItemsOf(provider, resolvers));
    var b :| b in banded && b.confidence == rec.confidence && (rec.chosenRef.Some? ==> rec.chosenRef == Some(b.ref));
    c := BandedFromBrought(t, file, provider, resolvers, b);
    BroughtExactly(t, provider, resolvers, c);
  }

  // In plain numbers: what is merged is worth at least its own confidence up to 0.99,
  // and with a year hint at least nine tenths of that.
  lemma WorthAtLeast(t: Thresholds, file: File, provider: Option<Provider>, resolvers: seq<Resolver>, c: Candidate)
    requires Considered(t, provider, resolvers, c) && c.confidence >= 0.0
    ensures var least := if c.confidence > 0.99 then 0.99 else c.confidence;
            Aggregated(t, file, provider, resolvers).confidence >= if file.hintYear == 0 then least else 0.9 * least
  {
    BroughtExactly(t, provider, resolvers, c);
    var b := BroughtIsBanded(t, file, provider, resolvers, c);
    RecordBounds(t, file, provider, resolvers, c, b.confidence);
    if !Settles(t, provider, resolvers) {
      var all := Brought(t, provider, resolvers);
      GroupMember(all, c.ref, c);
      GroupWorth(Group(all, c.ref), file.hintYear, c);
    }
  }

  lemma GroupWorth(g: seq<Candidate>, hintYear: int, c: Candidate)
    requires c in g && c.confidence >= 0.0
    ensures var least := if c.confidence > 0.99 then 0.99 else c.confidence;
            Combine(g, hintYear).confidence >= if hintYear == 0 then least else 0.9 * least
  {
    MaxConfidenceIsMax(g);
    var bonus := CORROBORATION_STEP * (|g| - 1) as real;
    assert bonus >= 0.0;
  }

  // ------------------------------------------------------------ what is reported

  // A record that chooses reports the first of the most confident candidates, with its
  // episode, edition and the item on file for it; one that does not reports none of
  // them. A series-shaped file whose best candidate has no episode is always chosen for.
  lemma ChoiceFields(t: Thresholds, file: File, cands: seq<Candidate>, items: map<Ref, M.Item>)
    requires cands != []
    ensures var rec, best := RecordOf(t, file, cands, items), cands[FirstBest(cands)];
            && rec.confidence == best.confidence
            && (rec.outcome == PartialSeries <==> best.episode.None? && file.looksLikeSeries)
            && (rec.outcome in {Confident, ConfidentReview, LowConfidence, PartialSeries} ==>
                  && rec.chosenRef == Some(best.ref) && rec.chosenEpisode == best.episode && rec.chosenEdition == best.edition
                  && (best.ref in items ==> rec.chosenItem == Some(items[best.ref]))
                  && (best.ref !in items ==> rec.chosenItem == None))
            && (rec.outcome == Ambiguous ==>
                  rec.chosenRef == None && rec.chosenEpisode == None && rec.chosenEdition == None && rec.chosenItem == None)
            && rec.outcome != NoMatch
  {
    LeaderIsFirstBest(cands);
  }

  // Without candidates there is nothing to report.
  lemma NothingReported(t: Thresholds, file: File, items: map<Ref, M.Item>)
    ensures var rec := RecordOf(t, file, [], items);
            && rec.outcome == NoMatch && rec.confidence == 0.0 && rec.ranked == []
            && rec.chosenRef == None && rec.chosenEpisode == None && rec.chosenEdition == None && rec.chosenItem == None
  {
  }

  // A suggestion shows what its candidate does, and the item on file for it.
  lemma SuggestionFields(t: Thresholds, file: File, cands: seq<Candidate>, items: map<Ref, M.Item>, i: nat)
    requires i < |RecordOf(t, file, cands, items).ranked|
    ensures exists c :: c in cands && Suggests(RecordOf(t, file, cands, items).ranked[i], c, items)
  {
    FallbackLosesKind(t, file, cands, items, i);
    ByConfidenceSorts(cands);
    var c := ByConfidence(cands)[i];
    assert c in multiset(ByConfidence(cands));
    assert Suggests(RecordOf(t, file, cands, items).ranked[i], c, items);
  }

  predicate Suggests(r: Ranked, c: Candidate, items: map<Ref, M.Item>)
  {
    && r.ref == c.ref && r.confidence == c.confidence && r.title == c.title && r.year == c.year && r.poster == c.poster
    && r.episode == c.episode && r.edition == c.edition && (r.kind == c.kind || r.kind == "")
    && (c.ref in items ==> r.item == Some(items[c.ref])) && (c.ref !in items ==> r.item == None)
  }

  // What is suggested was considered too.
  lemma SuggestionConsidered(t: Thresholds, file: File, provider: Option<Provider>, resolvers: seq<Resolver>, i: nat)
    returns (c: Candidate)
    requires i < |Aggregated(t, file, provider, resolvers).ranked|
    ensures var suggestion := Aggregated(t, file, provider, resolvers).ranked[i];
            && Considered(t, provider, resolvers, c) && c.ref == suggestion.ref
            && Worth(t, file, provider, resolvers, c, suggestion.confidence)
  {
    var banded, items := Banded(t, file, provider, resolvers), ItemsOf(provider, resolvers);
    AggregatedBands(t, file, provider, resolvers);
    SuggestionFields(t, file, banded, items, i);
    var b :| b in banded && Suggests(RecordOf(t, file, banded, items).ranked[i], b, items);
    c := BandedFromBrought(t, file, provider, resolvers, b);
    BroughtExactly(t, provider, resolvers, c);
  }

  // ------------------------------------------------------------------ the evidence

  // The resolver ran in this tier and left a payload under this key.
  predicate Supplies(r: Resolver, tier: Tier, key: string)
  {
    r.tier == tier && r.available && r.result.Some? && r.name == key && r.result.value.evidence != ""
  }

  // The last one of a tier to do so.
  predicate LastSupply(resolvers: seq<Resolver>, tier: Tier, i: int, key: string)
  {
    && 0 <= i < |resolvers| && Supplies(resolvers[i], tier, key)
    && forall j :: i < j < |resolvers| ==> !Supplies(resolvers[j], tier, key)
  }

  predicate Supplied(resolvers: seq<Resolver>, tier: Tier, key: string)
  {
    exists i :: 0 <= i < |resolvers| && Supplies(resolvers[i], tier, key)
  }

  lemma {:induction false} TierEvidenceExactly(resolvers: seq<Resolver>, tier: Tier, key: string)
    ensures key in TierEvidence(resolvers, tier) <==> Supplied(resolvers, tier, key)
    ensures forall i :: LastSupply(resolvers, tier, i, key) ==>
              key in TierEvidence(resolvers, tier) && TierEvidence(resolvers, tier)[key] == resolvers[i].result.value.evidence
  {
    if resolvers != [] {
      var n := |resolvers| - 1;
      var earlier := resolvers[..n];
      TierEvidenceExactly(earlier, tier, key);
      assert forall i :: 0 <= i < n ==> earlier[i] == resolvers[i];
      forall i | LastSupply(resolvers, tier, i, key) && i < n ensures LastSupply(earlier, tier, i, key) {
        assert !Supplies(resolvers[n], tier, key);
      }
    }
  }

  // The rewrites of one kind, as validation logged them.
  lemma {:induction false} RewritesByKind(rewrites: seq<Rewrite>, r: Rewrite)
    ensures r in Redirects(rewrites) <==> r in rewrites && r.Redirect?
    ensures r in Crossings(rewrites) <==> r in rewrites && r.CrossProvider?
  {
    if rewrites != [] {
      assert rewrites == [rewrites[0]] + rewrites[1..];
      RewritesByKind(rewrites[1..], r);
    }
  }

  // Rewrites of this kind take this slot.
  predicate Slot(rewrites: seq<Rewrite>, key: string, logged: seq<Rewrite>)
  {
    logged != [] && ((key == "validation_redirects" && logged == Redirects(rewrites))
                     || (key == "validation_cross_provider" && logged == Crossings(rewrites)))
  }

  function RewritesOf(provider: Option<Provider>, resolvers: seq<Resolver>): seq<Rewrite>
  {
    if provider.Some? then Rewrites(provider.value, TierCandidates(resolvers, Tier1)) else []
  }

  lemma LoggedExactly(evidence: E.Payloads, rewrites: seq<Rewrite>, log: RewriteLog, key: string)
    ensures forall logged :: Slot(rewrites, key, logged) ==>
              key in Logged(evidence, rewrites, log) && Logged(evidence, rewrites, log)[key] == log(logged)
    ensures (forall logged :: !Slot(rewrites, key, logged)) ==>
              (key in Logged(evidence, rewrites, log) <==> key in evidence)
              && (key in evidence ==> Logged(evidence, rewrites, log)[key] == evidence[key])
  {
    assert Redirects(rewrites) != [] && key == "validation_redirects" ==> Slot(rewrites, key, Redirects(rewrites));
    assert Crossings(rewrites) != [] && key == "validation_cross_provider" ==> Slot(rewrites, key, Crossings(rewrites));
  }

  // Before it is capped the evidence holds, under each key, the payload of the last
  // resolver of the last consulted tier that supplied one, where validation's log of its
  // rewrites counts as supplied after Tier 1's; and it holds nothing else.
  lemma GatheredExactly(t: Thresholds, provider: Option<Provider>, resolvers: seq<Resolver>, log: RewriteLog, key: string)
    ensures var all, rewrites := Gathered(t, provider, resolvers, log), RewritesOf(provider, resolvers);
            var second, third := !Settles(t, provider, resolvers) && Supplied(resolvers, Tier2, key),
                                 !Settles(t, provider, resolvers) && Supplied(resolvers, Tier3, key);
            && (key in all <==> third || second || Supplied(resolvers, Tier1, key) || exists logged :: Slot(rewrites, key, logged))
            && (forall i :: third && LastSupply(resolvers, Tier3, i, key) ==> all[key] == resolvers[i].result.value.evidence)
            && (forall i :: !third && second && LastSupply(resolvers, Tier2, i, key) ==>
                  all[key] == resolvers[i].result.value.evidence)
            && (forall logged :: !third && !second && Slot(rewrites, key, logged) ==> all[key] == log(logged))
            && (forall i :: !third && !second && (forall logged :: !Slot(rewrites, key, logged)) && LastSupply(resolvers, Tier1, i, key) ==>
                  all[key] == resolvers[i].result.value.evidence)
  {
    DominantExactly(ValidTier1(provider, resolvers), t.auto);
    TierEvidenceExactly(resolvers, Tier1, key);
    TierEvidenceExactly(resolvers, Tier2, key);
    TierEvidenceExactly(resolvers, Tier3, key);
    LoggedExactly(TierEvidence(resolvers, Tier1), RewritesOf(provider, resolvers), log, key);
  }
}
