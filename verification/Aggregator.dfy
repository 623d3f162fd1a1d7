// Banding the candidates of one file into a match decision, and the tiered
// pipeline that leads there.
module Aggregator {
  import opened Candidates
  import opened Collecting
  import opened Merging
  import opened Options
  import opened Sorting
  import opened Stability
  import E = Evidence
  import M = Metadata

  const AMBIGUOUS_EPSILON := 0.02
  const RANKED_LIMIT := 5

  datatype Thresholds = Thresholds(auto: real, reviewLow: real, lowMin: real)

  predicate Ordered(t: Thresholds) { t.lowMin <= t.reviewLow <= t.auto }

  datatype Outcome = Confident | ConfidentReview | LowConfidence | Ambiguous | NoMatch | PartialSeries

  datatype Ranked = Ranked(ref: Ref, confidence: real, title: string, year: int, kind: string, poster: string,
                           episode: Option<Episode>, edition: Option<string>, item: Option<M.Item>)

  // What the decision depends on besides the candidates: the parsed year, and
  // whether the file's parse is series-shaped.
  datatype File = File(hintYear: int, looksLikeSeries: bool)

  datatype Record = Record(outcome: Outcome, chosenRef: Option<Ref>, chosenEpisode: Option<Episode>,
                           chosenEdition: Option<string>, chosenItem: Option<M.Item>, confidence: real,
                           ranked: seq<Ranked>)

  // ---------------------------------------------------------------- the sort

  predicate MoreConfident(a: Candidate, b: Candidate) { a.confidence > b.confidence }

  function ByConfidence(cands: seq<Candidate>): seq<Candidate>
  {
    StableSort(MoreConfident, cands)
  }

  predicate Descending(cands: seq<Candidate>)
  {
    forall i, j :: 0 <= i < j < |cands| ==> cands[i].confidence >= cands[j].confidence
  }

  lemma ByConfidenceSorts(cands: seq<Candidate>)
    ensures Descending(ByConfidence(cands)) && multiset(ByConfidence(cands)) == multiset(cands)
    ensures |ByConfidence(cands)| == |cands|
  {
    assert StrictWeakOrder(MoreConfident);
    StableSortSorted(MoreConfident, cands);
    var s := ByConfidence(cands);
    assert forall i, j :: 0 <= i < j < |s| ==> !MoreConfident(s[j], s[i]);
  }

  // The two leading candidates are closer than epsilon.
  predicate Tied(sorted: seq<Candidate>)
  {
    |sorted| >= 2 && sorted[0].confidence - sorted[1].confidence < AMBIGUOUS_EPSILON
  }

  // dominantAbove: the leading candidate when it reaches the threshold untied.
  method DominantAbove(cands: seq<Candidate>, threshold: real) returns (best: Option<Candidate>)
    ensures best == Dominant(ByConfidence(cands), threshold)
  {
    if |cands| == 0 { return None; }
    var sorted := ByConfidence(cands);
    if sorted[0].confidence < threshold { return None; }
    if |sorted| >= 2 && sorted[0].confidence - sorted[1].confidence < AMBIGUOUS_EPSILON { return None; }
    best := Some(sorted[0]);
  }

  function Dominant(sorted: seq<Candidate>, threshold: real): Option<Candidate>
  {
    if sorted == [] || sorted[0].confidence < threshold || Tied(sorted) then None else Some(sorted[0])
  }

  // ---------------------------------------------------------------- the bands

  function Band(t: Thresholds, sorted: seq<Candidate>): Outcome
    requires sorted != []
  {
    var best, tie := sorted[0].confidence, Tied(sorted);
    if best >= t.auto && !tie then Confident
    else if best >= t.reviewLow && !tie then ConfidentReview
    else if best >= t.lowMin && !tie then LowConfidence
    else Ambiguous
  }

  // The partial-series override: a series-shaped file whose best candidate has no
  // episode. It fires on every band, ambiguous ones included.
  predicate Overridden(file: File, best: Candidate)
  {
    best.episode.None? && file.looksLikeSeries
  }

  function OutcomeOf(t: Thresholds, file: File, sorted: seq<Candidate>): Outcome
  {
    if sorted == [] then NoMatch
    else if Overridden(file, sorted[0]) then PartialSeries
    else Band(t, sorted)
  }

  predicate SinglePick(outcome: Outcome)
  {
    outcome.Confident? || outcome.ConfidentReview? || outcome.LowConfidence? || outcome.PartialSeries?
  }

  function ItemFor(items: map<Ref, M.Item>, ref: Ref): Option<M.Item>
  {
    if ref in items then Some(items[ref]) else None
  }

  function RankedOf(c: Candidate, kind: string, items: map<Ref, M.Item>): Ranked
  {
    Ranked(c.ref, c.confidence, c.title, c.year, kind, c.poster, c.episode, c.edition, ItemFor(items, c.ref))
  }

  // How many leading candidates are listed: those at or above lowMin, up to the
  // limit.
  function Listed(sorted: seq<Candidate>, lowMin: real, limit: nat): (n: nat)
    ensures n <= limit && n <= |sorted|
    ensures forall i :: 0 <= i < n ==> sorted[i].confidence >= lowMin
    ensures n < limit && n < |sorted| ==> sorted[n].confidence < lowMin
  {
    if limit == 0 || sorted == [] || sorted[0].confidence < lowMin then 0
    else 1 + Listed(sorted[1..], lowMin, limit - 1)
  }

  function RankedPrefix(sorted: seq<Candidate>, n: nat, fallback: bool, items: map<Ref, M.Item>): (r: seq<Ranked>)
    requires n <= |sorted|
    ensures |r| == n
    ensures forall i :: 0 <= i < n ==> r[i] == RankedOf(sorted[i], if fallback then "" else sorted[i].kind, items)
  {
    if n == 0 then []
    else RankedPrefix(sorted, n - 1, fallback, items)
         + [RankedOf(sorted[n - 1], if fallback then "" else sorted[n - 1].kind, items)]
  }

  function Limit(outcome: Outcome): nat { if outcome == Ambiguous then RANKED_LIMIT else 1 }

  // An ambiguous list with nothing above lowMin falls back to the leading
  // candidates, listed without their kind.
  function RankedList(sorted: seq<Candidate>, items: map<Ref, M.Item>, outcome: Outcome, lowMin: real): seq<Ranked>
  {
    var n := Listed(sorted, lowMin, Limit(outcome));
    if sorted == [] || outcome == NoMatch then []
    else if outcome == Ambiguous && n == 0 then
      RankedPrefix(sorted, if |sorted| < RANKED_LIMIT then |sorted| else RANKED_LIMIT, true, items)
    else RankedPrefix(sorted, n, false, items)
  }

  method RankCandidates(sorted: seq<Candidate>, items: map<Ref, M.Item>, outcome: Outcome, lowMin: real)
    returns (out: seq<Ranked>)
    ensures out == RankedList(sorted, items, outcome, lowMin)
  {
    if |sorted| == 0 || outcome == NoMatch { return []; }
    var limit := 1;
    if outcome == Ambiguous { limit := RANKED_LIMIT; }
    out := [];
    ghost var n := Listed(sorted, lowMin, limit);
    for i := 0 to |sorted|
      invariant i <= n && i < limit && out == RankedPrefix(sorted, i, false, items)
    {
      if sorted[i].confidence < lowMin { break; }
      out := out + [RankedOf(sorted[i], sorted[i].kind, items)];
      if |out| >= limit { break; }
    }
    assert |out| == n;
    if outcome == Ambiguous && |out| == 0 {
      for i := 0 to |sorted|
        invariant i <= limit && out == RankedPrefix(sorted, i, true, items)
      {
        if i >= limit { break; }
        out := out + [RankedOf(sorted[i], "", items)];
      }
    }
  }

  function RecordOf(t: Thresholds, file: File, cands: seq<Candidate>, items: map<Ref, M.Item>): Record
  {
    var sorted := ByConfidence(cands);
    var outcome := OutcomeOf(t, file, sorted);
    if sorted == [] then Record(NoMatch, None, None, None, None, 0.0, [])
    else
      var best := sorted[0];
      var picked := SinglePick(outcome);
      Record(outcome,
             if picked then Some(best.ref) else None,
             if picked then best.episode else None,
             if picked then best.edition else None,
             if picked then ItemFor(items, best.ref) else None,
             best.confidence, RankedList(sorted, items, outcome, t.lowMin))
  }

  method ChooseOutcome(t: Thresholds, file: File, best: Candidate, tie: bool) returns (outcome: Outcome)
    ensures forall sorted :: sorted != [] && sorted[0] == best && Tied(sorted) == tie ==> outcome == OutcomeOf(t, file, sorted)
  {
    if best.confidence >= t.auto && !tie {
      outcome := Confident;
    } else if best.confidence >= t.reviewLow && !tie {
      outcome := ConfidentReview;
    } else if best.confidence >= t.lowMin && !tie {
      outcome := LowConfidence;
    } else {
      outcome := Ambiguous;
    }
    if outcome != NoMatch && best.episode.None? && file.looksLikeSeries { outcome := PartialSeries; }
  }

  method BandAndRecord(t: Thresholds, file: File, cands: seq<Candidate>, items: map<Ref, M.Item>) returns (rec: Record)
    ensures rec == RecordOf(t, file, cands, items)
  {
    rec := Record(NoMatch, None, None, None, None, 0.0, []);
    var sorted := ByConfidence(cands);
    if |cands| == 0 { return; }
    var best := sorted[0];
    var tie := |sorted| >= 2 && sorted[0].confidence - sorted[1].confidence < AMBIGUOUS_EPSILON;
    var outcome := ChooseOutcome(t, file, best, tie);
    rec := rec.(confidence := best.confidence, outcome := outcome);
    if SinglePick(rec.outcome) {
      rec := rec.(chosenRef := Some(best.ref), chosenEpisode := best.episode, chosenEdition := best.edition);
      if best.ref in items { rec := rec.(chosenItem := Some(items[best.ref])); }
    }
    var ranked := RankCandidates(sorted, items, rec.outcome, t.lowMin);
    rec := rec.(ranked := ranked);
  }

  // ------------------------------------------------------------- the pipeline

  datatype Tier = Tier1 | Tier2 | Tier3

  // One resolver's turn: what it returned, or None when it failed.
  datatype Resolver = Resolver(name: string, tier: Tier, available: bool, result: Option<Resolved>)

  datatype Resolved = Resolved(candidates: seq<Candidate>, evidence: string)

  datatype Audit = Audit(name: string, tier: Tier, count: nat, top: real)

  predicate Runs(r: Resolver, tier: Tier) { r.tier == tier && r.available && r.result.Some? }

  function TierCandidates(resolvers: seq<Resolver>, tier: Tier): seq<Candidate>
  {
    FlatMap((r: Resolver) => if Runs(r, tier) then r.result.value.candidates else [], resolvers)
  }

  function ValidTier1(provider: Option<Provider>, resolvers: seq<Resolver>): seq<Candidate>
  {
    var found := TierCandidates(resolvers, Tier1);
    if provider.Some? then Survivors(provider.value, found) else found
  }

  predicate ShortCircuits(t: Thresholds, provider: Option<Provider>, resolvers: seq<Resolver>)
  {
    Dominant(ByConfidence(ValidTier1(provider, resolvers)), t.auto).Some?
  }

  function Aggregated(t: Thresholds, file: File, provider: Option<Provider>, resolvers: seq<Resolver>): Record
  {
    var tier1 := ValidTier1(provider, resolvers);
    var items := if provider.Some? then Items(provider.value, TierCandidates(resolvers, Tier1)) else map[];
    if ShortCircuits(t, provider, resolvers) then RecordOf(t, file, tier1, items)
    else
      var all := tier1 + TierCandidates(resolvers, Tier2) + TierCandidates(resolvers, Tier3);
      RecordOf(t, file, Merge(all, file.hintYear), items)
  }

  function TopOf(cands: seq<Candidate>): real
  {
    if cands == [] then 0.0
    else
      var earlier, last := TopOf(cands[..|cands| - 1]), cands[|cands| - 1].confidence;
      if last > earlier then last else earlier
  }

  // The greatest confidence, or zero when there is nothing above it.
  lemma {:induction false} TopIsGreatest(cands: seq<Candidate>)
    ensures TopOf(cands) >= 0.0 && forall i :: 0 <= i < |cands| ==> cands[i].confidence <= TopOf(cands)
    ensures TopOf(cands) == 0.0 || exists i :: 0 <= i < |cands| && cands[i].confidence == TopOf(cands)
  {
    if cands != [] {
      var earlier := cands[..|cands| - 1];
      TopIsGreatest(earlier);
      assert forall i :: 0 <= i < |earlier| ==> earlier[i] == cands[i];
    }
  }

  function TierAudits(resolvers: seq<Resolver>, tier: Tier): seq<Audit>
  {
    FlatMap((r: Resolver) => if Runs(r, tier) then [AuditOf(r)] else [], resolvers)
  }

  function AuditOf(r: Resolver): Audit
    requires r.result.Some?
  {
    Audit(r.name, r.tier, |r.result.value.candidates|, TopOf(r.result.value.candidates))
  }

  // The payloads of a tier's resolvers by name; a later one wins.
  function TierEvidence(resolvers: seq<Resolver>, tier: Tier): E.Payloads
  {
    if resolvers == [] then map[]
    else
      var earlier, r := TierEvidence(resolvers[..|resolvers| - 1], tier), resolvers[|resolvers| - 1];
      if Runs(r, tier) && r.result.value.evidence != "" then earlier[r.name := r.result.value.evidence] else earlier
  }

  method RunTier(resolvers: seq<Resolver>, tier: Tier) returns (cands: seq<Candidate>, audits: seq<Audit>, evidence: E.Payloads)
    ensures cands == TierCandidates(resolvers, tier)
    ensures audits == TierAudits(resolvers, tier)
    ensures evidence == TierEvidence(resolvers, tier)
  {
    cands, audits, evidence := [], [], map[];
    ghost var emitted := (r: Resolver) => if Runs(r, tier) then r.result.value.candidates else [];
    ghost var audited := (r: Resolver) => if Runs(r, tier) then [AuditOf(r)] else [];
    for i := 0 to |resolvers|
      invariant cands == FlatMap(emitted, resolvers[..i])
      invariant audits == FlatMap(audited, resolvers[..i])
      invariant evidence == TierEvidence(resolvers[..i], tier)
    {
      FlatMapStep(emitted, resolvers, i);
      FlatMapStep(audited, resolvers, i);
      assert resolvers[..i + 1][..i] == resolvers[..i];
      var r := resolvers[i];
      if !Runs(r, tier) { continue; }
      var top := TopConfidence(r.result.value.candidates);
      audits := audits + [Audit(r.name, tier, |r.result.value.candidates|, top)];
      cands := cands + r.result.value.candidates;
      if r.result.value.evidence != "" { evidence := evidence[r.name := r.result.value.evidence]; }
    }
    assert resolvers[..|resolvers|] == resolvers;
  }

  method TopConfidence(cands: seq<Candidate>) returns (top: real)
    ensures top == TopOf(cands)
  {
    top := 0.0;
    for i := 0 to |cands|
      invariant top == TopOf(cands[..i])
    {
      assert cands[..i + 1][..i] == cands[..i];
      if cands[i].confidence > top { top := cands[i].confidence; }
    }
    assert cands[..|cands|] == cands;
  }

  // How validation's rewrites are written into the evidence.
  type RewriteLog = seq<Rewrite> -> string

  function Redirects(rewrites: seq<Rewrite>): seq<Rewrite>
  {
    FlatMap((r: Rewrite) => if r.Redirect? then [r] else [], rewrites)
  }

  function Crossings(rewrites: seq<Rewrite>): seq<Rewrite>
  {
    FlatMap((r: Rewrite) => if r.CrossProvider? then [r] else [], rewrites)
  }

  function LogSlot(evidence: E.Payloads, slot: string, rewrites: seq<Rewrite>, log: RewriteLog): E.Payloads
  {
    if rewrites == [] then evidence else evidence[slot := log(rewrites)]
  }

  function Logged(evidence: E.Payloads, rewrites: seq<Rewrite>, log: RewriteLog): E.Payloads
  {
    LogSlot(LogSlot(evidence, "validation_redirects", Redirects(rewrites), log),
            "validation_cross_provider", Crossings(rewrites), log)
  }

  method LogRewrites(evidence: E.Payloads, rewrites: seq<Rewrite>, log: RewriteLog) returns (logged: E.Payloads)
    ensures logged == Logged(evidence, rewrites, log)
  {
    var redirects: seq<Rewrite>, crossings: seq<Rewrite> := [], [];
    ghost var redirect := (r: Rewrite) => if r.Redirect? then [r] else [];
    ghost var crossing := (r: Rewrite) => if r.CrossProvider? then [r] else [];
    for i := 0 to |rewrites|
      invariant redirects == FlatMap(redirect, rewrites[..i]) && crossings == FlatMap(crossing, rewrites[..i])
    {
      FlatMapStep(redirect, rewrites, i);
      FlatMapStep(crossing, rewrites, i);
      if rewrites[i].Redirect? { redirects := redirects + [rewrites[i]]; } else { crossings := crossings + [rewrites[i]]; }
    }
    assert rewrites[..|rewrites|] == rewrites;
    logged := evidence;
    if redirects != [] { logged := logged["validation_redirects" := log(redirects)]; }
    if crossings != [] { logged := logged["validation_cross_provider" := log(crossings)]; }
  }

  // The evidence gathered on the way to a record, before it is capped.
  function Gathered(t: Thresholds, provider: Option<Provider>, resolvers: seq<Resolver>, log: RewriteLog): E.Payloads
  {
    var found := TierCandidates(resolvers, Tier1);
    var rewrites := if provider.Some? then Rewrites(provider.value, found) else [];
    var logged := Logged(TierEvidence(resolvers, Tier1), rewrites, log);
    if ShortCircuits(t, provider, resolvers) then logged
    else logged + TierEvidence(resolvers, Tier2) + TierEvidence(resolvers, Tier3)
  }

  // The whole pipeline for one file. Lower tiers are consulted only when Tier 1
  // has no dominant candidate, and the stored evidence always fits its cap.
  method Aggregate(t: Thresholds, file: File, provider: Option<Provider>, resolvers: seq<Resolver>,
                   encode: E.Encoder, log: RewriteLog)
    returns (rec: Record, audits: seq<Audit>, evidence: E.Blob, truncated: bool)
    ensures rec == Aggregated(t, file, provider, resolvers)
    ensures audits == TierAudits(resolvers, Tier1)
                      + if ShortCircuits(t, provider, resolvers) then []
                        else TierAudits(resolvers, Tier2) + TierAudits(resolvers, Tier3)
    ensures evidence == E.Capped(encode, Gathered(t, provider, resolvers, log))
    ensures evidence.Encoded? ==> E.Fits(encode, evidence.kept)
    ensures truncated <==> evidence != E.Whole(Gathered(t, provider, resolvers, log))
  {
    var found, audits1, evidence1 := RunTier(resolvers, Tier1);
    var tier1, items, rewrites := ValidateAgainstProvider(provider, found);
    evidence1 := LogRewrites(evidence1, rewrites, log);
    var dominant := DominantAbove(tier1, t.auto);
    if dominant.Some? {
      rec := BandAndRecord(t, file, tier1, items);
      evidence, truncated := E.CapEvidence(encode, evidence1);
      E.TrimFits(encode, evidence1);
      assert audits1 == audits1 + [];
      return rec, audits1, evidence, truncated;
    }
    var tier2, audits2, evidence2 := RunTier(resolvers, Tier2);
    var tier3, audits3, evidence3 := RunTier(resolvers, Tier3);
    var cands := MergeCandidates(tier1 + tier2 + tier3, file.hintYear);
    rec := BandAndRecord(t, file, cands, items);
    var merged := evidence1 + evidence2 + evidence3;
    evidence, truncated := E.CapEvidence(encode, merged);
    E.TrimFits(encode, merged);
    audits := audits1 + audits2 + audits3;
    Associate(audits1, audits2, audits3);
  }

  // ------------------------------------------------------- what it guarantees

  // The candidate a decision is about: of the most confident ones, the first emitted.
  lemma LeaderIsFirstBest(cands: seq<Candidate>)
    requires cands != []
    ensures ByConfidence(cands)[0] == cands[FirstBest(cands)]
  {
    var sorted, k := ByConfidence(cands), FirstBest(cands);
    var top := cands[k].confidence;
    var keep := (c: Candidate) => c.confidence == top;
    BucketIsPayload(cands);
    FirstBestIsFirst(cands);
    MaxConfidenceIsMax(cands);
    ByConfidenceSorts(cands);
    SortedTop(cands, k);
    StableSortStable(MoreConfident, keep, cands);
    FilterFirst(keep, cands, k);
    FilterFirst(keep, sorted, 0);
  }

  lemma SortedTop(cands: seq<Candidate>, k: nat)
    requires k < |cands| && forall i :: 0 <= i < |cands| ==> cands[i].confidence <= cands[k].confidence
    ensures ByConfidence(cands)[0].confidence == cands[k].confidence
  {
    var sorted := ByConfidence(cands);
    ByConfidenceSorts(cands);
    assert sorted[0] in multiset(cands) && cands[k] in multiset(sorted);
    var i :| 0 <= i < |sorted| && sorted[i] == cands[k];
    var j :| 0 <= j < |cands| && cands[j] == sorted[0];
  }

  // Candidate i reaches the threshold and leads every other by at least epsilon.
  predicate ClearLead(cands: seq<Candidate>, i: nat, threshold: real)
  {
    && i < |cands| && cands[i].confidence >= threshold
    && forall j :: 0 <= j < |cands| && j != i ==> cands[i].confidence - cands[j].confidence >= 0.02
  }

  lemma OthersSorted(cands: seq<Candidate>, i: nat, sorted: seq<Candidate>)
    requires i < |cands| && sorted != [] && sorted[0] == cands[i] && multiset(sorted) == multiset(cands)
    ensures multiset(sorted[1..]) == multiset(cands[..i] + cands[i + 1..])
  {
    assert cands == cands[..i] + [cands[i]] + cands[i + 1..];
    assert sorted == [sorted[0]] + sorted[1..];
    assert multiset(sorted[1..]) == multiset(sorted) - multiset{sorted[0]};
    assert multiset(cands[..i] + cands[i + 1..]) == multiset(cands) - multiset{cands[i]};
  }

  // Everyone but the leader is somewhere behind it in the sorted list, and conversely.
  lemma BehindLeader(cands: seq<Candidate>, i: nat, j: nat) returns (m: nat)
    requires i < |cands| && ByConfidence(cands)[0] == cands[i] && j < |cands| && j != i
    ensures 1 <= m < |ByConfidence(cands)| && ByConfidence(cands)[m] == cands[j]
  {
    var sorted, others := ByConfidence(cands), cands[..i] + cands[i + 1..];
    OthersSorted(cands, i, sorted);
    assert others[if j < i then j else j - 1] == cands[j];
    assert cands[j] in multiset(others);
    assert cands[j] in multiset(sorted[1..]);
    var k :| 0 <= k < |sorted[1..]| && sorted[1..][k] == cands[j];
    m := k + 1;
  }

  lemma RunnerUp(cands: seq<Candidate>, i: nat) returns (j: nat)
    requires i < |cands| && ByConfidence(cands)[0] == cands[i] && |cands| >= 2
    ensures j < |cands| && j != i && cands[j] == ByConfidence(cands)[1]
  {
    var sorted, others := ByConfidence(cands), cands[..i] + cands[i + 1..];
    OthersSorted(cands, i, sorted);
    assert sorted[1..][0] == sorted[1];
    assert sorted[1] in multiset(sorted[1..]);
    assert sorted[1] in multiset(others);
    var m :| 0 <= m < |others| && others[m] == sorted[1];
    j := if m < i then m else m + 1;
  }

  // The runner-up bounds everyone but the leader.
  lemma UntiedMeansClear(cands: seq<Candidate>, i: nat)
    requires i < |cands| && ByConfidence(cands)[0] == cands[i]
    ensures Tied(ByConfidence(cands)) <==>
            exists j :: 0 <= j < |cands| && j != i && cands[i].confidence - cands[j].confidence < AMBIGUOUS_EPSILON
  {
    ByConfidenceSorts(cands);
    forall j | 0 <= j < |cands| && j != i ensures cands[j].confidence <= ByConfidence(cands)[1].confidence {
      var m := BehindLeader(cands, i, j);
    }
    if |cands| >= 2 { var j := RunnerUp(cands, i); }
  }

  ghost predicate HasLead(cands: seq<Candidate>, threshold: real) { exists i: nat :: ClearLead(cands, i, threshold) }

  // dominantAbove, without the sort: it accepts exactly when some candidate is in
  // clear lead, and then returns that one.
  lemma DominantExactly(cands: seq<Candidate>, threshold: real)
    ensures Dominant(ByConfidence(cands), threshold).Some? <==> HasLead(cands, threshold)
    ensures forall i: nat :: ClearLead(cands, i, threshold) ==> Dominant(ByConfidence(cands), threshold) == Some(cands[i])
  {
    if cands != [] {
      var k := FirstBest(cands);
      LeaderIsFirstBest(cands);
      BucketIsPayload(cands);
      MaxConfidenceIsMax(cands);
      UntiedMeansClear(cands, k);
      forall i: nat | ClearLead(cands, i, threshold) ensures i == k && ClearLead(cands, k, threshold) {
        assert cands[i].confidence <= cands[k].confidence;
      }
      assert Dominant(ByConfidence(cands), threshold).Some? <==> ClearLead(cands, k, threshold);
    }
  }

  lemma BandsByDominance(t: Thresholds, sorted: seq<Candidate>)
    requires Ordered(t) && sorted != []
    ensures Band(t, sorted) == Confident <==> Dominant(sorted, t.auto).Some?
    ensures Band(t, sorted) == ConfidentReview <==> Dominant(sorted, t.reviewLow).Some? && Dominant(sorted, t.auto).None?
    ensures Band(t, sorted) == LowConfidence <==> Dominant(sorted, t.lowMin).Some? && Dominant(sorted, t.reviewLow).None?
    ensures Band(t, sorted) == Ambiguous <==> Dominant(sorted, t.lowMin).None?
    ensures Band(t, sorted) !in {NoMatch, PartialSeries}
  {
  }

  // The outcome, read off the candidates: the highest threshold that someone in clear
  // lead reaches, ambiguous when there is no such lead, unless the override fires for
  // the first of the most confident ones.
  lemma OutcomeExactly(t: Thresholds, file: File, cands: seq<Candidate>, items: map<Ref, M.Item>)
    requires Ordered(t)
    ensures var outcome := RecordOf(t, file, cands, items).outcome;
            && (outcome == NoMatch <==> cands == [])
            && (outcome == PartialSeries <==> cands != [] && Overridden(file, cands[FirstBest(cands)]))
            && (cands != [] && !Overridden(file, cands[FirstBest(cands)]) ==>
                  && (outcome == Confident <==> HasLead(cands, t.auto))
                  && (outcome == ConfidentReview <==> HasLead(cands, t.reviewLow) && !HasLead(cands, t.auto))
                  && (outcome == LowConfidence <==> HasLead(cands, t.lowMin) && !HasLead(cands, t.reviewLow))
                  && (outcome == Ambiguous <==> !HasLead(cands, t.lowMin)))
  {
    if cands != [] {
      LeaderIsFirstBest(cands);
      BandsByDominance(t, ByConfidence(cands));
      DominantExactly(cands, t.auto);
      DominantExactly(cands, t.reviewLow);
      DominantExactly(cands, t.lowMin);
      assert RecordOf(t, file, cands, items).outcome == OutcomeOf(t, file, ByConfidence(cands));
    }
  }

  // Short-circuiting on Tier 1 and banding agree: a record is confident exactly
  // when dominantAbove accepts and no override fires, and whatever dominantAbove
  // accepts is what the record chooses.
  lemma ShortCircuitCoherent(t: Thresholds, file: File, cands: seq<Candidate>, items: map<Ref, M.Item>)
    ensures var rec, best := RecordOf(t, file, cands, items), Dominant(ByConfidence(cands), t.auto);
            && (rec.outcome == Confident <==> best.Some? && !Overridden(file, best.value))
            && (best.Some? ==> rec.chosenRef == Some(best.value.ref) && rec.confidence == best.value.confidence)
  {
  }

  lemma RankedListShape(sorted: seq<Candidate>, items: map<Ref, M.Item>, outcome: Outcome, lowMin: real)
    requires Descending(sorted)
    ensures var ranked := RankedList(sorted, items, outcome, lowMin);
            && |ranked| <= RANKED_LIMIT
            && (forall i, j :: 0 <= i < j < |ranked| ==> ranked[i].confidence >= ranked[j].confidence)
            && (ranked == [] <==> sorted == [] || outcome == NoMatch
                                  || (outcome != Ambiguous && sorted[0].confidence < lowMin))
  {
  }

  lemma BandReachesLowMin(t: Thresholds, sorted: seq<Candidate>)
    requires Ordered(t) && sorted != []
    ensures Band(t, sorted) != NoMatch && Band(t, sorted) != PartialSeries
    ensures Band(t, sorted) != Ambiguous ==> sorted[0].confidence >= t.lowMin
  {
  }

  // The list of suggestions: sorted, at most five, and empty only without
  // candidates or when the partial-series override picked one below lowMin.
  lemma RankedShape(t: Thresholds, file: File, cands: seq<Candidate>, items: map<Ref, M.Item>)
    requires Ordered(t)
    ensures var ranked := RecordOf(t, file, cands, items).ranked;
            && |ranked| <= 5
            && (forall i, j :: 0 <= i < j < |ranked| ==> ranked[i].confidence >= ranked[j].confidence)
            && (ranked == [] <==> cands == [] || (Overridden(file, ByConfidence(cands)[0])
                                                  && ByConfidence(cands)[0].confidence < t.lowMin))
  {
    ByConfidenceSorts(cands);
    var sorted := ByConfidence(cands);
    if cands != [] {
      RankedListShape(sorted, items, OutcomeOf(t, file, sorted), t.lowMin);
      BandReachesLowMin(t, sorted);
    }
  }

  // A single-pick band lists exactly the chosen candidate.
  lemma SinglePickListsChosen(t: Thresholds, file: File, cands: seq<Candidate>, items: map<Ref, M.Item>)
    requires Ordered(t) && cands != [] && !Overridden(file, ByConfidence(cands)[0])
    ensures var rec := RecordOf(t, file, cands, items);
            SinglePick(rec.outcome) ==>
              && |rec.ranked| == 1
              && rec.chosenRef == Some(rec.ranked[0].ref) && rec.chosenItem == rec.ranked[0].item
              && rec.ranked[0].confidence == rec.confidence >= t.lowMin
  {
  }

  // An ambiguous list holds the candidates at or above lowMin, or, when none
  // reaches it, the leading ones; either way as many as fit in five.
  lemma AmbiguousLists(t: Thresholds, file: File, cands: seq<Candidate>, items: map<Ref, M.Item>)
    requires Ordered(t) && RecordOf(t, file, cands, items).outcome == Ambiguous
    ensures AmbiguousShape(ByConfidence(cands), RecordOf(t, file, cands, items).ranked, t.lowMin)
  {
    ByConfidenceSorts(cands);
    AmbiguousList(ByConfidence(cands), items, t.lowMin);
  }

  predicate AmbiguousShape(sorted: seq<Candidate>, ranked: seq<Ranked>, lowMin: real)
  {
    && 1 <= |ranked| <= |sorted|
    && (forall i :: 0 <= i < |ranked| ==> ranked[i].ref == sorted[i].ref && ranked[i].confidence == sorted[i].confidence)
    && if sorted[0].confidence >= lowMin
       then (forall i :: 0 <= i < |ranked| ==> ranked[i].confidence >= lowMin)
            && (|ranked| == 5 || |ranked| == |sorted| || sorted[|ranked|].confidence < lowMin)
       else |ranked| == (if |sorted| < 5 then |sorted| else 5)
  }

  lemma AmbiguousList(sorted: seq<Candidate>, items: map<Ref, M.Item>, lowMin: real)
    requires sorted != []
    ensures AmbiguousShape(sorted, RankedList(sorted, items, Ambiguous, lowMin), lowMin)
  {
    var n := Listed(sorted, lowMin, RANKED_LIMIT);
    assert n == 0 <==> sorted[0].confidence < lowMin;
  }

  // The suggestions are the leading candidates, and exactly those below lowMin in an
  // ambiguous record, which only its fallback lists, lose their kind.
  lemma FallbackLosesKind(t: Thresholds, file: File, cands: seq<Candidate>, items: map<Ref, M.Item>, i: nat)
    requires i < |RecordOf(t, file, cands, items).ranked|
    ensures i < |ByConfidence(cands)|
    ensures var rec, c := RecordOf(t, file, cands, items), ByConfidence(cands)[i];
            rec.ranked[i] == RankedOf(c, if rec.outcome == Ambiguous && c.confidence < t.lowMin then "" else c.kind, items)
  {
    ByConfidenceSorts(cands);
    var sorted := ByConfidence(cands);
    assert sorted[i].confidence <= sorted[0].confidence;
  }

  // The best is a maximum of the candidates and is reported as the confidence.
  lemma BestIsMaximum(t: Thresholds, file: File, cands: seq<Candidate>, items: map<Ref, M.Item>)
    ensures forall c :: c in cands ==> c.confidence <= RecordOf(t, file, cands, items).confidence
    ensures cands != [] ==> exists c :: c in cands && c.confidence == RecordOf(t, file, cands, items).confidence
                                        && (RecordOf(t, file, cands, items).chosenRef.Some? ==>
                                              RecordOf(t, file, cands, items).chosenRef == Some(c.ref))
  {
    ByConfidenceSorts(cands);
    var sorted := ByConfidence(cands);
    forall c | c in cands ensures c.confidence <= sorted[0].confidence {
      assert c in multiset(sorted);
      var i :| 0 <= i < |sorted| && sorted[i] == c;
    }
    if cands != [] {
      assert sorted[0] in multiset(sorted);
      assert sorted[0] in multiset(cands);
    }
  }

  predicate FiledUnderIdentity(items: map<Ref, M.Item>)
  {
    forall ref :: ref in items ==> SameIdentity(ref, items[ref])
  }

  lemma RankedKeepIdentity(sorted: seq<Candidate>, n: nat, fallback: bool, items: map<Ref, M.Item>)
    requires n <= |sorted| && FiledUnderIdentity(items)
    ensures forall i :: 0 <= i < n && RankedPrefix(sorted, n, fallback, items)[i].item.Some? ==>
              SameIdentity(sorted[i].ref, RankedPrefix(sorted, n, fallback, items)[i].item.value)
  {
  }

  lemma RecordKeepsIdentity(t: Thresholds, file: File, cands: seq<Candidate>, items: map<Ref, M.Item>)
    requires FiledUnderIdentity(items)
    ensures var rec := RecordOf(t, file, cands, items);
            && (rec.chosenItem.Some? ==> rec.chosenRef.Some? && SameIdentity(rec.chosenRef.value, rec.chosenItem.value))
            && (forall i :: 0 <= i < |rec.ranked| && rec.ranked[i].item.Some? ==>
                  SameIdentity(rec.ranked[i].ref, rec.ranked[i].item.value))
  {
    var sorted := ByConfidence(cands);
    if sorted != [] {
      var outcome := OutcomeOf(t, file, sorted);
      RankedKeepIdentity(sorted, Listed(sorted, t.lowMin, Limit(outcome)), false, items);
      RankedKeepIdentity(sorted, if |sorted| < RANKED_LIMIT then |sorted| else RANKED_LIMIT, true, items);
    }
  }

  // Through lookup, validation, merging and banding: whenever a record carries a
  // validated item, for the choice or for a suggestion, it names the identity it
  // is attached to.
  lemma AggregateKeepsIdentity(t: Thresholds, file: File, client: Option<M.Client>, resolvers: seq<Resolver>)
    ensures var rec := Aggregated(t, file, Some((source, id) => M.LookupById(client, source, id)), resolvers);
            && (rec.chosenItem.Some? ==> rec.chosenRef.Some? && SameIdentity(rec.chosenRef.value, rec.chosenItem.value))
            && (forall i :: 0 <= i < |rec.ranked| && rec.ranked[i].item.Some? ==>
                  SameIdentity(rec.ranked[i].ref, rec.ranked[i].item.value))
  {
    var provider: Provider := (source, id) => M.LookupById(client, source, id);
    var found := TierCandidates(resolvers, Tier1);
    TmdbProviderIsHonest(client, found);
    ItemsKeepIdentity(provider, found);
    var items := Items(provider, found);
    var tier1 := Survivors(provider, found);
    var all := tier1 + TierCandidates(resolvers, Tier2) + TierCandidates(resolvers, Tier3);
    RecordKeepsIdentity(t, file, tier1, items);
    RecordKeepsIdentity(t, file, Merge(all, file.hintYear), items);
  }
}
