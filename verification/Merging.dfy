// Combining the candidates that several resolvers emit for one identity.
module Merging {
  import opened Candidates
  import opened Collecting
  import opened Options

  const CORROBORATION_STEP := 0.05
  const CORROBORATION_CAP := 0.99
  const YEAR_MISMATCH_PENALTY := 0.9

  // ------------------------------------------------------ the declarative form

  // The candidates that name one identity, in input order.
  function Group(cands: seq<Candidate>, ref: Ref): seq<Candidate>
  {
    if cands == [] then [] else Group(cands[..|cands| - 1], ref) + Only(cands[|cands| - 1], ref)
  }

  function Only(c: Candidate, ref: Ref): seq<Candidate>
  {
    if c.ref == ref then [c] else []
  }

  // The identities in first-seen order.
  function Refs(cands: seq<Candidate>): seq<Ref>
  {
    if cands == [] then []
    else
      var earlier, ref := Refs(cands[..|cands| - 1]), cands[|cands| - 1].ref;
      if ref in earlier then earlier else earlier + [ref]
  }

  lemma GroupSnoc(cands: seq<Candidate>, c: Candidate, ref: Ref)
    ensures Group(cands + [c], ref) == Group(cands, ref) + Only(c, ref)
  {
    assert (cands + [c])[..|cands|] == cands;
  }

  lemma RefsSnoc(cands: seq<Candidate>, c: Candidate)
    ensures Refs(cands + [c]) == if c.ref in Refs(cands) then Refs(cands) else Refs(cands) + [c.ref]
  {
    assert (cands + [c])[..|cands|] == cands;
  }

  lemma {:induction false} RefHasGroup(cands: seq<Candidate>, ref: Ref)
    ensures ref in Refs(cands) <==> Group(cands, ref) != []
  {
    if cands != [] { RefHasGroup(cands[..|cands| - 1], ref); }
  }

  function MaxConfidence(g: seq<Candidate>): real
    requires g != []
  {
    var n := |g| - 1;
    if n == 0 then g[0].confidence
    else if g[n].confidence > MaxConfidence(g[..n]) then g[n].confidence else MaxConfidence(g[..n])
  }

  // The first candidate that reaches the greatest confidence.
  function FirstBest(g: seq<Candidate>): (k: nat)
    requires g != []
    ensures k < |g|
  {
    var n := |g| - 1;
    if n == 0 then 0
    else if g[n].confidence > g[FirstBest(g[..n])].confidence then n else FirstBest(g[..n])
  }

  function FirstEpisode(g: seq<Candidate>): Option<Episode>
  {
    if g == [] then None else if g[0].episode.Some? then g[0].episode else FirstEpisode(g[1..])
  }

  // The surviving payload: that of the first best candidate, whose missing episode
  // is filled from a later candidate only. Episodes seen before it are lost.
  function Payload(g: seq<Candidate>): Candidate
    requires g != []
  {
    var k := FirstBest(g);
    g[k].(episode := FirstEpisode(g[k..]))
  }

  function Corroborated(confidence: real, count: nat): real
    requires count >= 1
  {
    var combined := confidence + CORROBORATION_STEP * (count - 1) as real;
    if combined > CORROBORATION_CAP then CORROBORATION_CAP else combined
  }

  predicate YearsDiffer(hintYear: int, year: int) { hintYear != 0 && year != 0 && year != hintYear }

  function Penalised(combined: real, hintYear: int, year: int): real
  {
    if YearsDiffer(hintYear, year) then combined * YEAR_MISMATCH_PENALTY else combined
  }

  function Combine(g: seq<Candidate>, hintYear: int): Candidate
    requires g != []
  {
    var best := Payload(g);
    best.(confidence := Penalised(Corroborated(MaxConfidence(g), |g|), hintYear, best.year))
  }

  function CombineAll(cands: seq<Candidate>, refs: seq<Ref>, hintYear: int): (r: seq<Candidate>)
    requires forall ref :: ref in refs ==> Group(cands, ref) != []
    ensures |r| == |refs|
    ensures forall i :: 0 <= i < |r| ==> r[i] == Combine(Group(cands, refs[i]), hintYear)
  {
    if refs == [] then []
    else [Combine(Group(cands, refs[0]), hintYear)] + CombineAll(cands, refs[1..], hintYear)
  }

  function Merge(cands: seq<Candidate>, hintYear: int): seq<Candidate>
  {
    RefsHaveGroups(cands);
    CombineAll(cands, Refs(cands), hintYear)
  }

  lemma RefsHaveGroups(cands: seq<Candidate>)
    ensures forall ref :: ref in Refs(cands) ==> Group(cands, ref) != []
  {
    forall ref | ref in Refs(cands) ensures Group(cands, ref) != [] { RefHasGroup(cands, ref); }
  }

  // --------------------------------------------------------------- the buckets

  datatype Bucket = Bucket(best: Candidate, count: nat)

  // What the loop does to a bucket that already exists.
  function Absorb(b: Bucket, c: Candidate): Bucket
  {
    var best :=
      if c.confidence > b.best.confidence then c
      else if c.episode.Some? && b.best.episode.None? then b.best.(episode := c.episode)
      else b.best;
    Bucket(best, b.count + 1)
  }

  function BucketOf(g: seq<Candidate>): Bucket
    requires g != []
  {
    var n := |g| - 1;
    if n == 0 then Bucket(g[0], 1) else Absorb(BucketOf(g[..n]), g[n])
  }

  lemma {:induction false} FirstEpisodeSnoc(g: seq<Candidate>, c: Candidate)
    ensures FirstEpisode(g + [c]) == if FirstEpisode(g).Some? then FirstEpisode(g) else c.episode
  {
    if g == [] {
      assert g + [c] == [c] && [c][1..] == [];
    } else {
      FirstEpisodeSnoc(g[1..], c);
      assert (g + [c])[1..] == g[1..] + [c];
    }
  }

  lemma FirstEpisodeOne(c: Candidate)
    ensures FirstEpisode([c]) == c.episode
  {
    assert [c][1..] == [];
  }

  lemma BestSnoc(h: seq<Candidate>, c: Candidate)
    requires h != []
    ensures FirstBest(h + [c]) == if c.confidence > h[FirstBest(h)].confidence then |h| else FirstBest(h)
    ensures MaxConfidence(h + [c]) == if c.confidence > MaxConfidence(h) then c.confidence else MaxConfidence(h)
  {
    assert (h + [c])[..|h|] == h;
  }

  lemma PayloadReplaced(h: seq<Candidate>, c: Candidate)
    requires h != [] && c.confidence > h[FirstBest(h)].confidence
    ensures Payload(h + [c]) == c
  {
    BestSnoc(h, c);
    var g := h + [c];
    assert g[|h|] == c && g[|h|..] == [c];
    FirstEpisodeOne(c);
  }

  lemma EpisodeFromSnoc(h: seq<Candidate>, c: Candidate, k: nat)
    requires k < |h|
    ensures (h + [c])[k] == h[k]
    ensures FirstEpisode((h + [c])[k..]) == if FirstEpisode(h[k..]).Some? then FirstEpisode(h[k..]) else c.episode
  {
    assert (h + [c])[k..] == h[k..] + [c];
    FirstEpisodeSnoc(h[k..], c);
  }

  lemma PayloadKept(h: seq<Candidate>, c: Candidate)
    requires h != [] && c.confidence <= h[FirstBest(h)].confidence
    ensures Payload(h + [c]) ==
            h[FirstBest(h)].(episode := if Payload(h).episode.Some? then Payload(h).episode else c.episode)
  {
    BestSnoc(h, c);
    EpisodeFromSnoc(h, c, FirstBest(h));
  }

  // The greedy bucket holds exactly the declarative payload.
  lemma {:induction false} BucketIsPayload(g: seq<Candidate>)
    requires g != []
    ensures BucketOf(g) == Bucket(Payload(g), |g|)
    ensures MaxConfidence(g) == g[FirstBest(g)].confidence
  {
    var n := |g| - 1;
    if n == 0 {
      assert g == [g[0]] && g[0..] == g;
      FirstEpisodeOne(g[0]);
    } else {
      var h, c := g[..n], g[n];
      BucketIsPayload(h);
      assert g == h + [c];
      BestSnoc(h, c);
      if c.confidence > h[FirstBest(h)].confidence { PayloadReplaced(h, c); } else { PayloadKept(h, c); }
      assert BucketOf(g) == Absorb(BucketOf(h), c);
    }
  }

  lemma BucketSnoc(g: seq<Candidate>, c: Candidate)
    ensures BucketOf(g + [c]) == if g == [] then Bucket(c, 1) else Absorb(BucketOf(g), c)
  {
    assert (g + [c])[..|g|] == g;
  }

  // ------------------------------------------------------------------ the loop

  ghost predicate Bucketed(cands: seq<Candidate>, order: seq<Ref>, buckets: map<Ref, Bucket>)
  {
    && order == Refs(cands)
    && (forall ref :: ref in buckets <==> ref in order)
    && (forall ref :: ref in buckets ==> Group(cands, ref) != [] && buckets[ref] == BucketOf(Group(cands, ref)))
  }

  lemma BucketedStep(cands: seq<Candidate>, c: Candidate, order: seq<Ref>, buckets: map<Ref, Bucket>)
    requires Bucketed(cands, order, buckets)
    ensures var b := if c.ref in buckets then Absorb(buckets[c.ref], c) else Bucket(c, 1);
            Bucketed(cands + [c], if c.ref in buckets then order else order + [c.ref], buckets[c.ref := b])
  {
    RefsSnoc(cands, c);
    RefHasGroup(cands, c.ref);
    BucketSnoc(Group(cands, c.ref), c);
    var b := if c.ref in buckets then Absorb(buckets[c.ref], c) else Bucket(c, 1);
    var buckets' := buckets[c.ref := b];
    forall ref | ref in buckets'
      ensures Group(cands + [c], ref) != [] && buckets'[ref] == BucketOf(Group(cands + [c], ref))
    {
      GroupSnoc(cands, c, ref);
      if ref != c.ref { assert Group(cands, ref) + [] == Group(cands, ref); }
    }
  }

  // What the second loop makes of a bucket.
  function Adjust(b: Bucket, hintYear: int): Candidate
    requires b.count >= 1
  {
    b.best.(confidence := Penalised(Corroborated(b.best.confidence, b.count), hintYear, b.best.year))
  }

  method Finish(b: Bucket, hintYear: int) returns (c: Candidate)
    requires b.count >= 1
    ensures c == Adjust(b, hintYear)
  {
    var combined := b.best.confidence;
    if b.count > 1 { combined := combined + CORROBORATION_STEP * (b.count - 1) as real; }
    if combined > CORROBORATION_CAP { combined := CORROBORATION_CAP; }
    if hintYear != 0 {
      if b.best.year != 0 && b.best.year != hintYear { combined := combined * YEAR_MISMATCH_PENALTY; }
    }
    c := b.best.(confidence := combined);
  }

  lemma MergedBucket(cands: seq<Candidate>, order: seq<Ref>, buckets: map<Ref, Bucket>, hintYear: int, i: nat)
    requires Bucketed(cands, order, buckets) && i < |order|
    ensures order[i] in buckets && buckets[order[i]].count >= 1
    ensures i < |Merge(cands, hintYear)| && Merge(cands, hintYear)[i] == Adjust(buckets[order[i]], hintYear)
  {
    assert order[i] in order;
    BucketIsPayload(Group(cands, order[i]));
  }

  method AddCandidate(c: Candidate, order: seq<Ref>, buckets: map<Ref, Bucket>, ghost before: seq<Candidate>)
    returns (order': seq<Ref>, buckets': map<Ref, Bucket>)
    requires Bucketed(before, order, buckets)
    ensures Bucketed(before + [c], order', buckets')
  {
    BucketedStep(before, c, order, buckets);
    if c.ref !in buckets { return order + [c.ref], buckets[c.ref := Bucket(c, 1)]; }
    order', buckets' := order, buckets[c.ref := Absorb(buckets[c.ref], c)];
  }

  method MergeCandidates(cands: seq<Candidate>, hintYear: int) returns (out: seq<Candidate>)
    ensures out == Merge(cands, hintYear)
  {
    var order: seq<Ref>, buckets: map<Ref, Bucket> := [], map[];
    for i := 0 to |cands|
      invariant Bucketed(cands[..i], order, buckets)
    {
      assert cands[..i + 1] == cands[..i] + [cands[i]];
      order, buckets := AddCandidate(cands[i], order, buckets, cands[..i]);
    }
    assert cands[..|cands|] == cands;
    BucketsReady(cands, order, buckets);
    out := FinishAll(order, buckets, hintYear);
    FinishedIsMerge(cands, order, buckets, hintYear, out);
  }

  // Every ordered identity has a non-empty bucket.
  predicate Ready(order: seq<Ref>, buckets: map<Ref, Bucket>)
  {
    forall i :: 0 <= i < |order| ==> order[i] in buckets && buckets[order[i]].count >= 1
  }

  lemma BucketsReady(cands: seq<Candidate>, order: seq<Ref>, buckets: map<Ref, Bucket>)
    requires Bucketed(cands, order, buckets)
    ensures Ready(order, buckets)
  {
    forall i | 0 <= i < |order| ensures order[i] in buckets && buckets[order[i]].count >= 1 {
      MergedBucket(cands, order, buckets, 0, i);
    }
  }

  predicate Finished(order: seq<Ref>, buckets: map<Ref, Bucket>, hintYear: int, out: seq<Candidate>)
    requires Ready(order, buckets)
  {
    |out| == |order| && forall i :: 0 <= i < |out| ==> out[i] == Adjust(buckets[order[i]], hintYear)
  }

  lemma FinishedIsMerge(cands: seq<Candidate>, order: seq<Ref>, buckets: map<Ref, Bucket>, hintYear: int, out: seq<Candidate>)
    requires Bucketed(cands, order, buckets) && Ready(order, buckets) && Finished(order, buckets, hintYear, out)
    ensures out == Merge(cands, hintYear)
  {
    forall i | 0 <= i < |out| ensures i < |Merge(cands, hintYear)| && out[i] == Merge(cands, hintYear)[i] {
      MergedBucket(cands, order, buckets, hintYear, i);
    }
    assert |Merge(cands, hintYear)| == |order|;
  }

  method FinishAll(order: seq<Ref>, buckets: map<Ref, Bucket>, hintYear: int) returns (out: seq<Candidate>)
    requires Ready(order, buckets)
    ensures Finished(order, buckets, hintYear, out)
  {
    out := [];
    for i := 0 to |order|
      invariant |out| == i && forall k :: 0 <= k < i ==> out[k] == Adjust(buckets[order[k]], hintYear)
    {
      var c := Finish(buckets[order[i]], hintYear);
      out := out + [c];
    }
  }

  // ------------------------------------------------------------- what it means

  lemma {:induction false} RefsDistinct(cands: seq<Candidate>)
    ensures forall i, j :: 0 <= i < j < |Refs(cands)| ==> Refs(cands)[i] != Refs(cands)[j]
  {
    if cands != [] {
      RefsDistinct(cands[..|cands| - 1]);
    }
  }

  // First-seen order: the identities of any prefix of the input come first.
  lemma {:induction false} RefsInFirstSeenOrder(cands: seq<Candidate>, k: nat)
    requires k <= |cands|
    ensures Refs(cands[..k]) <= Refs(cands)
  {
    if k < |cands| {
      var n := |cands| - 1;
      RefsInFirstSeenOrder(cands[..n], k);
      assert cands[..n][..k] == cands[..k];
    } else {
      assert cands[..k] == cands;
    }
  }

  lemma {:induction false} GroupMember(cands: seq<Candidate>, ref: Ref, c: Candidate)
    ensures c in Group(cands, ref) <==> c in cands && c.ref == ref
  {
    if cands != [] {
      GroupMember(cands[..|cands| - 1], ref, c);
      assert cands == cands[..|cands| - 1] + [cands[|cands| - 1]];
    }
  }

  lemma RefNamed(cands: seq<Candidate>, ref: Ref)
    ensures ref in Refs(cands) <==> exists c :: c in cands && c.ref == ref
  {
    var g := Group(cands, ref);
    RefHasGroup(cands, ref);
    if g != [] { GroupMember(cands, ref, g[0]); }
    forall c | c in cands && c.ref == ref ensures g != [] { GroupMember(cands, ref, c); }
  }

  // The merged list names every identity of the input, and no other, exactly once.
  lemma MergedIdentities(cands: seq<Candidate>, hintYear: int)
    ensures |Merge(cands, hintYear)| == |Refs(cands)|
    ensures forall i :: 0 <= i < |Refs(cands)| ==> Merge(cands, hintYear)[i].ref == Refs(cands)[i]
    ensures forall i, j :: 0 <= i < j < |Refs(cands)| ==> Refs(cands)[i] != Refs(cands)[j]
    ensures forall ref :: ref in Refs(cands) <==> exists c :: c in cands && c.ref == ref
  {
    RefsDistinct(cands);
    RefsHaveGroups(cands);
    forall i | 0 <= i < |Refs(cands)| ensures Merge(cands, hintYear)[i].ref == Refs(cands)[i] {
      var g := Group(cands, Refs(cands)[i]);
      assert Refs(cands)[i] in Refs(cands);
      GroupMember(cands, Refs(cands)[i], g[FirstBest(g)]);
    }
    forall ref ensures ref in Refs(cands) <==> exists c :: c in cands && c.ref == ref { RefNamed(cands, ref); }
  }

  lemma {:induction false} MaxConfidenceIsMax(g: seq<Candidate>)
    requires g != []
    ensures forall i :: 0 <= i < |g| ==> g[i].confidence <= MaxConfidence(g)
    ensures exists i :: 0 <= i < |g| && g[i].confidence == MaxConfidence(g)
  {
    var n := |g| - 1;
    assert n == 0 ==> g[0].confidence == MaxConfidence(g);
    if n > 0 {
      MaxConfidenceIsMax(g[..n]);
      var i :| 0 <= i < n && g[..n][i].confidence == MaxConfidence(g[..n]);
      assert g[i].confidence == MaxConfidence(g[..n]);
    }
  }

  lemma {:induction false} FirstBestIsFirst(g: seq<Candidate>)
    requires g != []
    ensures forall i :: 0 <= i < FirstBest(g) ==> g[i].confidence < MaxConfidence(g)
  {
    var n := |g| - 1;
    BucketIsPayload(g);
    if n > 0 {
      FirstBestIsFirst(g[..n]);
      BucketIsPayload(g[..n]);
      MaxConfidenceIsMax(g[..n]);
      assert forall i :: 0 <= i < n ==> g[..n][i] == g[i];
    }
  }

  // An episode is not always kept: the merged candidate carries one exactly when
  // the first top-confidence candidate or one after it does. Episodes that only
  // weaker, earlier candidates carried are lost.
  lemma {:induction false} EpisodeKept(g: seq<Candidate>)
    ensures FirstEpisode(g).Some? <==> exists c :: c in g && c.episode.Some?
  {
    if g != [] {
      EpisodeKept(g[1..]);
      assert g == [g[0]] + g[1..];
    }
  }

  lemma MergedEpisode(cands: seq<Candidate>, hintYear: int, i: nat)
    requires i < |Merge(cands, hintYear)|
    ensures Group(cands, Refs(cands)[i]) != []
    ensures var g := Group(cands, Refs(cands)[i]);
            Merge(cands, hintYear)[i].episode.Some? <==> exists c :: c in g[FirstBest(g)..] && c.episode.Some?
  {
    RefsHaveGroups(cands);
    assert Refs(cands)[i] in Refs(cands);
    var g := Group(cands, Refs(cands)[i]);
    EpisodeKept(g[FirstBest(g)..]);
  }

  // Each confidence is min(0.99, max + 0.05 * (n - 1)), penalised exactly when the
  // surviving payload's year and the hint are both known and differ.
  lemma MergedConfidence(cands: seq<Candidate>, hintYear: int, i: nat)
    requires i < |Merge(cands, hintYear)|
    ensures Group(cands, Refs(cands)[i]) != []
    ensures var g := Group(cands, Refs(cands)[i]);
            var combined := MaxConfidence(g) + 0.05 * (|g| - 1) as real;
            Merge(cands, hintYear)[i].confidence ==
            (if combined > 0.99 then 0.99 else combined)
            * (if hintYear != 0 && g[FirstBest(g)].year != 0 && g[FirstBest(g)].year != hintYear then 0.9 else 1.0)
  {
    RefsHaveGroups(cands);
    assert Refs(cands)[i] in Refs(cands);
  }

  // k is the first candidate from the best one on that carries an episode.
  predicate Carries(g: seq<Candidate>, k: nat)
    requires g != []
  {
    FirstBest(g) <= k < |g| && g[k].episode.Some? && forall j :: FirstBest(g) <= j < k ==> g[j].episode.None?
  }

  // Everything else that is shown is the best candidate's, and the episode is that of
  // the first one from it on that carries any.
  lemma MergedFields(cands: seq<Candidate>, hintYear: int, i: nat)
    requires i < |Merge(cands, hintYear)|
    ensures Group(cands, Refs(cands)[i]) != []
    ensures var g, c := Group(cands, Refs(cands)[i]), Merge(cands, hintYear)[i];
            var best := g[FirstBest(g)];
            && c.title == best.title && c.year == best.year && c.kind == best.kind && c.poster == best.poster
            && c.edition == best.edition && c.ref == best.ref
            && forall k: nat :: Carries(g, k) ==> c.episode == g[k].episode
  {
    RefsHaveGroups(cands);
    assert Refs(cands)[i] in Refs(cands);
    PayloadFields(Group(cands, Refs(cands)[i]));
  }

  lemma PayloadFields(g: seq<Candidate>)
    requires g != []
    ensures var c, best := Payload(g), g[FirstBest(g)];
            && c.title == best.title && c.year == best.year && c.kind == best.kind && c.poster == best.poster
            && c.edition == best.edition && c.ref == best.ref
            && forall k: nat :: Carries(g, k) ==> c.episode == g[k].episode
  {
    forall k: nat | Carries(g, k) ensures FirstEpisode(g[FirstBest(g)..]) == g[k].episode {
      FirstEpisodeAt(g[FirstBest(g)..], k - FirstBest(g));
    }
  }

  lemma {:induction false} FirstEpisodeAt(g: seq<Candidate>, k: nat)
    requires k < |g| && g[k].episode.Some? && forall j :: 0 <= j < k ==> g[j].episode.None?
    ensures FirstEpisode(g) == g[k].episode
  {
    if k > 0 { FirstEpisodeAt(g[1..], k - 1); }
  }

  lemma {:induction false} GroupCount(cands: seq<Candidate>, ref: Ref, c: Candidate)
    ensures multiset(Group(cands, ref))[c] == if c.ref == ref then multiset(cands)[c] else 0
  {
    if cands != [] {
      var n := |cands| - 1;
      assert cands == cands[..n] + [cands[n]];
      GroupCount(cands[..n], ref, c);
    }
  }

  lemma GroupElements(a: seq<Candidate>, b: seq<Candidate>, ref: Ref)
    requires multiset(a) == multiset(b)
    ensures multiset(Group(a, ref)) == multiset(Group(b, ref))
    ensures |Group(a, ref)| == |Group(b, ref)|
  {
    forall c ensures multiset(Group(a, ref))[c] == multiset(Group(b, ref))[c] {
      GroupCount(a, ref, c);
      GroupCount(b, ref, c);
    }
    assert |multiset(Group(a, ref))| == |Group(a, ref)| && |multiset(Group(b, ref))| == |Group(b, ref)|;
  }

  lemma MaxOfElements(g: seq<Candidate>, h: seq<Candidate>)
    requires g != [] && h != [] && multiset(g) == multiset(h)
    ensures MaxConfidence(g) == MaxConfidence(h)
  {
    MaxConfidenceIsMax(g);
    MaxConfidenceIsMax(h);
    var i :| 0 <= i < |g| && g[i].confidence == MaxConfidence(g);
    var j :| 0 <= j < |h| && h[j].confidence == MaxConfidence(h);
    assert g[i] in multiset(h) && h[j] in multiset(g);
  }

  // The confidence that merging gives an identity, if it is named at all.
  function ConfidenceOf(cands: seq<Candidate>, hintYear: int, ref: Ref): Option<real>
  {
    if Group(cands, ref) == [] then None else Some(Combine(Group(cands, ref), hintYear).confidence)
  }

  // Without a year hint confidences do not depend on the order of the candidates.
  lemma ConfidenceIgnoresOrder(a: seq<Candidate>, b: seq<Candidate>, ref: Ref)
    requires multiset(a) == multiset(b)
    ensures ConfidenceOf(a, 0, ref) == ConfidenceOf(b, 0, ref)
  {
    GroupElements(a, b, ref);
    if Group(a, ref) != [] { MaxOfElements(Group(a, ref), Group(b, ref)); }
  }

  // ---------------------------------------------------------- with a year hint

  // The candidates that reach the top confidence agree on whether their year
  // differs from the hint.
  predicate TopYearsAgree(g: seq<Candidate>, hintYear: int)
    requires g != []
  {
    forall i, j :: 0 <= i < |g| && 0 <= j < |g| && g[i].confidence == g[j].confidence == MaxConfidence(g) ==>
      YearsDiffer(hintYear, g[i].year) == YearsDiffer(hintYear, g[j].year)
  }

  lemma AgreedYears(g: seq<Candidate>, h: seq<Candidate>, hintYear: int)
    requires g != [] && h != [] && multiset(g) == multiset(h) && TopYearsAgree(g, hintYear)
    ensures YearsDiffer(hintYear, g[FirstBest(g)].year) == YearsDiffer(hintYear, h[FirstBest(h)].year)
  {
    MaxOfElements(g, h);
    BucketIsPayload(g);
    BucketIsPayload(h);
    var c := h[FirstBest(h)];
    assert c in multiset(g);
    var i :| 0 <= i < |g| && g[i] == c;
    assert g[i].confidence == g[FirstBest(g)].confidence == MaxConfidence(g);
  }

  lemma {:induction false} FirstIsBest(g: seq<Candidate>)
    requires g != [] && g[0].confidence == MaxConfidence(g)
    ensures FirstBest(g) == 0
  {
    var n := |g| - 1;
    if n > 0 {
      MaxConfidenceIsMax(g);
      MaxConfidenceIsMax(g[..n]);
      assert g[..n][0] == g[0];
      FirstIsBest(g[..n]);
    }
  }

  lemma {:induction false} GroupSplit(a: seq<Candidate>, b: seq<Candidate>, ref: Ref)
    ensures Group(a + b, ref) == Group(a, ref) + Group(b, ref)
  {
    if b == [] {
      assert a + b == a;
    } else {
      var n := |b| - 1;
      GroupSplit(a, b[..n], ref);
      assert b == b[..n] + [b[n]];
      Associate(a, b[..n], [b[n]]);
      GroupSnoc(a + b[..n], b[n], ref);
      GroupSnoc(b[..n], b[n], ref);
      Associate(Group(a, ref), Group(b[..n], ref), Only(b[n], ref));
    }
  }

  // The same candidates with c moved to the front.
  lemma Promote(cands: seq<Candidate>, c: Candidate) returns (moved: seq<Candidate>)
    requires c in cands
    ensures multiset(moved) == multiset(cands) && moved != [] && moved[0] == c
  {
    var k :| 0 <= k < |cands| && cands[k] == c;
    moved := [c] + (cands[..k] + cands[k + 1..]);
    assert cands == cands[..k] + [c] + cands[k + 1..];
  }

  lemma PromotedGroup(cands: seq<Candidate>, c: Candidate) returns (moved: seq<Candidate>)
    requires c in Group(cands, c.ref)
    ensures multiset(moved) == multiset(cands)
    ensures Group(moved, c.ref) != [] && Group(moved, c.ref)[0] == c
  {
    GroupMember(cands, c.ref, c);
    moved := Promote(cands, c);
    assert moved == [c] + moved[1..];
    GroupSplit([c], moved[1..], c.ref);
    assert [c][..0] == [];
    assert Group([c], c.ref) == [c];
  }

  // Promoting a top candidate makes its year the one compared.
  lemma PromotedYearCounts(cands: seq<Candidate>, c: Candidate, hintYear: int) returns (moved: seq<Candidate>)
    requires c in Group(cands, c.ref) && c.confidence == MaxConfidence(Group(cands, c.ref))
    ensures multiset(moved) == multiset(cands)
    ensures ConfidenceOf(moved, hintYear, c.ref) ==
            Some(Penalised(Corroborated(c.confidence, |Group(cands, c.ref)|), hintYear, c.year))
  {
    moved := PromotedGroup(cands, c);
    GroupElements(cands, moved, c.ref);
    MaxOfElements(Group(cands, c.ref), Group(moved, c.ref));
    FirstIsBest(Group(moved, c.ref));
  }

  ghost predicate OrderIrrelevant(cands: seq<Candidate>, hintYear: int, ref: Ref)
  {
    forall other :: multiset(other) == multiset(cands) ==>
      ConfidenceOf(other, hintYear, ref) == ConfidenceOf(cands, hintYear, ref)
  }

  lemma AgreementSuffices(cands: seq<Candidate>, hintYear: int, ref: Ref)
    requires Group(cands, ref) != []
    requires TopYearsAgree(Group(cands, ref), hintYear)
             || Corroborated(MaxConfidence(Group(cands, ref)), |Group(cands, ref)|) == 0.0
    ensures OrderIrrelevant(cands, hintYear, ref)
  {
    var g := Group(cands, ref);
    forall other | multiset(other) == multiset(cands)
      ensures ConfidenceOf(other, hintYear, ref) == ConfidenceOf(cands, hintYear, ref)
    {
      GroupElements(cands, other, ref);
      MaxOfElements(g, Group(other, ref));
      if TopYearsAgree(g, hintYear) { AgreedYears(g, Group(other, ref), hintYear); }
    }
  }

  lemma DisagreementShows(cands: seq<Candidate>, hintYear: int, x: Candidate, y: Candidate)
    requires x.ref == y.ref && x in Group(cands, x.ref) && y in Group(cands, x.ref)
    requires x.confidence == y.confidence == MaxConfidence(Group(cands, x.ref))
    requires YearsDiffer(hintYear, x.year) && !YearsDiffer(hintYear, y.year)
    requires Corroborated(x.confidence, |Group(cands, x.ref)|) != 0.0
    ensures !OrderIrrelevant(cands, hintYear, x.ref)
  {
    var a := PromotedYearCounts(cands, x, hintYear);
    var b := PromotedYearCounts(cands, y, hintYear);
    assert ConfidenceOf(a, hintYear, x.ref) != ConfidenceOf(b, hintYear, x.ref);
  }

  // With a hint, order is irrelevant exactly when those years agree (or there is
  // no confidence left to penalise): of several equally confident candidates the
  // first one's year is compared.
  lemma HintedConfidenceIgnoresOrder(cands: seq<Candidate>, hintYear: int, ref: Ref)
    requires Group(cands, ref) != []
    ensures OrderIrrelevant(cands, hintYear, ref) <==>
            (TopYearsAgree(Group(cands, ref), hintYear)
             || Corroborated(MaxConfidence(Group(cands, ref)), |Group(cands, ref)|) == 0.0)
  {
    var g := Group(cands, ref);
    if TopYearsAgree(g, hintYear) || Corroborated(MaxConfidence(g), |g|) == 0.0 {
      AgreementSuffices(cands, hintYear, ref);
    } else {
      var i, j :| 0 <= i < |g| && 0 <= j < |g| && g[i].confidence == g[j].confidence == MaxConfidence(g)
                  && YearsDiffer(hintYear, g[i].year) != YearsDiffer(hintYear, g[j].year);
      GroupMember(cands, ref, g[i]);
      GroupMember(cands, ref, g[j]);
      if YearsDiffer(hintYear, g[i].year) {
        DisagreementShows(cands, hintYear, g[i], g[j]);
      } else {
        DisagreementShows(cands, hintYear, g[j], g[i]);
      }
    }
  }

  // --------------------------------------------------------------- merging twice

  // One candidate per identity, within the cap.
  predicate Merged(cands: seq<Candidate>)
  {
    && (forall i, j :: 0 <= i < j < |cands| ==> cands[i].ref != cands[j].ref)
    && (forall i :: 0 <= i < |cands| ==> cands[i].confidence <= CORROBORATION_CAP)
  }

  lemma {:induction false} GroupOfMerged(cands: seq<Candidate>, i: nat)
    requires Merged(cands) && i < |cands|
    ensures Group(cands, cands[i].ref) == [cands[i]]
  {
    var n := |cands| - 1;
    if i < n {
      GroupOfMerged(cands[..n], i);
      assert cands[..n][i] == cands[i];
    } else {
      var g := Group(cands[..n], cands[n].ref);
      if g != [] {
        GroupMember(cands[..n], cands[n].ref, g[0]);
        assert false;
      }
    }
  }

  lemma {:induction false} RefsOfMerged(cands: seq<Candidate>)
    requires Merged(cands)
    ensures |Refs(cands)| == |cands|
    ensures forall i :: 0 <= i < |cands| ==> Refs(cands)[i] == cands[i].ref
  {
    if cands != [] {
      var n := |cands| - 1;
      RefsOfMerged(cands[..n]);
      RefNamed(cands[..n], cands[n].ref);
    }
  }

  lemma CombineOne(c: Candidate)
    requires c.confidence <= CORROBORATION_CAP
    ensures Combine([c], 0) == c
  {
    FirstEpisodeOne(c);
    assert [c][0..] == [c];
  }

  // Merging a merged list again, without a hint, changes nothing.
  lemma MergeIdempotent(cands: seq<Candidate>)
    ensures Merge(Merge(cands, 0), 0) == Merge(cands, 0)
  {
    var out := Merge(cands, 0);
    MergedIdentities(cands, 0);
    assert Merged(out);
    RefsOfMerged(out);
    MergedIdentities(out, 0);
    forall i | 0 <= i < |out| ensures Merge(out, 0)[i] == out[i] {
      GroupOfMerged(out, i);
      CombineOne(out[i]);
    }
  }
}
