// What the selection engine guarantees: a total preference order, picks that do
// not depend on input order, bounded upgrade runs and the phase ratchet.
module QualityOrder {
  import opened Arithmetic
  import opened Choosing
  import opened Numbers
  import opened Options
  import opened Ordering
  import opened QualityProfile
  import opened Stability
  import R = Rules

  // --------------------------------------------------- when the order is total

  predicate Listed(p: Profile, a: Evaluation) { Rank(p, a.release.bin) < |p.bins| }

  // The keys before the size say nothing.
  predicate Tied(p: Profile, a: Evaluation, b: Evaluation)
  {
    Rank(p, a.release.bin) == Rank(p, b.release.bin) && a.score == b.score && a.release.seeders == b.release.seeders
  }

  // Whether x goes before y when distances are measured with one release's band
  // and runtime.
  predicate PreferredBy(p: Profile, yardstick: Release, x: Release, y: Release)
  {
    if Sized(p, yardstick) && DistanceFor(p, yardstick, x) != DistanceFor(p, yardstick, y)
    then DistanceFor(p, yardstick, x) < DistanceFor(p, yardstick, y)
    else if x.size != y.size then x.size < y.size
    else Less(x.guid, y.guid)
  }

  // Of two releases with different GUIDs exactly one is better, unless the first
  // three keys tie and the two, each taken as the yardstick, disagree on the sizes.
  lemma BetterContradicts(p: Profile, a: Evaluation, b: Evaluation)
    requires a.release.guid != b.release.guid
    ensures Better(p, a, b) == Better(p, b, a) <==>
              Tied(p, a, b) &&
              PreferredBy(p, a.release, a.release, b.release) != PreferredBy(p, b.release, a.release, b.release)
  {
    LessTrichotomy(a.release.guid, b.release.guid);
  }

  // One yardstick serves both when they tie: a listed bin has one rank, so only the
  // runtime can differ. Season packs of different coverage have different runtimes.
  predicate Commensurable(p: Profile, a: Evaluation, b: Evaluation)
  {
    Tied(p, a, b) ==> a.release.runtime == b.release.runtime
  }

  lemma BetterTrichotomy(p: Profile, a: Evaluation, b: Evaluation)
    requires Listed(p, a) && Listed(p, b) && Commensurable(p, a, b) && a.release.guid != b.release.guid
    ensures Better(p, a, b) != Better(p, b, a)
  {
    BetterContradicts(p, a, b);
  }

  lemma BetterIrreflexive(p: Profile, a: Evaluation)
    ensures !Better(p, a, a)
  {
    LessIrreflexive(a.release.guid);
  }

  lemma BetterTransitive(p: Profile, a: Evaluation, b: Evaluation, c: Evaluation)
    requires Listed(p, a) && Listed(p, b) && Listed(p, c)
    requires Commensurable(p, a, b) && Commensurable(p, b, c)
    requires Better(p, a, b) && Better(p, b, c)
    ensures Better(p, a, c)
  {
    if Less(a.release.guid, b.release.guid) && Less(b.release.guid, c.release.guid) {
      LessTransitive(a.release.guid, b.release.guid, c.release.guid);
    }
  }

  // ------------------------------------------------ when the pick ignores order

  predicate Passes(p: Profile, reg: R.Registry, r: Release) { GateVerdict(p, reg, r, R.Search).None? }

  // The release that Pick grabs, if any.
  function PickedRelease(p: Profile, reg: R.Registry, releases: seq<Release>): Option<Release>
  {
    var evals := EvaluateAll(p, reg, releases);
    var best := BestOf(p, evals, |evals|);
    if best.None? then None else Some(evals[best.value].release)
  }

  function Passing(p: Profile, reg: R.Registry): Release -> bool
  {
    r => Passes(p, reg, r)
  }

  function Preference(p: Profile, reg: R.Registry): (Release, Release) -> bool
  {
    (a, b) => Better(p, Evaluate(p, reg, a), Evaluate(p, reg, b))
  }

  // Pick is a scan for the best of the passing releases.
  lemma PickChooses(p: Profile, reg: R.Registry, releases: seq<Release>)
    ensures PickedRelease(p, reg, releases) == Chosen(Passing(p, reg), Preference(p, reg), releases)
  {
    var evals, ok, better := EvaluateAll(p, reg, releases), Passing(p, reg), Preference(p, reg);
    assert evals[..|evals|] == evals;
    forall i | 0 <= i < |evals| ensures evals[i].Passed() == ok(releases[i]) && evals[i].release == releases[i] {
      PassedMeansPasses(p, reg, releases[i]);
    }
    forall i, j | 0 <= i < |evals| && 0 <= j < |evals| ensures BetterBy(p)(evals[i], evals[j]) == better(releases[i], releases[j]) {
    }
    ChosenImage(ok, better, releases, HasPassed(), BetterBy(p), evals);
  }

  lemma PassedMeansPasses(p: Profile, reg: R.Registry, r: Release)
    ensures Evaluate(p, reg, r).Passed() == Passes(p, reg, r)
    ensures Evaluate(p, reg, r).release == r && Evaluate(p, reg, r).disposition == Rejected
  {
  }

  lemma PreferenceIrreflexive(p: Profile, reg: R.Registry)
    ensures forall r :: !Preference(p, reg)(r, r)
  {
    forall r ensures !Preference(p, reg)(r, r) { BetterIrreflexive(p, Evaluate(p, reg, r)); }
  }

  ghost predicate PickIgnoresPermutation(p: Profile, reg: R.Registry, releases: seq<Release>)
  {
    forall order :: multiset(order) == multiset(releases) ==>
      PickedRelease(p, reg, order) == PickedRelease(p, reg, releases)
  }

  // For any releases and runtimes: the pick is the same in every order exactly when
  // nothing passes or some passing release is better than every other one while none
  // of those is better than it; that one is then picked.
  lemma PickOrderExactly(p: Profile, reg: R.Registry, releases: seq<Release>)
    ensures PickIgnoresPermutation(p, reg, releases) <==>
              (forall i :: 0 <= i < |releases| ==> !Passes(p, reg, releases[i]))
              || exists r :: Champion(Passing(p, reg), Preference(p, reg), releases, r)
    ensures forall r :: Champion(Passing(p, reg), Preference(p, reg), releases, r) ==>
              PickedRelease(p, reg, releases) == Some(r)
  {
    var ok, better := Passing(p, reg), Preference(p, reg);
    PreferenceIrreflexive(p, reg);
    ChoiceExactly(ok, better, releases);
    forall order ensures PickedRelease(p, reg, order) == Chosen(ok, better, order) { PickChooses(p, reg, order); }
  }

  // Passing releases that tie on the first three keys share a runtime, and a GUID
  // names one of them.
  predicate Settled(p: Profile, reg: R.Registry, releases: seq<Release>)
  {
    forall a, b :: a in releases && b in releases && Passes(p, reg, a) && Passes(p, reg, b)
                   && Tied(p, Evaluate(p, reg, a), Evaluate(p, reg, b)) ==>
      a.runtime == b.runtime && (a.guid == b.guid ==> a == b)
  }

  lemma PassersListed(p: Profile, reg: R.Registry, r: Release)
    requires Passes(p, reg, r)
    ensures Listed(p, Evaluate(p, reg, r))
  {
  }

  lemma UntiedTrichotomy(p: Profile, a: Evaluation, b: Evaluation)
    requires !Tied(p, a, b)
    ensures Better(p, a, b) != Better(p, b, a)
  {
  }

  lemma SettledTotal(p: Profile, reg: R.Registry, releases: seq<Release>)
    requires Settled(p, reg, releases)
    ensures TotalOn(Passing(p, reg), Preference(p, reg), releases)
  {
    var ok, better := Passing(p, reg), Preference(p, reg);
    forall a, b | a in releases && b in releases && ok(a) && ok(b) && a != b ensures better(a, b) != better(b, a) {
      var ea, eb := Evaluate(p, reg, a), Evaluate(p, reg, b);
      PassersListed(p, reg, a);
      PassersListed(p, reg, b);
      if Tied(p, ea, eb) { BetterTrichotomy(p, ea, eb); } else { UntiedTrichotomy(p, ea, eb); }
    }
    forall a, b, c | a in releases && b in releases && c in releases && ok(a) && ok(b) && ok(c) && better(a, b) && better(b, c)
      ensures better(a, c)
    {
      PassersListed(p, reg, a);
      PassersListed(p, reg, b);
      PassersListed(p, reg, c);
      BetterTransitive(p, Evaluate(p, reg, a), Evaluate(p, reg, b), Evaluate(p, reg, c));
    }
  }

  // Pick grabs the unique maximum of the releases that pass the gate.
  lemma PickIsMaximum(p: Profile, reg: R.Registry, releases: seq<Release>, r: Release)
    requires Settled(p, reg, releases) && r in releases && Passes(p, reg, r)
    ensures PickedRelease(p, reg, releases) == Some(r) <==>
            forall x :: x in releases && Passes(p, reg, x) && x != r ==> Better(p, Evaluate(p, reg, r), Evaluate(p, reg, x))
  {
    var ok, better := Passing(p, reg), Preference(p, reg);
    SettledTotal(p, reg, releases);
    PickChooses(p, reg, releases);
    ChosenIsMaximum(ok, better, releases, r);
    assert forall x :: ok(x) == Passes(p, reg, x);
    assert forall x :: better(r, x) == Better(p, Evaluate(p, reg, r), Evaluate(p, reg, x));
  }

  // So every permutation of settled candidates yields the same pick.
  lemma PickIgnoresOrder(p: Profile, reg: R.Registry, releases: seq<Release>)
    requires Settled(p, reg, releases)
    ensures PickIgnoresPermutation(p, reg, releases)
  {
    var ok, better := Passing(p, reg), Preference(p, reg);
    SettledTotal(p, reg, releases);
    PickOrderExactly(p, reg, releases);
    ChosenFrom(ok, better, releases);
    var chosen := Chosen(ok, better, releases);
    if chosen.Some? { ChosenIsMaximum(ok, better, releases, chosen.value); }
  }

  // ------------------------------------------------- what the pick is, key by key

  // No worse than b by bin, then score, then seeders.
  predicate AtLeast(p: Profile, a: Evaluation, b: Evaluation)
  {
    && Rank(p, a.release.bin) <= Rank(p, b.release.bin)
    && (Rank(p, a.release.bin) == Rank(p, b.release.bin) ==> a.score >= b.score)
    && (Rank(p, a.release.bin) == Rank(p, b.release.bin) && a.score == b.score ==> a.release.seeders >= b.release.seeders)
  }

  lemma {:induction false} BestAtLeast(p: Profile, evals: seq<Evaluation>, n: nat, i: nat)
    requires i < n <= |evals| && evals[i].Passed()
    ensures BestOf(p, evals, n).Some? && AtLeast(p, evals[BestOf(p, evals, n).value], evals[i])
  {
    BestOfStep(p, evals, n - 1);
    if i < n - 1 { BestAtLeast(p, evals, n - 1, i); }
  }

  // A preferred size applies to the release: its band has one, and its runtime is known.
  predicate HasPreference(p: Profile, r: Release)
  {
    r.bin in p.sizes && p.sizes[r.bin].preferredPerMinute > 0 && r.runtime.Some? && r.runtime.value > 0
  }

  // No worse by distance from the preferred size of a's band, then size, then GUID.
  predicate SizedAtLeast(p: Profile, a: Release, b: Release)
  {
    var closer := HasPreference(p, a) && DistanceFor(p, a, a) < DistanceFor(p, a, b);
    && (HasPreference(p, a) ==> DistanceFor(p, a, a) <= DistanceFor(p, a, b))
    && (!closer ==> a.size <= b.size)
    && (!closer && a.size == b.size ==> !Less(b.guid, a.guid))
  }

  lemma SizedTransitive(p: Profile, a: Release, b: Release, c: Release)
    requires a.bin == b.bin && a.runtime == b.runtime && SizedAtLeast(p, a, b) && SizedAtLeast(p, b, c)
    ensures SizedAtLeast(p, a, c)
  {
    if !Less(b.guid, a.guid) && !Less(c.guid, b.guid) { AtMostTransitive(a.guid, b.guid, c.guid); }
  }

  // The passing ones among the first n that tie with e have its runtime.
  predicate TiedShareRuntime(p: Profile, evals: seq<Evaluation>, n: nat, e: Evaluation)
    requires n <= |evals|
  {
    forall i :: 0 <= i < n && evals[i].Passed() && Tied(p, evals[i], e) ==>
      evals[i].release.runtime == e.release.runtime && evals[i].release.bin == e.release.bin
  }

  lemma BetterSized(p: Profile, a: Evaluation, b: Evaluation)
    requires Tied(p, a, b) && a.release.runtime == b.release.runtime && a.release.bin == b.release.bin
    ensures Better(p, a, b) ==> SizedAtLeast(p, a.release, b.release)
    ensures !Better(p, a, b) ==> SizedAtLeast(p, b.release, a.release)
  {
    LessTrichotomy(a.release.guid, b.release.guid);
  }

  lemma {:induction false} BestSized(p: Profile, evals: seq<Evaluation>, n: nat, i: nat)
    requires i < n <= |evals| && evals[i].Passed() && BestOf(p, evals, n).Some?
    requires TiedShareRuntime(p, evals, n, evals[BestOf(p, evals, n).value]) && Tied(p, evals[i], evals[BestOf(p, evals, n).value])
    ensures SizedAtLeast(p, evals[BestOf(p, evals, n).value].release, evals[i].release)
  {
    var best, before, e := evals[BestOf(p, evals, n).value], BestOf(p, evals, n - 1), evals[n - 1];
    BestOfStep(p, evals, n - 1);
    if i == n - 1 {
      if before.Some? { BetterSized(p, e, best); }
      LessIrreflexive(e.release.guid);
    } else {
      BestAtLeast(p, evals, n - 1, i);
      var b := evals[before.value];
      if BestOf(p, evals, n) == Some(n - 1) {
        TieDisplaced(p, e, b, evals[i]);
        assert TiedShareRuntime(p, evals, n - 1, b);
        BestSized(p, evals, n - 1, i);
        BetterSized(p, e, b);
        SizedTransitive(p, e.release, b.release, evals[i].release);
      } else {
        BestSized(p, evals, n - 1, i);
      }
    }
  }

  // What is better than b, and ties with something b is no worse than, ties with b.
  lemma TieDisplaced(p: Profile, e: Evaluation, b: Evaluation, x: Evaluation)
    requires Better(p, e, b) && AtLeast(p, b, x) && Tied(p, x, e)
    ensures Tied(p, b, e) && Tied(p, x, b)
  {
  }

  // Key by key: no release that passes is of a better bin than the picked one; none of
  // its bin scores higher; none of its bin and score has more seeders. And if those
  // that tie with it so far share its runtime, none of them is closer to the preferred
  // size, or then smaller, or then of a smaller GUID.
  lemma PickPrefers(p: Profile, reg: R.Registry, releases: seq<Release>, x: Release)
    requires x in releases && Passes(p, reg, x)
    ensures PickedRelease(p, reg, releases).Some?
    ensures var r := PickedRelease(p, reg, releases).value;
            && r in releases && Passes(p, reg, r)
            && Rank(p, r.bin) <= Rank(p, x.bin)
            && (Rank(p, r.bin) == Rank(p, x.bin) ==> Score(p, reg, r, R.Search) >= Score(p, reg, x, R.Search))
            && (Rank(p, r.bin) == Rank(p, x.bin) && Score(p, reg, r, R.Search) == Score(p, reg, x, R.Search) ==> r.seeders >= x.seeders)
            && (TiesShareRuntime(p, reg, releases, r) && Ties(p, reg, x, r) ==> SizedAtLeast(p, r, x))
  {
    var evals := EvaluateAll(p, reg, releases);
    var i :| 0 <= i < |releases| && releases[i] == x;
    PassedMeansPasses(p, reg, x);
    BestAtLeast(p, evals, |evals|, i);
    var k := BestOf(p, evals, |evals|).value;
    PassedMeansPasses(p, reg, releases[k]);
    if TiesShareRuntime(p, reg, releases, releases[k]) && Ties(p, reg, x, releases[k]) {
      forall j | 0 <= j < |evals| && evals[j].Passed() && Tied(p, evals[j], evals[k])
        ensures releases[j].runtime == releases[k].runtime && releases[j].bin == releases[k].bin
      {
        PassedMeansPasses(p, reg, releases[j]);
        PassersListed(p, reg, releases[j]);
        assert releases[j] in releases;
      }
      BestSized(p, evals, |evals|, i);
    }
  }

  // The same bin, score and seeders.
  predicate Ties(p: Profile, reg: R.Registry, a: Release, b: Release)
  {
    Rank(p, a.bin) == Rank(p, b.bin) && Score(p, reg, a, R.Search) == Score(p, reg, b, R.Search) && a.seeders == b.seeders
  }

  predicate TiesShareRuntime(p: Profile, reg: R.Registry, releases: seq<Release>, r: Release)
  {
    forall x :: x in releases && Passes(p, reg, x) && Ties(p, reg, x, r) ==> x.runtime == r.runtime
  }

  // The distance is the difference from the preferred rate over the runtime, as long as
  // both fit a machine integer.
  lemma DistanceExactly(p: Profile, a: Release, b: Release)
    requires HasPreference(p, a)
    requires var preferred := p.sizes[a.bin].preferredPerMinute * a.runtime.value;
             InInt64(preferred) && MIN_INT64 < b.size - preferred <= MAX_INT64
    ensures var preferred := p.sizes[a.bin].preferredPerMinute * a.runtime.value;
            DistanceFor(p, a, b) == if b.size >= preferred then b.size - preferred else preferred - b.size
  {
  }

  // Without a common runtime the pick can be farther from its own preferred size than
  // another release of its runtime: a pack of other coverage comes between them.
  lemma MixedRuntimesMislead(reg: R.Registry)
    ensures var p := Profile(["HD"], "HD", map["HD" := SizeBand(0, 10, 0)], 0, [], []);
            var none := R.Subject(map[], false, false);
            var exact := Release("a", "HD", 6000, 1, Some(600), none);
            var other := Release("b", "HD", 2400, 1, Some(240), none);
            var far := Release("c", "HD", 5000, 1, Some(600), none);
            PickedRelease(p, reg, [exact, other, far]) == Some(far) && DistanceFor(p, far, exact) < DistanceFor(p, far, far)
  {
    var p := Profile(["HD"], "HD", map["HD" := SizeBand(0, 10, 0)], 0, [], []);
    var none := R.Subject(map[], false, false);
    var exact := Release("a", "HD", 6000, 1, Some(600), none);
    var other := Release("b", "HD", 2400, 1, Some(240), none);
    var far := Release("c", "HD", 5000, 1, Some(600), none);
    PickOfThree(p, reg, exact, other, far);
  }

  lemma PickOfThree(p: Profile, reg: R.Registry, a: Release, b: Release, c: Release)
    requires Passes(p, reg, a) && Passes(p, reg, b) && Passes(p, reg, c)
    requires Better(p, Evaluate(p, reg, b), Evaluate(p, reg, a)) && Better(p, Evaluate(p, reg, c), Evaluate(p, reg, b))
    ensures PickedRelease(p, reg, [a, b, c]) == Some(c)
  {
    PickOfTwo(p, reg, a, b);
    PickChooses(p, reg, [a, b]);
    PickChooses(p, reg, [a, b, c]);
    assert [a, b, c][..2] == [a, b];
  }

  lemma PickOfTwo(p: Profile, reg: R.Registry, a: Release, b: Release)
    requires Passes(p, reg, a) && Passes(p, reg, b)
    ensures PickedRelease(p, reg, [a, b]) == Some(if Better(p, Evaluate(p, reg, b), Evaluate(p, reg, a)) then b else a)
  {
    PickChooses(p, reg, [a, b]);
    assert [a, b][..1] == [a] && [a][..0] == [];
    assert Chosen(Passing(p, reg), Preference(p, reg), [a]) == Some(a);
  }

  // Two passing releases are picked depending on their order exactly when they
  // contradict each other as BetterContradicts says.
  lemma PairOrderMatters(p: Profile, reg: R.Registry, a: Release, b: Release)
    requires Passes(p, reg, a) && Passes(p, reg, b) && a.guid != b.guid
    ensures PickedRelease(p, reg, [a, b]) != PickedRelease(p, reg, [b, a]) <==>
              Tied(p, Evaluate(p, reg, a), Evaluate(p, reg, b)) && PreferredBy(p, a, a, b) != PreferredBy(p, b, a, b)
  {
    BetterContradicts(p, Evaluate(p, reg, a), Evaluate(p, reg, b));
    PickOfTwo(p, reg, a, b);
    PickOfTwo(p, reg, b, a);
  }

  // Two packs of different coverage, tied otherwise and each of exactly its own
  // preferred size: the one offered last is picked.
  lemma PacksDependOnOrder(p: Profile, reg: R.Registry, a: Release, b: Release)
    requires Passes(p, reg, a) && Passes(p, reg, b) && Tied(p, Evaluate(p, reg, a), Evaluate(p, reg, b))
    requires Sized(p, a) && Sized(p, b) && Runtime(a) != Runtime(b)
    requires 0 <= a.size == p.sizes[a.bin].preferredPerMinute * Runtime(a).value <= MAX_INT64
    requires 0 <= b.size == p.sizes[b.bin].preferredPerMinute * Runtime(b).value <= MAX_INT64
    ensures PickedRelease(p, reg, [a, b]) == Some(b) && PickedRelease(p, reg, [b, a]) == Some(a)
  {
    var perMinute := p.sizes[a.bin].preferredPerMinute;
    assert a.bin == b.bin;
    DistinctProducts(perMinute, Runtime(a).value, Runtime(b).value);
    OwnSizeWins(p, a, b);
    OwnSizeWins(p, b, a);
    PickOfTwo(p, reg, a, b);
    PickOfTwo(p, reg, b, a);
  }

  // For instance a ten-hour and a four-hour pack at 10 bytes a minute.
  lemma PacksExist(reg: R.Registry)
    ensures var p := Profile(["HD"], "HD", map["HD" := SizeBand(0, 10, 0)], 0, [], []);
            var a := Release("S01", "HD", 6000, 1, Some(600), R.Subject(map[], false, false));
            var b := Release("S01E01-E04", "HD", 2400, 1, Some(240), R.Subject(map[], false, false));
            PickedRelease(p, reg, [a, b]) == Some(b) && PickedRelease(p, reg, [b, a]) == Some(a)
  {
    var p := Profile(["HD"], "HD", map["HD" := SizeBand(0, 10, 0)], 0, [], []);
    var a := Release("S01", "HD", 6000, 1, Some(600), R.Subject(map[], false, false));
    var b := Release("S01E01-E04", "HD", 2400, 1, Some(240), R.Subject(map[], false, false));
    PacksDependOnOrder(p, reg, a, b);
  }

  lemma DistinctProducts(c: int, m: int, n: int)
    requires c > 0 && m != n
    ensures c * m != c * n
  {
    assert c * (m - n) != 0;
  }

  lemma OwnSizeWins(p: Profile, a: Release, b: Release)
    requires Sized(p, a) && a.size != b.size && 0 <= b.size <= MAX_INT64
    requires 0 <= a.size == p.sizes[a.bin].preferredPerMinute * Runtime(a).value <= MAX_INT64
    ensures PreferredBy(p, a, a, b) && BetterSize(p, a, b)
  {
    assert DistanceFor(p, a, a) == 0;
  }

  // Reading a selection back: one release is grabbed exactly when some release
  // passed, the other passers are runners-up and the rest are rejected.
  lemma Dispositions(p: Profile, reg: R.Registry, releases: seq<Release>, sel: Selection)
    requires var evals := EvaluateAll(p, reg, releases);
             sel.picked == BestOf(p, evals, |evals|) && Disposed(evals, sel.picked, sel.all)
    ensures sel.picked.Some? <==> exists r :: r in releases && Passes(p, reg, r)
    ensures |sel.all| == |releases|
    ensures forall i :: 0 <= i < |sel.all| ==>
              && (sel.all[i].disposition == Grabbed <==> sel.picked == Some(i))
              && (sel.all[i].disposition == RunnerUp <==> Passes(p, reg, releases[i]) && sel.picked != Some(i))
              && (sel.all[i].disposition == Rejected <==> !Passes(p, reg, releases[i]))
  {
    var evals := EvaluateAll(p, reg, releases);
    forall r | r in releases && Passes(p, reg, r) ensures sel.picked.Some? {
      var i :| 0 <= i < |releases| && releases[i] == r;
      PassedMeansPasses(p, reg, r);
      assert evals[i].Passed();
    }
    if sel.picked.Some? { assert releases[sel.picked.value] in releases; }
    forall i | 0 <= i < |evals|
      ensures evals[i].Passed() == Passes(p, reg, releases[i]) && evals[i].disposition == Rejected
    {
      PassedMeansPasses(p, reg, releases[i]);
    }
    DispositionsOf(evals, sel.picked, sel.all);
  }

  lemma DispositionsOf(evals: seq<Evaluation>, picked: Option<nat>, all: seq<Evaluation>)
    requires Disposed(evals, picked, all) && forall i :: 0 <= i < |evals| ==> evals[i].disposition == Rejected
    requires picked.Some? ==> picked.value < |evals| && evals[picked.value].Passed()
    requires picked.None? ==> forall i :: 0 <= i < |evals| ==> !evals[i].Passed()
    ensures forall i :: 0 <= i < |all| ==>
              && (all[i].disposition == Grabbed <==> picked == Some(i))
              && (all[i].disposition == RunnerUp <==> evals[i].Passed() && picked != Some(i))
              && (all[i].disposition == Rejected <==> !evals[i].Passed())
  {
  }

  // ---------------------------------------------------------- what passes

  // Between these bounds, of which one that is not positive does not count.
  predicate WithinBounds(low: int, high: int, size: int)
  {
    (high > 0 ==> size <= high) && (low > 0 ==> low <= size)
  }

  // The size lies in the band scaled by the runtime, where there are both. Scaling is
  // a 64-bit product, the exact one for any band that fits.
  predicate WithinBand(p: Profile, r: Release)
  {
    r.bin in p.sizes && Runtime(r).Some? ==>
      var band, minutes := p.sizes[r.bin], Runtime(r).value;
      WithinBounds(Wrap64(band.minPerMinute * minutes), Wrap64(band.maxPerMinute * minutes), r.size)
  }

  // A release passes exactly when its bin is allowed, it has the seeders, no gate
  // fires and its size is in the band; a failure names the first of these to go wrong.
  lemma PassesExactly(p: Profile, reg: R.Registry, r: Release, at: R.Phase)
    ensures GateVerdict(p, reg, r, at).None? <==>
              && r.bin in p.bins && r.seeders >= p.minSeeders
              && (forall g :: g in p.gates ==> !Fires(reg, g.tree, r.facts, at))
              && WithinBand(p, r)
    ensures GateVerdict(p, reg, r, at) == Some(BinNotAllowed) <==> r.bin !in p.bins
    ensures GateVerdict(p, reg, r, at) == Some(MinSeeders) <==> r.bin in p.bins && r.seeders < p.minSeeders
    ensures GateVerdict(p, reg, r, at) in {Some(SizeMax), Some(SizeMin)} ==> !WithinBand(p, r)
  {
    var firing := FiringGate(reg, p.gates, r.facts, at);
    if firing.Some? { assert p.gates[firing.value] in p.gates; }
  }

  // A failure by name: the first gate that fires when bin and seeders are right, or the
  // side on which the size leaves its band when nothing else is wrong.
  lemma RejectsExactly(p: Profile, reg: R.Registry, r: Release, at: R.Phase, name: string)
    ensures GateVerdict(p, reg, r, at) == Some(Custom(name)) <==>
              r.bin in p.bins && r.seeders >= p.minSeeders && FirstToFire(p, reg, r.facts, at, name)
    ensures GateVerdict(p, reg, r, at) in {Some(SizeMax), Some(SizeMin)} <==>
              && r.bin in p.bins && r.seeders >= p.minSeeders
              && (forall g :: g in p.gates ==> !Fires(reg, g.tree, r.facts, at)) && !WithinBand(p, r)
    ensures GateVerdict(p, reg, r, at) == Some(SizeMax) ==> r.size > Wrap64(p.sizes[r.bin].maxPerMinute * r.runtime.value) > 0
    ensures GateVerdict(p, reg, r, at) == Some(SizeMin) ==> r.size < Wrap64(p.sizes[r.bin].minPerMinute * r.runtime.value)
  {
    PassesExactly(p, reg, r, at);
    FiringByName(p, reg, r.facts, at, name);
  }

  // The first gate that fires bears this name.
  predicate FirstToFire(p: Profile, reg: R.Registry, facts: R.Subject, at: R.Phase, name: string)
  {
    exists i :: 0 <= i < |p.gates| && Fires(reg, p.gates[i].tree, facts, at) && p.gates[i].name == name
                && forall j :: 0 <= j < i ==> !Fires(reg, p.gates[j].tree, facts, at)
  }

  lemma FiringByName(p: Profile, reg: R.Registry, facts: R.Subject, at: R.Phase, name: string)
    ensures var firing := FiringGate(reg, p.gates, facts, at);
            FirstToFire(p, reg, facts, at, name) <==> firing.Some? && p.gates[firing.value].name == name
  {
    var firing := FiringGate(reg, p.gates, facts, at);
    if FirstToFire(p, reg, facts, at, name) {
      var i :| 0 <= i < |p.gates| && Fires(reg, p.gates[i].tree, facts, at) && p.gates[i].name == name
               && forall j :: 0 <= j < i ==> !Fires(reg, p.gates[j].tree, facts, at);
      assert firing == Some(i);
    }
  }

  // A re-gate that fails names the first gate that fires at import.
  lemma ReGateNames(p: Profile, reg: R.Registry, facts: R.Subject, name: string)
    ensures ReGateOf(p, reg, facts).result == HardFail(name) <==> FirstToFire(p, reg, facts, R.Import, name)
  {
    FiringByName(p, reg, facts, R.Import, name);
  }

  function WeightsOf(formats: seq<Format>): int
  {
    if formats == [] then 0 else formats[0].weight + WeightsOf(formats[1..])
  }

  // The score is the machine sum of the weights of exactly the formats that match.
  lemma ScoreExactly(p: Profile, reg: R.Registry, r: Release, at: R.Phase)
    ensures Score(p, reg, r, at) ==
            Wrap64(WeightsOf(Filter((f: Format) => R.Eval(reg, f.tree, r.facts, at) == R.True, p.formats)))
  {
    MatchedExactly(reg, p.formats, r.facts, at);
  }

  lemma {:induction false} MatchedExactly(reg: R.Registry, formats: seq<Format>, facts: R.Subject, at: R.Phase)
    ensures MatchedWeight(reg, formats, facts, at) ==
            WeightsOf(Filter((f: Format) => R.Eval(reg, f.tree, facts, at) == R.True, formats))
  {
    if formats != [] {
      var matches := (f: Format) => R.Eval(reg, f.tree, facts, at) == R.True;
      var rest := Filter(matches, formats[1..]);
      MatchedExactly(reg, formats[1..], facts, at);
      assert ([formats[0]] + rest)[1..] == rest;
      assert matches(formats[0]) ==> Filter(matches, formats) == [formats[0]] + rest;
      assert !matches(formats[0]) ==> Filter(matches, formats) == [] + rest == rest;
    }
  }

  // ------------------------------------------------------- held and candidate

  function Held(p: Profile, reg: R.Registry, r: Release): FileQuality
  {
    FileQuality(r.bin, Score(p, reg, r, R.Search))
  }

  predicate StrictlyBetter(p: Profile, reg: R.Registry, current: FileQuality, candidate: Release, antiFlap: int)
  {
    var cand, cur := Rank(p, candidate.bin), Rank(p, current.bin);
    if cand != cur then cand < cur
    else Wrap64(Score(p, reg, candidate, R.Search) - current.score) > antiFlap
  }

  predicate StrictlyBetterQuality(p: Profile, current: FileQuality, candidate: FileQuality)
  {
    var cand, cur := Rank(p, candidate.bin), Rank(p, current.bin);
    if cand != cur then cand < cur else candidate.score > current.score
  }

  // A better bin always upgrades and supersedes, a worse one never does; in the same bin
  // a higher score supersedes.
  lemma BinDecides(p: Profile, reg: R.Registry, held: FileQuality, next: Release, quality: FileQuality, antiFlap: int)
    ensures Rank(p, next.bin) < Rank(p, held.bin) ==> StrictlyBetter(p, reg, held, next, antiFlap)
    ensures Rank(p, next.bin) > Rank(p, held.bin) ==> !StrictlyBetter(p, reg, held, next, antiFlap)
    ensures Rank(p, quality.bin) < Rank(p, held.bin) ==> StrictlyBetterQuality(p, held, quality)
    ensures Rank(p, quality.bin) > Rank(p, held.bin) ==> !StrictlyBetterQuality(p, held, quality)
    ensures Rank(p, quality.bin) == Rank(p, held.bin) ==> (StrictlyBetterQuality(p, held, quality) <==> quality.score > held.score)
  {
  }

  // The cutoff is met from the first listed bin down to the cutoff's own, and by every
  // bin when the cutoff itself is not listed.
  lemma CutoffExactly(p: Profile, held: BinKey, c: nat)
    ensures c < |p.bins| && p.bins[c] == p.cutoff && p.cutoff !in p.bins[..c] ==>
              (BelowCutoff(p, held) <==> held !in p.bins[..c + 1])
    ensures p.cutoff !in p.bins ==> !BelowCutoff(p, held)
  {
    FirstRank(p.bins, p.cutoff, c);
    if c < |p.bins| && held in p.bins[..c + 1] {
      var i :| 0 <= i <= c && p.bins[..c + 1][i] == held;
      RankAtMost(p.bins, i);
    }
  }

  lemma {:induction false} RankAtMost(bins: seq<BinKey>, i: nat)
    requires i < |bins|
    ensures RankIn(bins, bins[i]) <= i
  {
    if i > 0 && bins[0] != bins[i] { RankAtMost(bins[1..], i - 1); }
  }

  lemma FirstRank(bins: seq<BinKey>, bin: BinKey, c: nat)
    ensures c < |bins| && bins[c] == bin && bin !in bins[..c] ==> RankIn(bins, bin) == c
  {
    if c < |bins| && bins[c] == bin && bin !in bins[..c] {
      RankAtMost(bins, c);
    }
  }

  // Superseding is a strict weak order: no two held qualities supersede each
  // other, and incomparability is transitive.
  lemma SupersedeIsOrder(p: Profile, a: FileQuality, b: FileQuality, c: FileQuality)
    ensures !(StrictlyBetterQuality(p, a, b) && StrictlyBetterQuality(p, b, a))
    ensures StrictlyBetterQuality(p, a, c) ==> StrictlyBetterQuality(p, a, b) || StrictlyBetterQuality(p, b, c)
  {
  }

  predicate Supersedes(p: Profile, a: Evaluation, b: Evaluation)
  {
    StrictlyBetterQuality(p, FileQuality(b.release.bin, b.score), FileQuality(a.release.bin, a.score))
  }

  lemma {:induction false} BestNotSuperseded(p: Profile, evals: seq<Evaluation>, n: nat, i: nat)
    requires i < n <= |evals| && evals[i].Passed()
    ensures BestOf(p, evals, n).Some? && !Supersedes(p, evals[i], evals[BestOf(p, evals, n).value])
  {
    BestOfStep(p, evals, n - 1);
    if i < n - 1 { BestNotSuperseded(p, evals, n - 1, i); }
  }

  // Whatever the runtimes and GUIDs, no passing candidate of the same search
  // would supersede the picked one.
  lemma PickNotSuperseded(p: Profile, reg: R.Registry, releases: seq<Release>, i: nat)
    requires i < |releases| && GateVerdict(p, reg, releases[i], R.Search).None?
    ensures PickedRelease(p, reg, releases).Some?
    ensures !StrictlyBetterQuality(p, Held(p, reg, PickedRelease(p, reg, releases).value), Held(p, reg, releases[i]))
  {
    BestNotSuperseded(p, EvaluateAll(p, reg, releases), |releases|, i);
  }

  // --------------------------------------------------------- bounded upgrades

  function Magnitude(w: int): nat { if w < 0 then -w else w }

  // W, the sum of the absolute weights, and the score range it spans.
  function TotalWeight(formats: seq<Format>): nat
  {
    if formats == [] then 0 else Magnitude(formats[0].weight) + TotalWeight(formats[1..])
  }

  function MaxScore(formats: seq<Format>): nat
  {
    if formats == [] then 0
    else (if formats[0].weight > 0 then formats[0].weight else 0) + MaxScore(formats[1..])
  }

  // Scores lie in an interval of width W below MaxScore.
  predicate InScoreRange(p: Profile, score: int)
  {
    MaxScore(p.formats) - TotalWeight(p.formats) <= score <= MaxScore(p.formats)
  }

  lemma {:induction false} MatchedWeightInRange(reg: R.Registry, formats: seq<Format>, facts: R.Subject, at: R.Phase)
    ensures MaxScore(formats) - TotalWeight(formats) <= MatchedWeight(reg, formats, facts, at) <= MaxScore(formats)
    ensures MaxScore(formats) <= TotalWeight(formats)
  {
    if formats != [] { MatchedWeightInRange(reg, formats[1..], facts, at); }
  }

  // When W fits a machine integer the score never wraps.
  lemma ScoreInRange(p: Profile, reg: R.Registry, r: Release)
    requires TotalWeight(p.formats) <= MAX_INT64
    ensures InScoreRange(p, Score(p, reg, r, R.Search))
  {
    MatchedWeightInRange(reg, p.formats, r.facts, R.Search);
  }

  // Each release of the run replaces the quality held after the one before it.
  predicate UpgradeRun(p: Profile, reg: R.Registry, held: FileQuality, run: seq<Release>, antiFlap: int)
    decreases |run|
  {
    run == [] ||
    (StrictlyBetter(p, reg, held, run[0], antiFlap) && UpgradeRun(p, reg, Held(p, reg, run[0]), run[1..], antiFlap))
  }

  // How many upgrades a held quality can still see.
  function Headroom(p: Profile, held: FileQuality, antiFlap: nat): int
  {
    var perBin := TotalWeight(p.formats) / (antiFlap + 1);
    Rank(p, held.bin) * (perBin + 1) + (MaxScore(p.formats) - held.score) / (antiFlap + 1)
  }

  lemma HeadroomBounds(p: Profile, held: FileQuality, antiFlap: nat)
    requires InScoreRange(p, held.score)
    ensures 0 <= Headroom(p, held, antiFlap) <= |p.bins| + (|p.bins| + 1) * (TotalWeight(p.formats) / (antiFlap + 1))
  {
    MeasureBounded(Rank(p, held.bin), |p.bins|, TotalWeight(p.formats), MaxScore(p.formats) - held.score, antiFlap + 1);
  }

  lemma UpgradeUsesHeadroom(p: Profile, reg: R.Registry, held: FileQuality, next: Release, antiFlap: nat)
    requires TotalWeight(p.formats) <= MAX_INT64 && InScoreRange(p, held.score)
    requires StrictlyBetter(p, reg, held, next, antiFlap)
    ensures Headroom(p, Held(p, reg, next), antiFlap) < Headroom(p, held, antiFlap)
  {
    ScoreInRange(p, reg, next);
    var score, top := Score(p, reg, next, R.Search), MaxScore(p.formats);
    assert InInt64(score - held.score);
    MeasureDrops(Rank(p, held.bin), Rank(p, next.bin), TotalWeight(p.formats), top - held.score, top - score, antiFlap + 1);
  }

  // From any held score in range, a run of upgrades takes at most
  // B + (B+1) * floor(W / (d+1)) steps.
  lemma {:induction false} RunsInRangeAreBounded(p: Profile, reg: R.Registry, held: FileQuality, run: seq<Release>, antiFlap: nat)
    requires TotalWeight(p.formats) <= MAX_INT64 && InScoreRange(p, held.score)
    requires UpgradeRun(p, reg, held, run, antiFlap)
    ensures |run| <= Headroom(p, held, antiFlap)
    ensures |run| <= |p.bins| + (|p.bins| + 1) * (TotalWeight(p.formats) / (antiFlap + 1))
    decreases |run|
  {
    HeadroomBounds(p, held, antiFlap);
    if run != [] {
      UpgradeUsesHeadroom(p, reg, held, run[0], antiFlap);
      ScoreInRange(p, reg, run[0]);
      RunsInRangeAreBounded(p, reg, Held(p, reg, run[0]), run[1..], antiFlap);
    }
  }

  // What a profile's rows can hold: 32-bit weights, and fewer formats than 2^32.
  predicate Storable(p: Profile)
  {
    |p.formats| < 0x1_0000_0000 && forall f :: f in p.formats ==> -0x8000_0000 <= f.weight <= 0x7fff_ffff
  }

  lemma {:induction false} WeightsAddUp(formats: seq<Format>)
    requires forall f :: f in formats ==> -0x8000_0000 <= f.weight <= 0x7fff_ffff
    ensures TotalWeight(formats) <= |formats| * 0x8000_0000
  {
    if formats != [] {
      assert formats[0] in formats;
      WeightsAddUp(formats[1..]);
    }
  }

  lemma StorableFits(p: Profile)
    requires Storable(p)
    ensures TotalWeight(p.formats) <= MAX_INT64
  {
    WeightsAddUp(p.formats);
  }

  // Upgrade runs of every stored profile are bounded: B + (B+1) * floor(W / (d+1))
  // steps from a score the profile can give, and one more from any other score, such
  // as one kept from before the weights were edited.
  lemma UpgradeRunsAreBounded(p: Profile, reg: R.Registry, held: FileQuality, run: seq<Release>, antiFlap: nat)
    requires Storable(p) && UpgradeRun(p, reg, held, run, antiFlap)
    ensures |run| <= |p.bins| + (|p.bins| + 1) * (TotalWeight(p.formats) / (antiFlap + 1))
                     + if InScoreRange(p, held.score) then 0 else 1
  {
    StorableFits(p);
    if InScoreRange(p, held.score) {
      RunsInRangeAreBounded(p, reg, held, run, antiFlap);
    } else if run != [] {
      ScoreInRange(p, reg, run[0]);
      RunsInRangeAreBounded(p, reg, Held(p, reg, run[0]), run[1..], antiFlap);
    } else {
      DivMonotone(0, TotalWeight(p.formats), antiFlap + 1);
      MulMonotone(0, |p.bins| + 1, TotalWeight(p.formats) / (antiFlap + 1));
    }
  }

  // No two held qualities can upgrade to each other, even when scores wrap.
  lemma NoMutualUpgrade(p: Profile, reg: R.Registry, a: Release, b: Release, antiFlap: nat)
    ensures !(StrictlyBetter(p, reg, Held(p, reg, a), b, antiFlap) && StrictlyBetter(p, reg, Held(p, reg, b), a, antiFlap))
  {
  }

  // At equal bins an upgrade is a gain beyond the margin exactly when the
  // difference of the scores fits a machine integer, or is so negative that even
  // wrapped around it stays within the margin.
  lemma MarginIsExact(p: Profile, reg: R.Registry, held: FileQuality, next: Release, antiFlap: nat)
    requires InInt64(held.score) && Rank(p, held.bin) == Rank(p, next.bin)
    ensures var gain := Score(p, reg, next, R.Search) - held.score;
            (StrictlyBetter(p, reg, held, next, antiFlap) <==> gain > antiFlap) <==>
            (InInt64(gain) || gain + TWO_64 <= antiFlap || antiFlap >= gain > MAX_INT64)
  {
  }

  // An upgrade never takes a file that met the cutoff back below it.
  lemma UpgradeKeepsCutoff(p: Profile, reg: R.Registry, held: FileQuality, next: Release, antiFlap: int)
    requires StrictlyBetter(p, reg, held, next, antiFlap) && !BelowCutoff(p, held.bin)
    ensures !BelowCutoff(p, next.bin)
  {
  }

  // ------------------------------------------------------------ the ratchet

  // A custom gate that rejects a release at search fails its import, whatever
  // more is known by then; the gate reported is that one or an earlier one.
  lemma GateRatchet(p: Profile, reg: R.Registry, r: Release, later: R.Subject)
    requires R.Accumulates(r.facts, later)
    requires FiringGate(reg, p.gates, r.facts, R.Search).Some?
    ensures ReGateOf(p, reg, later).result.HardFail?
    ensures FiringGate(reg, p.gates, later, R.Import).value <= FiringGate(reg, p.gates, r.facts, R.Search).value
  {
    var g := FiringGate(reg, p.gates, r.facts, R.Search).value;
    R.EvalRatchet(reg, p.gates[g].tree, r.facts, R.Search, later, R.Import);
  }

  lemma {:induction false} NothingFlips(reg: R.Registry, formats: seq<Format>, facts: R.Subject)
    ensures FlippedWeight(reg, formats, facts) == 0 && FlippedNames(reg, formats, facts) == []
  {
    if formats != [] {
      R.EvalRatchet(reg, formats[0].tree, facts, R.Search, facts, R.Import);
      NothingFlips(reg, formats[1..], facts);
    }
  }

  // The penalty path is dead: for any gates and formats a re-gate passes with no
  // penalty and no findings, or fails hard.
  lemma ReGateNeverPenalizes(p: Profile, reg: R.Registry, facts: R.Subject)
    ensures ReGateOf(p, reg, facts).penalty == 0 && ReGateOf(p, reg, facts).findings == []
    ensures ReGateOf(p, reg, facts).result.Pass? <==> FiringGate(reg, p.gates, facts, R.Import).None?
    ensures !ReGateOf(p, reg, facts).result.Penalize?
  {
    NothingFlips(reg, p.formats, facts);
  }
}
