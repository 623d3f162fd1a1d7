// The selection engine for quality profiles: which release to grab, whether an
// imported file passes, and what counts as an upgrade.
module QualityProfile {
  import opened Choosing
  import opened Numbers
  import opened Options
  import opened Ordering
  import R = Rules

  // A bin is an opaque, comparable quality identity.
  type BinKey = string

  datatype SizeBand = SizeBand(minPerMinute: int, preferredPerMinute: int, maxPerMinute: int)

  datatype Gate = Gate(name: string, tree: Option<R.Condition>)

  datatype Format = Format(name: string, tree: Option<R.Condition>, weight: int)

  datatype Profile = Profile(bins: seq<BinKey>, cutoff: BinKey, sizes: map<BinKey, SizeBand>, minSeeders: int,
                             gates: seq<Gate>, formats: seq<Format>)

  // A candidate release with its parsed bin, its matched runtime and what rules
  // can read of it.
  datatype Release = Release(guid: string, bin: BinKey, size: int, seeders: int, runtime: Option<int>, facts: R.Subject)

  datatype Reject = BinNotAllowed | MinSeeders | Custom(name: string) | SizeMax | SizeMin

  datatype Disposition = Grabbed | RunnerUp | Rejected

  datatype Evaluation = Evaluation(release: Release, reject: Option<Reject>, score: int, disposition: Disposition)
  {
    predicate Passed() { reject.None? }
  }

  // picked indexes the grabbed evaluation in all.
  datatype Selection = Selection(picked: Option<nat>, all: seq<Evaluation>)

  datatype FileQuality = FileQuality(bin: BinKey, score: int)

  // -------------------------------------------------------------- the profile

  // Position in the ranked list; an unlisted bin ranks below every listed one.
  function RankIn(bins: seq<BinKey>, bin: BinKey): (r: nat)
    ensures r <= |bins| && (r < |bins| ==> bins[r] == bin)
    ensures r == |bins| <==> bin !in bins
  {
    if bins == [] || bins[0] == bin then 0 else 1 + RankIn(bins[1..], bin)
  }

  function Rank(p: Profile, bin: BinKey): nat { RankIn(p.bins, bin) }

  predicate BelowCutoff(p: Profile, held: BinKey)
  {
    Rank(p, held) > Rank(p, p.cutoff)
  }

  // The band and runtime that apply to a release, when both are usable.
  function Runtime(r: Release): Option<int>
  {
    if r.runtime.Some? && r.runtime.value > 0 then r.runtime else None
  }

  function SizeVerdict(p: Profile, r: Release): Option<Reject>
  {
    if r.bin !in p.sizes || Runtime(r).None? then None
    else
      var band := p.sizes[r.bin];
      var max := Wrap64(band.maxPerMinute * Runtime(r).value);
      var min := Wrap64(band.minPerMinute * Runtime(r).value);
      if max > 0 && r.size > max then Some(SizeMax)
      else if min > 0 && r.size < min then Some(SizeMin)
      else None
  }

  predicate Fires(reg: R.Registry, tree: Option<R.Condition>, facts: R.Subject, at: R.Phase)
  {
    R.Eval(reg, tree, facts, at) == R.True
  }

  // The first gate that fires.
  function FiringGate(reg: R.Registry, gates: seq<Gate>, facts: R.Subject, at: R.Phase): (g: Option<nat>)
    ensures g.Some? ==> g.value < |gates| && Fires(reg, gates[g.value].tree, facts, at)
    ensures forall i :: 0 <= i < (if g.Some? then g.value else |gates|) ==> !Fires(reg, gates[i].tree, facts, at)
  {
    if gates == [] then None
    else if Fires(reg, gates[0].tree, facts, at) then Some(0)
    else
      var rest := FiringGate(reg, gates[1..], facts, at);
      if rest.None? then None else Some(1 + rest.value)
  }

  // Gate: None lets the release pass, otherwise the first failure.
  function GateVerdict(p: Profile, reg: R.Registry, r: Release, at: R.Phase): Option<Reject>
  {
    if Rank(p, r.bin) >= |p.bins| then Some(BinNotAllowed)
    else if r.seeders < p.minSeeders then Some(MinSeeders)
    else
      var firing := FiringGate(reg, p.gates, r.facts, at);
      if firing.Some? then Some(Custom(p.gates[firing.value].name)) else SizeVerdict(p, r)
  }

  // ---------------------------------------------------------------- the score

  function MatchedWeight(reg: R.Registry, formats: seq<Format>, facts: R.Subject, at: R.Phase): int
  {
    if formats == [] then 0
    else (if Fires(reg, formats[0].tree, facts, at) then formats[0].weight else 0)
         + MatchedWeight(reg, formats[1..], facts, at)
  }

  // The machine sum of the weights of the formats that match.
  function Score(p: Profile, reg: R.Registry, r: Release, at: R.Phase): int
  {
    Wrap64(MatchedWeight(reg, p.formats, r.facts, at))
  }

  lemma {:induction false} MatchedWeightStep(reg: R.Registry, formats: seq<Format>, i: nat, facts: R.Subject, at: R.Phase)
    requires i < |formats|
    ensures MatchedWeight(reg, formats[..i + 1], facts, at) == MatchedWeight(reg, formats[..i], facts, at)
            + (if Fires(reg, formats[i].tree, facts, at) then formats[i].weight else 0)
  {
    if i == 0 {
      assert formats[..1][1..] == [];
    } else {
      MatchedWeightStep(reg, formats[1..], i - 1, facts, at);
      assert formats[..i + 1][1..] == formats[1..][..i] && formats[..i][1..] == formats[1..][..i - 1];
    }
  }

  lemma WrapAdd(a: int, b: int)
    ensures Wrap64(Wrap64(a) + b) == Wrap64(a + b)
  {
  }

  method ComputeScore(p: Profile, reg: R.Registry, r: Release, at: R.Phase) returns (score: int)
    ensures score == Score(p, reg, r, at)
  {
    score := 0;
    for i := 0 to |p.formats|
      invariant score == Wrap64(MatchedWeight(reg, p.formats[..i], r.facts, at))
    {
      MatchedWeightStep(reg, p.formats, i, r.facts, at);
      WrapAdd(MatchedWeight(reg, p.formats[..i], r.facts, at), p.formats[i].weight);
      if Fires(reg, p.formats[i].tree, r.facts, at) {
        score := Wrap64(score + p.formats[i].weight);
      }
    }
    assert p.formats[..|p.formats|] == p.formats;
  }

  // ------------------------------------------------------------- the ordering

  function Abs64(n: int): int
  {
    if n < 0 then Wrap64(-n) else n
  }

  // Distance of a size from the scaled preferred size.
  function Distance(band: SizeBand, runtime: int, size: int): int
  {
    Abs64(Wrap64(size - Wrap64(band.preferredPerMinute * runtime)))
  }

  // The preferred-size comparison applies under this release's own band and runtime.
  predicate Sized(p: Profile, r: Release)
  {
    r.bin in p.sizes && p.sizes[r.bin].preferredPerMinute > 0 && Runtime(r).Some?
  }

  predicate Better(p: Profile, a: Evaluation, b: Evaluation)
  {
    var ra, rb := Rank(p, a.release.bin), Rank(p, b.release.bin);
    if ra != rb then ra < rb
    else if a.score != b.score then a.score > b.score
    else if a.release.seeders != b.release.seeders then a.release.seeders > b.release.seeders
    else BetterSize(p, a.release, b.release)
  }

  predicate BetterSize(p: Profile, a: Release, b: Release)
  {
    if Sized(p, a) && DistanceFor(p, a, a) != DistanceFor(p, a, b) then DistanceFor(p, a, a) < DistanceFor(p, a, b)
    else if a.size != b.size then a.size < b.size
    else Less(a.guid, b.guid)
  }

  // b's distance measured with a's band and runtime, as the source does.
  function DistanceFor(p: Profile, a: Release, b: Release): int
    requires Sized(p, a)
  {
    Distance(p.sizes[a.bin], Runtime(a).value, b.size)
  }

  // ---------------------------------------------------------------- picking

  function Evaluate(p: Profile, reg: R.Registry, r: Release): Evaluation
  {
    Evaluation(r, GateVerdict(p, reg, r, R.Search), Score(p, reg, r, R.Search), Rejected)
  }

  function EvaluateAll(p: Profile, reg: R.Registry, releases: seq<Release>): (evals: seq<Evaluation>)
    ensures |evals| == |releases|
    ensures forall i :: 0 <= i < |evals| ==> evals[i] == Evaluate(p, reg, releases[i])
  {
    if releases == [] then [] else [Evaluate(p, reg, releases[0])] + EvaluateAll(p, reg, releases[1..])
  }

  function BetterBy(p: Profile): (Evaluation, Evaluation) -> bool { (a, b) => Better(p, a, b) }

  function HasPassed(): Evaluation -> bool { (e: Evaluation) => e.Passed() }

  // The scan for the best of the first n evaluations.
  function BestOf(p: Profile, evals: seq<Evaluation>, n: nat): (best: Option<nat>)
    requires n <= |evals|
    ensures best.Some? ==> best.value < n && evals[best.value].Passed()
    ensures best.None? <==> forall i :: 0 <= i < n ==> !evals[i].Passed()
  {
    ChosenAtMeans(HasPassed(), BetterBy(p), evals[..n]);
    ChosenAt(HasPassed(), BetterBy(p), evals[..n])
  }

  // One more evaluation becomes the best if it passed and is better, or the first.
  lemma BestOfStep(p: Profile, evals: seq<Evaluation>, n: nat)
    requires n < |evals|
    ensures var best := BestOf(p, evals, n);
            BestOf(p, evals, n + 1) ==
            if evals[n].Passed() && (best.None? || Better(p, evals[n], evals[best.value])) then Some(n) else best
  {
    assert evals[..n + 1][..n] == evals[..n];
  }

  function DispositionOf(eval: Evaluation, isPicked: bool): Disposition
  {
    if isPicked then Grabbed else if eval.Passed() then RunnerUp else Rejected
  }

  method EvaluateEach(p: Profile, reg: R.Registry, releases: seq<Release>) returns (evals: seq<Evaluation>)
    ensures evals == EvaluateAll(p, reg, releases)
  {
    ghost var spec := EvaluateAll(p, reg, releases);
    evals := [];
    for i := 0 to |releases|
      invariant evals == spec[..i]
    {
      var score := ComputeScore(p, reg, releases[i], R.Search);
      evals := evals + [Evaluation(releases[i], GateVerdict(p, reg, releases[i], R.Search), score, Rejected)];
    }
  }

  method Scan(p: Profile, evals: seq<Evaluation>) returns (picked: Option<nat>)
    ensures picked == BestOf(p, evals, |evals|)
  {
    var best := -1;
    for i := 0 to |evals|
      invariant -1 <= best < i
      invariant BestOf(p, evals, i) == if best == -1 then None else Some(best)
    {
      BestOfStep(p, evals, i);
      if !evals[i].Passed() { continue; }
      if best == -1 || Better(p, evals[i], evals[best]) { best := i; }
    }
    picked := if best == -1 then None else Some(best);
  }

  // The evaluations once the winner is known; all is what Pick returns as All.
  ghost predicate Disposed(evals: seq<Evaluation>, picked: Option<nat>, all: seq<Evaluation>)
  {
    && |all| == |evals|
    && forall i :: 0 <= i < |evals| ==>
         all[i] == (if picked == None then evals[i]
                    else evals[i].(disposition := DispositionOf(evals[i], picked == Some(i))))
  }

  method Dispose(evals: seq<Evaluation>, best: nat) returns (all: seq<Evaluation>)
    requires best < |evals| && forall i :: 0 <= i < |evals| ==> evals[i].disposition == Rejected
    ensures Disposed(evals, Some(best), all)
  {
    all := evals;
    for i := 0 to |evals|
      invariant |all| == |evals|
      invariant forall k :: i <= k < |evals| ==> all[k] == evals[k]
      invariant forall k :: 0 <= k < i ==> all[k] == evals[k].(disposition := DispositionOf(evals[k], false))
    {
      if all[i].Passed() { all := all[i := all[i].(disposition := RunnerUp)]; }
    }
    all := all[best := all[best].(disposition := Grabbed)];
  }

  method Pick(p: Profile, reg: R.Registry, releases: seq<Release>) returns (sel: Selection)
    ensures var evals := EvaluateAll(p, reg, releases);
            sel.picked == BestOf(p, evals, |evals|) && Disposed(evals, sel.picked, sel.all)
  {
    var evals := EvaluateEach(p, reg, releases);
    var best := Scan(p, evals);
    if best.None? { return Selection(None, evals); }
    var all := Dispose(evals, best.value);
    sel := Selection(best, all);
  }

  // ------------------------------------------------------------- re-gating

  datatype ReGateResult = Pass | Penalize | HardFail(gate: string)

  datatype ReGateOutcome = ReGateOutcome(result: ReGateResult, penalty: int, findings: seq<string>)

  // A format that scored at search and no longer matches at import.
  predicate Flipped(reg: R.Registry, f: Format, facts: R.Subject)
  {
    Fires(reg, f.tree, facts, R.Search) && !Fires(reg, f.tree, facts, R.Import)
  }

  function FlippedWeight(reg: R.Registry, formats: seq<Format>, facts: R.Subject): int
  {
    if formats == [] then 0
    else (if Flipped(reg, formats[0], facts) then formats[0].weight else 0) + FlippedWeight(reg, formats[1..], facts)
  }

  function FlippedNames(reg: R.Registry, formats: seq<Format>, facts: R.Subject): seq<string>
  {
    if formats == [] then []
    else (if Flipped(reg, formats[0], facts) then [formats[0].name] else []) + FlippedNames(reg, formats[1..], facts)
  }

  function ReGateOf(p: Profile, reg: R.Registry, facts: R.Subject): ReGateOutcome
  {
    var firing := FiringGate(reg, p.gates, facts, R.Import);
    if firing.Some? then ReGateOutcome(HardFail(p.gates[firing.value].name), 0, [])
    else
      var penalty := Wrap64(FlippedWeight(reg, p.formats, facts));
      ReGateOutcome(if penalty > 0 then Penalize else Pass, penalty, FlippedNames(reg, p.formats, facts))
  }

  lemma FlipsUnfold(reg: R.Registry, formats: seq<Format>, i: nat, facts: R.Subject)
    requires i < |formats|
    ensures FlippedWeight(reg, formats[i..], facts) ==
            (if Flipped(reg, formats[i], facts) then formats[i].weight else 0) + FlippedWeight(reg, formats[i + 1..], facts)
    ensures FlippedNames(reg, formats[i..], facts) ==
            (if Flipped(reg, formats[i], facts) then [formats[i].name] else []) + FlippedNames(reg, formats[i + 1..], facts)
  {
    assert formats[i..][1..] == formats[i + 1..];
  }

  // Compares the search and import passes format by format.
  method CompareFormats(reg: R.Registry, formats: seq<Format>, facts: R.Subject) returns (penalty: int, findings: seq<string>)
    ensures penalty == Wrap64(FlippedWeight(reg, formats, facts)) && findings == FlippedNames(reg, formats, facts)
  {
    penalty, findings := 0, [];
    ghost var exact := 0;
    assert formats[0..] == formats;
    for i := 0 to |formats|
      invariant penalty == Wrap64(exact)
      invariant exact + FlippedWeight(reg, formats[i..], facts) == FlippedWeight(reg, formats, facts)
      invariant findings + FlippedNames(reg, formats[i..], facts) == FlippedNames(reg, formats, facts)
    {
      FlipsUnfold(reg, formats, i, facts);
      WrapAdd(exact, formats[i].weight);
      if Fires(reg, formats[i].tree, facts, R.Search) && !Fires(reg, formats[i].tree, facts, R.Import) {
        penalty := Wrap64(penalty + formats[i].weight);
        exact := exact + formats[i].weight;
        findings := findings + [formats[i].name];
      }
    }
  }

  method ReGate(p: Profile, reg: R.Registry, facts: R.Subject) returns (out: ReGateOutcome)
    ensures out == ReGateOf(p, reg, facts)
  {
    for i := 0 to |p.gates|
      invariant forall k :: 0 <= k < i ==> !Fires(reg, p.gates[k].tree, facts, R.Import)
    {
      if Fires(reg, p.gates[i].tree, facts, R.Import) {
        return ReGateOutcome(HardFail(p.gates[i].name), 0, []);
      }
    }
    var penalty, findings := CompareFormats(reg, p.formats, facts);
    out := ReGateOutcome(if penalty > 0 then Penalize else Pass, penalty, findings);
  }
}
