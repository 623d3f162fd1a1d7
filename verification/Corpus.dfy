// Growing the parser corpus: which harvested inputs are appended, and in what
// order (the core of corpusharvest's run).
module Corpus {
  import opened Collecting
  import opened Options
  import opened Ordering
  import opened Sorting

  datatype Entry = Entry(input: string, domain: string)

  // A fixture of one repository; None when it could not be read.
  datatype Fixture = Fixture(domain: string, inputs: Option<seq<string>>)

  predicate Before(a: Entry, b: Entry)
  {
    if a.domain != b.domain then Less(a.domain, b.domain) else Less(a.input, b.input)
  }

  function FixtureEntries(fixture: Fixture): seq<Entry>
  {
    if fixture.inputs.None? then []
    else seq(|fixture.inputs.value|, i requires 0 <= i < |fixture.inputs.value| =>
             Entry(fixture.inputs.value[i], fixture.domain))
  }

  function Entries(fixtures: seq<Fixture>): seq<Entry>
  {
    FlatMap(FixtureEntries, fixtures)
  }

  // The entries not seen before, each at its first occurrence.
  function Unseen(seen: set<Entry>, entries: seq<Entry>): seq<Entry>
    decreases |entries|
  {
    if entries == [] then []
    else if entries[0] in seen then Unseen(seen, entries[1..])
    else [entries[0]] + Unseen(seen + {entries[0]}, entries[1..])
  }

  function Elements(s: seq<Entry>): set<Entry> { set e | e in s }

  function Added(existing: seq<Entry>, fixtures: seq<Fixture>): seq<Entry>
  {
    StableSort(Before, Unseen(Elements(existing), Entries(fixtures)))
  }

  lemma {:induction false} UnseenSnoc(seen: set<Entry>, entries: seq<Entry>, e: Entry)
    ensures Unseen(seen, entries + [e]) ==
            Unseen(seen, entries) + (if e in seen + Elements(entries) then [] else [e])
    decreases |entries|
  {
    if entries == [] {
      assert entries + [e] == [e];
    } else {
      var first := entries[0];
      assert (entries + [e])[1..] == entries[1..] + [e];
      assert Elements(entries) == {first} + Elements(entries[1..]);
      UnseenSnoc(if first in seen then seen else seen + {first}, entries[1..], e);
    }
  }

  // One fixture's inputs, over the shared seen set and harvest list; `earlier` is
  // everything harvested before it.
  method HarvestFixture(entries: seq<Entry>, seen: set<Entry>, harvested: seq<Entry>,
                        ghost existing: set<Entry>, ghost earlier: seq<Entry>)
    returns (seen': set<Entry>, harvested': seq<Entry>)
    requires seen == existing + Elements(earlier) && harvested == Unseen(existing, earlier)
    ensures seen' == existing + Elements(earlier + entries) && harvested' == Unseen(existing, earlier + entries)
  {
    seen', harvested' := seen, harvested;
    assert earlier + entries[..0] == earlier;
    for j := 0 to |entries|
      invariant seen' == existing + Elements(earlier + entries[..j])
      invariant harvested' == Unseen(existing, earlier + entries[..j])
    {
      var e := entries[j];
      ghost var before := earlier + entries[..j];
      assert earlier + entries[..j + 1] == before + [e];
      UnseenSnoc(existing, before, e);
      assert Elements(before + [e]) == Elements(before) + {e};
      if e in seen' { continue; }
      seen' := seen' + {e};
      harvested' := harvested' + [e];
    }
    assert entries[..|entries|] == entries;
  }

  method Harvest(existing: seq<Entry>, fixtures: seq<Fixture>) returns (out: seq<Entry>)
    ensures out == existing + Added(existing, fixtures)
  {
    var seen: set<Entry> := {};
    for i := 0 to |existing|
      invariant seen == Elements(existing[..i])
    {
      assert existing[..i + 1] == existing[..i] + [existing[i]];
      seen := seen + {existing[i]};
    }
    assert existing[..|existing|] == existing;
    var harvested: seq<Entry> := [];
    for i := 0 to |fixtures|
      invariant seen == Elements(existing) + Elements(Entries(fixtures[..i]))
      invariant harvested == Unseen(Elements(existing), Entries(fixtures[..i]))
    {
      FlatMapStep(FixtureEntries, fixtures, i);
      ghost var earlier := Entries(fixtures[..i]);
      if fixtures[i].inputs.None? {
        assert earlier + [] == earlier;
        continue;
      }
      seen, harvested := HarvestFixture(FixtureEntries(fixtures[i]), seen, harvested, Elements(existing), earlier);
    }
    assert fixtures[..|fixtures|] == fixtures;
    out := existing + StableSort(Before, harvested);
  }

  lemma BeforeIsOrder()
    ensures StrictWeakOrder(Before)
  {
    forall x, y | Before(x, y) ensures !Before(y, x) {
      LessTrichotomy(x.domain, y.domain);
      LessTrichotomy(x.input, y.input);
    }
    forall x, y, z | !Before(y, x) && !Before(z, y) ensures !Before(z, x) {
      BeforeTransitive(x, y, z);
    }
  }

  lemma BeforeTransitive(x: Entry, y: Entry, z: Entry)
    requires !Before(y, x) && !Before(z, y)
    ensures !Before(z, x)
  {
    LessTrichotomy(x.domain, y.domain);
    LessTrichotomy(y.domain, z.domain);
    AtMostTransitive(x.domain, y.domain, z.domain);
    if x.domain == y.domain == z.domain { AtMostTransitive(x.input, y.input, z.input); }
  }

  lemma BeforeSeparates(s: seq<Entry>)
    ensures Separates(Before, s)
  {
    forall x, y | x in s && y in s && x != y ensures Before(x, y) || Before(y, x) {
      LessTrichotomy(x.domain, y.domain);
      LessTrichotomy(x.input, y.input);
    }
  }

  predicate Distinct(s: seq<Entry>)
  {
    forall i, j :: 0 <= i < j < |s| ==> s[i] != s[j]
  }

  lemma {:induction false} UnseenExactly(seen: set<Entry>, entries: seq<Entry>)
    ensures Elements(Unseen(seen, entries)) == Elements(entries) - seen
    ensures Distinct(Unseen(seen, entries))
    decreases |entries|
  {
    if entries != [] {
      var e := entries[0];
      assert Elements(entries) == {e} + Elements(entries[1..]);
      if e in seen {
        UnseenExactly(seen, entries[1..]);
      } else {
        var rest := Unseen(seen + {e}, entries[1..]);
        UnseenExactly(seen + {e}, entries[1..]);
        assert e !in Elements(rest);
        assert Elements([e] + rest) == {e} + Elements(rest);
      }
    }
  }

  lemma {:induction false} DistinctCount(s: seq<Entry>, e: Entry)
    requires Distinct(s)
    ensures multiset(s)[e] == if e in s then 1 else 0
  {
    if s != [] {
      assert s == [s[0]] + s[1..];
      DistinctCount(s[1..], e);
    }
  }

  lemma DistinctFromElements(s: seq<Entry>, t: seq<Entry>)
    requires Distinct(s) && Distinct(t) && Elements(s) == Elements(t)
    ensures multiset(s) == multiset(t)
  {
    forall e ensures multiset(s)[e] == multiset(t)[e] {
      DistinctCount(s, e);
      DistinctCount(t, e);
      assert e in s <==> e in Elements(s);
      assert e in t <==> e in Elements(t);
    }
  }

  lemma ElementsEmpty(s: seq<Entry>)
    ensures Elements(s) == {} <==> s == []
  {
    if s != [] { assert s[0] in Elements(s); }
  }

  // What is appended is exactly what was harvested and not yet present, sorted by
  // (domain, input), each entry once.
  lemma AddedExactly(existing: seq<Entry>, fixtures: seq<Fixture>)
    ensures var added := Added(existing, fixtures);
            && Elements(added) == Elements(Entries(fixtures)) - Elements(existing)
            && SortedBy(Before, added)
            && forall e :: multiset(added)[e] <= 1
  {
    var unseen := Unseen(Elements(existing), Entries(fixtures));
    UnseenExactly(Elements(existing), Entries(fixtures));
    BeforeIsOrder();
    StableSortSorted(Before, unseen);
    var added := StableSort(Before, unseen);
    assert forall e :: e in added <==> e in multiset(added);
    assert forall e :: e in unseen <==> e in multiset(unseen);
    forall e ensures multiset(added)[e] <= 1 { DistinctCount(unseen, e); }
  }

  // Field by field: what was harvested is every input of every fixture that could be
  // read, under that fixture's domain.
  lemma {:induction false} HarvestedExactly(fixtures: seq<Fixture>, e: Entry)
    ensures e in Entries(fixtures) <==>
            exists f :: f in fixtures && f.inputs.Some? && e.input in f.inputs.value && f.domain == e.domain
  {
    if fixtures != [] {
      var first := fixtures[0];
      assert fixtures == [first] + fixtures[1..];
      HarvestedExactly(fixtures[1..], e);
      if first.inputs.Some? && e.input in first.inputs.value && first.domain == e.domain {
        var i :| 0 <= i < |first.inputs.value| && first.inputs.value[i] == e.input;
        assert FixtureEntries(first)[i] == e;
      }
    }
  }

  // And it is appended by domain, then by input, each with its own entry only once.
  lemma AddedInOrder(existing: seq<Entry>, fixtures: seq<Fixture>, i: nat, j: nat)
    requires i < j < |Added(existing, fixtures)|
    ensures var a, b := Added(existing, fixtures)[i], Added(existing, fixtures)[j];
            Less(a.domain, b.domain) || (a.domain == b.domain && Less(a.input, b.input))
  {
    var added := Added(existing, fixtures);
    var a, b := added[i], added[j];
    AddedExactly(existing, fixtures);
    LessTrichotomy(a.domain, b.domain);
    LessTrichotomy(a.input, b.input);
    if a == b { TwiceCounts(added, i, j); }
  }

  lemma TwiceCounts(s: seq<Entry>, i: nat, j: nat)
    requires i < j < |s| && s[i] == s[j]
    ensures multiset(s)[s[i]] >= 2
  {
    assert s == s[..j] + [s[j]] + s[j + 1..];
    assert s[..j][i] == s[i];
    assert s[i] in multiset(s[..j]);
  }

  // Only the set of harvested inputs matters: fixtures may be listed, split or
  // repeated in any way.
  lemma OrderOfFixturesIrrelevant(existing: seq<Entry>, a: seq<Fixture>, b: seq<Fixture>)
    requires Elements(Entries(a)) == Elements(Entries(b))
    ensures Added(existing, a) == Added(existing, b)
  {
    var ua := Unseen(Elements(existing), Entries(a));
    var ub := Unseen(Elements(existing), Entries(b));
    UnseenExactly(Elements(existing), Entries(a));
    UnseenExactly(Elements(existing), Entries(b));
    DistinctFromElements(ua, ub);
    BeforeIsOrder();
    StableSortSorted(Before, ua);
    StableSortSorted(Before, ub);
    BeforeSeparates(StableSort(Before, ua));
    SortedUnique(Before, StableSort(Before, ua), StableSort(Before, ub));
  }

  // Running the harvest again on its own output appends nothing.
  lemma RerunAddsNothing(existing: seq<Entry>, fixtures: seq<Fixture>)
    ensures Added(existing + Added(existing, fixtures), fixtures) == []
  {
    var grown := existing + Added(existing, fixtures);
    AddedExactly(existing, fixtures);
    AddedExactly(grown, fixtures);
    assert Elements(grown) == Elements(existing) + Elements(Added(existing, fixtures));
    assert Elements(Entries(fixtures)) - Elements(grown) == {};
    var again := Added(grown, fixtures);
    ElementsEmpty(again);
  }
}
