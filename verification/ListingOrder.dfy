// The order of the parsed paths: parse itself neither sorts nor deduplicates, so it is
// the listing's order that shows.
module ListingOrder {
  import opened Collecting
  import opened Options
  import opened Ordering
  import opened Paths
  import opened TreeListing

  // ------------------------------------------------------- comparing by entry

  // How an entry sorts among its siblings: a directory as if its name ended in the
  // separator that every path below it has there.
  function Key(name: string, isDir: bool): string
  {
    if isDir then name + [SEPARATOR] else name
  }

  // A path at or below the entry.
  predicate PathOf(name: string, isDir: bool, path: string)
  {
    if isDir then Key(name, isDir) <= path else path == name
  }

  // Paths of differently named entries compare as the entries' keys do.
  lemma {:induction false} ComparedByKey(m: string, d: bool, p: string, n: string, e: bool, q: string)
    requires m != n && SEPARATOR !in m && SEPARATOR !in n && PathOf(m, d, p) && PathOf(n, e, q)
    ensures Less(p, q) <==> Less(Key(m, d), Key(n, e))
  {
    if m == "" {
      assert q[0] == n[0] == Key(n, e)[0] && n[0] in n;
      assert d ==> p[0] == SEPARATOR == Key(m, d)[0];
    } else if n == "" {
      assert p[0] == m[0] == Key(m, d)[0] && m[0] in m;
      assert e ==> q[0] == SEPARATOR == Key(n, e)[0];
    } else {
      assert p[0] == m[0] == Key(m, d)[0] && q[0] == n[0] == Key(n, e)[0];
      if m[0] == n[0] {
        assert m == [m[0]] + m[1..] && n == [n[0]] + n[1..];
        assert Key(m, d)[1..] == Key(m[1..], d) && Key(n, e)[1..] == Key(n[1..], e);
        ComparedByKey(m[1..], d, p[1..], n[1..], e, q[1..]);
      }
    }
  }

  lemma {:induction false} LessBehind(prefix: string, p: string, q: string)
    ensures Less(prefix + p, prefix + q) <==> Less(p, q)
  {
    if prefix == "" {
      assert prefix + p == p && prefix + q == q;
    } else {
      LessBehind(prefix[1..], p, q);
      assert (prefix + p)[1..] == prefix[1..] + p && (prefix + q)[1..] == prefix[1..] + q;
    }
  }

  // ------------------------------------------------------ the paths of a forest

  function Behind(prefix: string, paths: seq<string>): (r: seq<string>)
    ensures |r| == |paths| && forall i :: 0 <= i < |r| ==> r[i] == prefix + paths[i]
  {
    if paths == [] then [] else [prefix + paths[0]] + Behind(prefix, paths[1..])
  }

  // The paths at or below one entry, and of a whole forest.
  function EntryPaths(name: string, below: Forest): seq<string>
    decreases below, 1
  {
    if below.Empty? then [name] else Behind(name + [SEPARATOR], ForestPaths(below))
  }

  function ForestPaths(forest: Forest): seq<string>
    decreases forest, 0
  {
    match forest
    case Empty => []
    case Branch(name, below, rest) => EntryPaths(name, below) + ForestPaths(rest)
  }

  lemma {:induction false} BehindSplit(prefix: string, a: seq<string>, b: seq<string>)
    ensures Behind(prefix, a + b) == Behind(prefix, a) + Behind(prefix, b)
  {
  }

  lemma BehindTwice(outer: string, inner: string, paths: seq<string>)
    ensures Behind(outer, Behind(inner, paths)) == Behind(outer + inner, paths)
  {
    forall i | 0 <= i < |paths| ensures outer + (inner + paths[i]) == outer + inner + paths[i] {
      Associate(outer, inner, paths[i]);
    }
  }

  function Above(names: seq<string>): string
  {
    if names == [] then "" else names[0] + [SEPARATOR] + Above(names[1..])
  }

  lemma {:induction false} JoinedAbove(above: seq<string>, name: string)
    ensures Intercalate(above + [name]) == Above(above) + name
    ensures Above(above + [name]) == Above(above) + (name + [SEPARATOR])
  {
    if above == [] {
      assert above + [name] == [name] && [name][1..] == [];
      assert "" + name == name;
    } else {
      JoinedAbove(above[1..], name);
      assert (above + [name])[1..] == above[1..] + [name];
      Associate(above[0] + [SEPARATOR], Above(above[1..]), name);
      Associate(above[0] + [SEPARATOR], Above(above[1..]), name + [SEPARATOR]);
    }
  }

  // The parser's output for a forest of plain names.
  lemma {:induction false} ParsedPaths(forest: Forest, above: seq<string>)
    requires PlainNames(forest) && AllPlain(above)
    ensures JoinAll(LeafPaths(forest, above)) == Behind(Above(above), ForestPaths(forest))
  {
    match forest
    case Empty =>
    case Branch(name, below, rest) =>
      var inner := above + [name];
      JoinedAbove(above, name);
      ParsedPaths(rest, above);
      BehindSplit(Above(above), EntryPaths(name, below), ForestPaths(rest));
      if below.Empty? {
        JoinPlain(inner);
        JoinAllSplit([inner], LeafPaths(rest, above));
        assert JoinAll([inner]) == [Join(inner)];
        assert Behind(Above(above), [name]) == [Above(above) + name];
      } else {
        ParsedPaths(below, inner);
        JoinAllSplit(LeafPaths(below, inner), LeafPaths(rest, above));
        BehindTwice(Above(above), name + [SEPARATOR], ForestPaths(below));
      }
  }

  lemma JoinedPaths(forest: Forest)
    requires PlainNames(forest)
    ensures JoinAll(LeafPaths(forest, [])) == ForestPaths(forest)
  {
    ParsedPaths(forest, []);
    assert forall i :: 0 <= i < |ForestPaths(forest)| ==> "" + ForestPaths(forest)[i] == ForestPaths(forest)[i];
  }

  // --------------------------------------------------------------- sortedness

  predicate Increasing(paths: seq<string>)
  {
    forall i, j :: 0 <= i < j < |paths| ==> Less(paths[i], paths[j])
  }

  predicate NameAbsent(name: string, forest: Forest)
  {
    forest.Branch? ==> forest.name != name && NameAbsent(name, forest.rest)
  }

  // No directory lists a name twice.
  predicate DistinctSiblings(forest: Forest)
  {
    forest.Branch? ==> NameAbsent(forest.name, forest.rest) && DistinctSiblings(forest.below) && DistinctSiblings(forest.rest)
  }

  function FirstKey(forest: Forest): string
    requires forest.Branch?
  {
    Key(forest.name, forest.below.Branch?)
  }

  // In every directory, consecutive entries increase by key.
  predicate KeysIncrease(forest: Forest)
  {
    forest.Branch? ==>
      && (forest.rest.Branch? ==> Less(FirstKey(forest), FirstKey(forest.rest)))
      && KeysIncrease(forest.below) && KeysIncrease(forest.rest)
  }

  lemma {:induction false} EntryPathsBelow(name: string, below: Forest)
    ensures EntryPaths(name, below) != []
    ensures forall i :: 0 <= i < |EntryPaths(name, below)| ==> PathOf(name, below.Branch?, EntryPaths(name, below)[i])
    decreases below
  {
    if below.Branch? { EntryPathsBelow(below.name, below.below); }
  }

  // What sorts before the first of some entries in order sorts before all of them.
  lemma {:induction false} BeforeAll(name: string, isDir: bool, path: string, forest: Forest, i: nat)
    requires SEPARATOR !in name && PathOf(name, isDir, path) && PlainNames(forest) && NameAbsent(name, forest)
    requires KeysIncrease(forest) && (forest.Branch? ==> Less(Key(name, isDir), FirstKey(forest)))
    requires i < |ForestPaths(forest)|
    ensures Less(path, ForestPaths(forest)[i])
  {
    var first := EntryPaths(forest.name, forest.below);
    if i < |first| {
      EntryPathsBelow(forest.name, forest.below);
      ComparedByKey(name, isDir, path, forest.name, forest.below.Branch?, first[i]);
    } else {
      if forest.rest.Branch? { LessTransitive(Key(name, isDir), FirstKey(forest), FirstKey(forest.rest)); }
      BeforeAll(name, isDir, path, forest.rest, i - |first|);
    }
  }

  lemma IncreasingParts(a: seq<string>, b: seq<string>)
    ensures Increasing(a + b) <==>
              Increasing(a) && Increasing(b) && forall i, j :: 0 <= i < |a| && 0 <= j < |b| ==> Less(a[i], b[j])
  {
    var s := a + b;
    if Increasing(s) {
      forall i, j | 0 <= i < j < |a| ensures Less(a[i], a[j]) { assert s[i] == a[i] && s[j] == a[j]; }
      forall i, j | 0 <= i < j < |b| ensures Less(b[i], b[j]) { assert s[|a| + i] == b[i] && s[|a| + j] == b[j]; }
      forall i, j | 0 <= i < |a| && 0 <= j < |b| ensures Less(a[i], b[j]) { assert s[i] == a[i] && s[|a| + j] == b[j]; }
    }
  }

  lemma IncreasingBehind(prefix: string, paths: seq<string>)
    ensures Increasing(Behind(prefix, paths)) <==> Increasing(paths)
  {
    forall i, j | 0 <= i < j < |paths| ensures Less(Behind(prefix, paths)[i], Behind(prefix, paths)[j]) <==> Less(paths[i], paths[j]) {
      LessBehind(prefix, paths[i], paths[j]);
    }
  }

  lemma {:induction false} IncreasingExactly(forest: Forest)
    requires PlainNames(forest) && DistinctSiblings(forest)
    ensures Increasing(ForestPaths(forest)) <==> KeysIncrease(forest)
  {
    match forest
    case Empty =>
    case Branch(name, below, rest) =>
      var first, others := EntryPaths(name, below), ForestPaths(rest);
      IncreasingExactly(below);
      IncreasingExactly(rest);
      IncreasingParts(first, others);
      EntryPathsBelow(name, below);
      if below.Branch? { IncreasingBehind(name + [SEPARATOR], ForestPaths(below)); }
      if KeysIncrease(forest) {
        forall i, j | 0 <= i < |first| && 0 <= j < |others| ensures Less(first[i], others[j]) {
          BeforeAll(name, below.Branch?, first[i], rest, j);
        }
      } else if rest.Branch? {
        EntryPathsBelow(rest.name, rest.below);
        assert others[0] == EntryPaths(rest.name, rest.below)[0];
        ComparedByKey(name, below.Branch?, first[0], rest.name, rest.below.Branch?, others[0]);
      }
  }

  // The paths parsed from a printed forest come out sorted, without repeats, exactly
  // when in every directory consecutive entries increase by name, directories compared
  // as if their name ended in '/'.
  lemma ParsedSortedExactly(forest: Forest, header: seq<string>, footer: seq<string>, layout: Layout, grow: nat -> nat)
    requires Grows(grow) && IsLayout(layout) && Noise(header) && Noise(footer)
    requires PlainNames(forest) && DistinctSiblings(forest)
    ensures var paths := BoxPaths(header + PrintTree(forest, "", layout) + footer, grow);
            paths.Some? && (Increasing(paths.value) <==> KeysIncrease(forest))
  {
    ParseInvertsPrint(forest, header, footer, layout, grow);
    JoinedPaths(forest);
    IncreasingExactly(forest);
  }

  // Siblings in plain name order need not be: a directory listed before a file whose
  // name goes on with a character below '/', such as a before a-b.
  lemma NameOrderIsNotEnough(dir: string, file: string, c: char, more: string)
    requires c < SEPARATOR
    ensures var forest := Branch(dir, Branch(file, Empty, Empty), Branch(dir + [c] + more, Empty, Empty));
            && Less(dir, dir + [c] + more)
            && ForestPaths(forest) == [dir + [SEPARATOR] + file, dir + [c] + more]
            && Less(dir + [c] + more, dir + [SEPARATOR] + file)
  {
    var longer := [c] + more;
    assert dir + [c] + more == dir + longer && dir + "" == dir;
    assert dir + [SEPARATOR] + file == dir + ([SEPARATOR] + file);
    LessBehind(dir, "", longer);
    LessBehind(dir, longer, [SEPARATOR] + file);
    var below, rest := Branch(file, Empty, Empty), Branch(dir + [c] + more, Empty, Empty);
    assert ForestPaths(below) == [file] + [] == [file];
    assert ForestPaths(rest) == [dir + [c] + more] + [] == [dir + [c] + more];
    assert EntryPaths(dir, below) == [dir + [SEPARATOR] + file];
  }

  // --------------------------------------------------------------- repeats

  predicate NoRepeats<T(==)>(s: seq<T>)
  {
    forall i, j :: 0 <= i < j < |s| ==> s[i] != s[j]
  }

  // The parsed paths repeat exactly when the forest's leaf paths do.
  lemma ParsedRepeatsExactly(forest: Forest, header: seq<string>, footer: seq<string>, layout: Layout, grow: nat -> nat)
    requires Grows(grow) && IsLayout(layout) && Noise(header) && Noise(footer) && PlainNames(forest)
    ensures var paths := BoxPaths(header + PrintTree(forest, "", layout) + footer, grow);
            paths.Some? && (NoRepeats(paths.value) <==> NoRepeats(LeafPaths(forest, [])))
  {
    ParseInvertsPrint(forest, header, footer, layout, grow);
    var leaves := LeafPaths(forest, []);
    forall i, j | 0 <= i < j < |leaves| ensures JoinAll(leaves)[i] == JoinAll(leaves)[j] <==> leaves[i] == leaves[j] {
      ParsedPathsSplit(forest, i);
      ParsedPathsSplit(forest, j);
    }
  }
}
