// What makes a sort stable: elements that tie keep their input order, and being
// sorted and stable determines the result.
module Stability {
  import opened Collecting
  import opened Sorting

  function Filter<T>(keep: T -> bool, s: seq<T>): seq<T>
  {
    if s == [] then [] else (if keep(s[0]) then [s[0]] else []) + Filter(keep, s[1..])
  }

  lemma {:induction false} FilterMember<T>(keep: T -> bool, s: seq<T>, x: T)
    ensures x in Filter(keep, s) <==> x in s && keep(x)
  {
    if s != [] {
      FilterMember(keep, s[1..], x);
      assert s == [s[0]] + s[1..];
    }
  }

  lemma {:induction false} FilterSplit<T>(keep: T -> bool, s: seq<T>, t: seq<T>)
    ensures Filter(keep, s + t) == Filter(keep, s) + Filter(keep, t)
  {
    if s == [] {
      assert s + t == t;
    } else {
      FilterSplit(keep, s[1..], t);
      assert (s + t)[0] == s[0] && (s + t)[1..] == s[1..] + t;
      Associate(if keep(s[0]) then [s[0]] else [], Filter(keep, s[1..]), Filter(keep, t));
    }
  }

  lemma {:induction false} FilterFirst<T>(keep: T -> bool, s: seq<T>, k: nat)
    requires k < |s| && keep(s[k]) && forall i :: 0 <= i < k ==> !keep(s[i])
    ensures Filter(keep, s) != [] && Filter(keep, s)[0] == s[k]
  {
    if k > 0 { FilterFirst(keep, s[1..], k - 1); }
  }

  // No two kept elements are ordered.
  ghost predicate Indifferent<T(!new)>(before: (T, T) -> bool, keep: T -> bool)
  {
    forall x, y :: keep(x) && keep(y) ==> !before(x, y)
  }

  lemma {:induction false} InsertStable<T(!new)>(before: (T, T) -> bool, keep: T -> bool, x: T, s: seq<T>)
    requires Indifferent(before, keep)
    ensures Filter(keep, Insert(before, x, s)) == Filter(keep, [x] + s)
  {
    assert ([x] + s)[1..] == s;
    if s != [] && before(s[0], x) {
      InsertStable(before, keep, x, s[1..]);
      assert ([x] + s[1..])[1..] == s[1..];
    }
  }

  // Elements that tie keep their input order.
  lemma {:induction false} StableSortStable<T(!new)>(before: (T, T) -> bool, keep: T -> bool, s: seq<T>)
    requires Indifferent(before, keep)
    ensures Filter(keep, StableSort(before, s)) == Filter(keep, s)
  {
    if s != [] {
      StableSortStable(before, keep, s[1..]);
      InsertStable(before, keep, s[0], StableSort(before, s[1..]));
      assert ([s[0]] + StableSort(before, s[1..]))[1..] == StableSort(before, s[1..]);
    }
  }

  function Ties<T>(before: (T, T) -> bool, x: T): T -> bool
  {
    y => !before(x, y) && !before(y, x)
  }

  ghost predicate SameClasses<T(!new)>(before: (T, T) -> bool, s: seq<T>, t: seq<T>)
  {
    forall x :: Filter(Ties(before, x), s) == Filter(Ties(before, x), t)
  }

  lemma ClassHead<T(!new)>(before: (T, T) -> bool, s: seq<T>, t: seq<T>)
    requires StrictWeakOrder(before) && SortedBy(before, s) && SameClasses(before, s, t) && t != []
    ensures s != [] && !before(t[0], s[0])
  {
    var ties := Ties(before, t[0]);
    FilterMember(ties, t, t[0]);
    FilterMember(ties, s, t[0]);
    var i :| 0 <= i < |s| && s[i] == t[0];
  }

  // Sorted arrangements that agree on the order of ties are the same: being sorted
  // and stable determines the result.
  lemma {:induction false} StableUnique<T(!new)>(before: (T, T) -> bool, s: seq<T>, t: seq<T>)
    requires StrictWeakOrder(before) && SortedBy(before, s) && SortedBy(before, t) && SameClasses(before, s, t)
    ensures s == t
  {
    if t == [] {
      if s != [] { ClassHead(before, t, s); }
    } else {
      ClassHead(before, s, t);
      ClassHead(before, t, s);
      var ties := Ties(before, s[0]);
      assert Filter(ties, s)[0] == s[0] && Filter(ties, t)[0] == t[0];
      forall x ensures Filter(Ties(before, x), s[1..]) == Filter(Ties(before, x), t[1..]) {
        var head := if Ties(before, x)(s[0]) then [s[0]] else [];
        assert Filter(Ties(before, x), s) == Filter(Ties(before, x), t);
        PrefixCancels(head, Filter(Ties(before, x), s[1..]), Filter(Ties(before, x), t[1..]));
      }
      StableUnique(before, s[1..], t[1..]);
      assert s == [s[0]] + s[1..] && t == [t[0]] + t[1..];
    }
  }
}
