// Choosing one element by a single scan that keeps the best so far, and when the
// choice does not depend on the order of the elements.
module Choosing {
  import opened Options

  // What the scan ends with: an element that is not ok is passed over, any other
  // replaces the best so far if it is better.
  function Chosen<T>(ok: T -> bool, better: (T, T) -> bool, s: seq<T>): Option<T>
  {
    if s == [] then None
    else
      var before, next := Chosen(ok, better, s[..|s| - 1]), s[|s| - 1];
      if ok(next) && (before.None? || better(next, before.value)) then Some(next) else before
  }

  // The same scan, keeping the position of the best so far.
  function ChosenAt<T>(ok: T -> bool, better: (T, T) -> bool, s: seq<T>): (k: Option<nat>)
    ensures k.Some? ==> k.value < |s|
  {
    if s == [] then None
    else
      var before, n := ChosenAt(ok, better, s[..|s| - 1]), |s| - 1;
      if ok(s[n]) && (before.None? || better(s[n], s[before.value])) then Some(n) else before
  }

  lemma {:induction false} ChosenAtMeans<T>(ok: T -> bool, better: (T, T) -> bool, s: seq<T>)
    ensures ChosenAt(ok, better, s).Some? ==> ok(s[ChosenAt(ok, better, s).value])
    ensures ChosenAt(ok, better, s).None? <==> forall i :: 0 <= i < |s| ==> !ok(s[i])
  {
    if s != [] { ChosenAtMeans(ok, better, s[..|s| - 1]); }
  }

  // A scan over images decides as a scan over what they stand for.
  lemma {:induction false} ChosenImage<S, T>(ok: T -> bool, better: (T, T) -> bool, s: seq<T>,
                                             ok': S -> bool, better': (S, S) -> bool, images: seq<S>)
    requires |images| == |s|
    requires forall i :: 0 <= i < |s| ==> ok'(images[i]) == ok(s[i])
    requires forall i, j :: 0 <= i < |s| && 0 <= j < |s| ==> better'(images[i], images[j]) == better(s[i], s[j])
    ensures Chosen(ok, better, s) ==
            if ChosenAt(ok', better', images).None? then None else Some(s[ChosenAt(ok', better', images).value])
  {
    if s != [] { ChosenImage(ok, better, s[..|s| - 1], ok', better', images[..|s| - 1]); }
  }

  lemma {:induction false} ChosenFrom<T>(ok: T -> bool, better: (T, T) -> bool, s: seq<T>)
    ensures Chosen(ok, better, s).Some? ==> Chosen(ok, better, s).value in s && ok(Chosen(ok, better, s).value)
    ensures Chosen(ok, better, s).None? <==> forall i :: 0 <= i < |s| ==> !ok(s[i])
  {
    if s != [] { ChosenFrom(ok, better, s[..|s| - 1]); }
  }

  // ------------------------------------------------------------ the champion

  // r is ok and better than every other such element, and none is better than r.
  predicate Champion<T(==)>(ok: T -> bool, better: (T, T) -> bool, s: seq<T>, r: T)
  {
    && r in s && ok(r)
    && forall x :: x in s && x != r && ok(x) ==> better(r, x) && !better(x, r)
  }

  // Once met, a champion stays the best.
  lemma {:induction false} ChampionStays<T>(ok: T -> bool, better: (T, T) -> bool, s: seq<T>, r: T, n: nat)
    requires n <= |s| && Champion(ok, better, s, r) && !better(r, r)
    ensures r in s[..n] ==> Chosen(ok, better, s[..n]) == Some(r)
  {
    if n > 0 {
      ChampionStays(ok, better, s, r, n - 1);
      ChosenFrom(ok, better, s[..n - 1]);
      assert s[..n][..n - 1] == s[..n - 1];
    }
  }

  lemma ChampionIsChosen<T>(ok: T -> bool, better: (T, T) -> bool, s: seq<T>, r: T)
    requires Champion(ok, better, s, r) && !better(r, r)
    ensures Chosen(ok, better, s) == Some(r)
  {
    ChampionStays(ok, better, s, r, |s|);
    assert s[..|s|] == s;
  }

  // x, met first, is not displaced by copies of r that are no better; what follows
  // holds no r.
  lemma {:induction false} NeverChosen<T>(ok: T -> bool, better: (T, T) -> bool, s: seq<T>, copies: nat, x: T, r: T)
    requires x != r && ok(x) && !better(r, x) && s != [] && s[0] == x
    requires forall i :: 1 <= i < |s| ==> if i <= copies then s[i] == r else s[i] != r
    ensures if |s| <= copies + 1 then Chosen(ok, better, s) == Some(x) else Chosen(ok, better, s) != Some(r)
  {
    if |s| == 1 {
      assert s[..0] == [];
    } else {
      NeverChosen(ok, better, s[..|s| - 1], copies, x, r);
    }
  }

  lemma {:induction false} Partition<T>(s: seq<T>, r: T) returns (copies: seq<T>, rest: seq<T>)
    ensures multiset(copies) + multiset(rest) == multiset(s)
    ensures r !in rest && forall i :: 0 <= i < |copies| ==> copies[i] == r
  {
    if s == [] { return [], []; }
    copies, rest := Partition(s[1..], r);
    assert s == [s[0]] + s[1..];
    if s[0] == r { copies := [r] + copies; } else { rest := [s[0]] + rest; }
  }

  lemma TakeOut<T>(s: seq<T>, x: T) returns (others: seq<T>)
    requires x in s
    ensures multiset(others) + multiset{x} == multiset(s)
  {
    var k :| 0 <= k < |s| && s[k] == x;
    others := s[..k] + s[k + 1..];
    assert s == s[..k] + [x] + s[k + 1..];
  }

  // An order in which r loses because x comes first.
  lemma MeetFirst<T>(ok: T -> bool, better: (T, T) -> bool, s: seq<T>, x: T, r: T) returns (order: seq<T>)
    requires x in s && x != r && ok(x) && !better(r, x)
    ensures multiset(order) == multiset(s) && Chosen(ok, better, order) != Some(r)
  {
    var others := TakeOut(s, x);
    var copies, rest := Partition(others, r);
    order := [x] + copies + rest;
    forall i | 1 <= i < |order| ensures if i <= |copies| then order[i] == r else order[i] != r {
      if i > |copies| { assert order[i] == rest[i - 1 - |copies|]; }
    }
    NeverChosen(ok, better, order, |copies|, x, r);
  }

  // An order in which r loses because x comes last.
  lemma MeetLast<T>(ok: T -> bool, better: (T, T) -> bool, s: seq<T>, x: T, r: T) returns (order: seq<T>)
    requires x in s && x != r && ok(x) && better(x, r)
    ensures multiset(order) == multiset(s) && Chosen(ok, better, order) != Some(r)
  {
    var others := TakeOut(s, x);
    order := others + [x];
    assert order[..|order| - 1] == others;
  }

  ghost predicate OrderIrrelevant<T(!new)>(ok: T -> bool, better: (T, T) -> bool, s: seq<T>)
  {
    forall order :: multiset(order) == multiset(s) ==> Chosen(ok, better, order) == Chosen(ok, better, s)
  }

  lemma SameMembers<T>(a: seq<T>, b: seq<T>)
    requires multiset(a) == multiset(b)
    ensures forall x :: x in a <==> x in b
  {
    assert forall x :: x in a <==> x in multiset(a);
    assert forall x :: x in b <==> x in multiset(b);
  }

  lemma ChampionSuffices<T(!new)>(ok: T -> bool, better: (T, T) -> bool, s: seq<T>)
    requires forall x :: !better(x, x)
    requires var chosen := Chosen(ok, better, s); chosen.None? || Champion(ok, better, s, chosen.value)
    ensures OrderIrrelevant(ok, better, s)
  {
    forall order | multiset(order) == multiset(s) ensures Chosen(ok, better, order) == Chosen(ok, better, s) {
      SameMembers(order, s);
      ChosenFrom(ok, better, s);
      ChosenFrom(ok, better, order);
      var chosen := Chosen(ok, better, s);
      if chosen.Some? {
        assert Champion(ok, better, order, chosen.value);
        ChampionIsChosen(ok, better, order, chosen.value);
      } else {
        assert forall x :: x in order ==> x in s && !ok(x);
      }
    }
  }

  // The choice is the same in every order exactly when nothing is ok or some element
  // is champion, and it is then the champion.
  lemma ChoiceExactly<T(!new)>(ok: T -> bool, better: (T, T) -> bool, s: seq<T>)
    requires forall x :: !better(x, x)
    ensures OrderIrrelevant(ok, better, s) <==>
              (forall i :: 0 <= i < |s| ==> !ok(s[i])) || exists r :: Champion(ok, better, s, r)
    ensures forall r :: Champion(ok, better, s, r) ==> Chosen(ok, better, s) == Some(r)
  {
    var chosen := Chosen(ok, better, s);
    ChosenFrom(ok, better, s);
    forall r | Champion(ok, better, s, r) ensures chosen == Some(r) { ChampionIsChosen(ok, better, s, r); }
    if chosen.None? || Champion(ok, better, s, chosen.value) {
      ChampionSuffices(ok, better, s);
    } else {
      var r := chosen.value;
      var x :| x in s && x != r && ok(x) && (!better(r, x) || better(x, r));
      if better(x, r) {
        var order := MeetLast(ok, better, s, x, r);
      } else {
        var order := MeetFirst(ok, better, s, x, r);
      }
    }
  }

  // -------------------------------------------------------- under a total order

  ghost predicate TotalOn<T(!new)>(ok: T -> bool, better: (T, T) -> bool, s: seq<T>)
  {
    && (forall a, b :: a in s && b in s && ok(a) && ok(b) && a != b ==> better(a, b) != better(b, a))
    && (forall a, b, c :: a in s && b in s && c in s && ok(a) && ok(b) && ok(c) && better(a, b) && better(b, c) ==> better(a, c))
  }

  lemma {:induction false} ChosenBeats<T(!new)>(ok: T -> bool, better: (T, T) -> bool, s: seq<T>)
    requires TotalOn(ok, better, s)
    ensures var chosen := Chosen(ok, better, s);
            chosen.Some? ==> forall x :: x in s && ok(x) && x != chosen.value ==> better(chosen.value, x)
  {
    if s != [] {
      var n := |s| - 1;
      assert s == s[..n] + [s[n]];
      ChosenBeats(ok, better, s[..n]);
      ChosenFrom(ok, better, s[..n]);
    }
  }

  // Under a total order the choice is the maximum, hence the champion.
  lemma ChosenIsMaximum<T(!new)>(ok: T -> bool, better: (T, T) -> bool, s: seq<T>, r: T)
    requires TotalOn(ok, better, s) && r in s && ok(r)
    ensures Chosen(ok, better, s) == Some(r) <==> forall x :: x in s && ok(x) && x != r ==> better(r, x)
    ensures Chosen(ok, better, s) == Some(r) <==> Champion(ok, better, s, r)
  {
    ChosenBeats(ok, better, s);
    ChosenFrom(ok, better, s);
    var i :| 0 <= i < |s| && s[i] == r;
    assert Chosen(ok, better, s).Some?;
  }
}
