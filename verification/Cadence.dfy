// When a want is searched next, and how often that can happen. Instants and
// durations are nanoseconds; a difference of instants saturates to 64 bits.
module Cadence {
  import opened Numbers

  const MINUTE := 60_000_000_000
  const HOUR := 60 * MINUTE
  const DAY := 24 * HOUR
  const WEEK := 7 * DAY

  datatype Strategy = Smart | Fixed | Unknown

  function NextRunAt(strategy: Strategy, anchor: int, now: int): int
  {
    if strategy == Fixed then now + 6 * HOUR else SmartNextRunAt(anchor, now)
  }

  function SmartNextRunAt(anchor: int, now: int): int
  {
    var delta := Clamp64(now - anchor);
    if delta < 0 then anchor
    else if delta < HOUR then now + HOUR
    else if delta < 6 * HOUR then now + 15 * MINUTE
    else if delta < DAY then now + HOUR
    else if delta < WEEK then now + 6 * HOUR
    else now + DAY
  }

  // Before the release moment a smart want is due exactly then; from then on, and
  // always at a fixed cadence, due times strictly advance by 15 minutes to a day.
  lemma DueTimesAdvance(strategy: Strategy, anchor: int, now: int)
    ensures strategy != Fixed && now < anchor ==> NextRunAt(strategy, anchor, now) == anchor
    ensures strategy == Fixed || now >= anchor ==> now + 15 * MINUTE <= NextRunAt(strategy, anchor, now) <= now + DAY
    ensures now < NextRunAt(strategy, anchor, now)
  {
  }

  // How long after a search at this age of the release, in minutes, the next one is due.
  function DelayAt(age: int): int
  {
    if age < 60 then 60 else if age < 360 then 15 else if age < 1440 then 60 else if age < 10080 then 360 else 1440
  }

  // Instant by instant: a fixed cadence is six hours. A smart one waits for the release
  // and then follows the age of the release in whole minutes: hourly at first, quarter-
  // hourly up to six hours, hourly up to a day, six-hourly up to a week, daily after.
  lemma DueTimesExactly(strategy: Strategy, anchor: int, now: int)
    ensures strategy == Fixed ==> NextRunAt(strategy, anchor, now) - now == 360 * MINUTE
    ensures strategy != Fixed && now < anchor ==> NextRunAt(strategy, anchor, now) == anchor
    ensures strategy != Fixed && now >= anchor ==>
              NextRunAt(strategy, anchor, now) - now == DelayAt((now - anchor) / MINUTE) * MINUTE
    ensures MINUTE == 60 * 1_000_000_000
  {
    AgeInMinutes(now - anchor, 60);
    AgeInMinutes(now - anchor, 360);
    AgeInMinutes(now - anchor, 1440);
    AgeInMinutes(now - anchor, 10080);
  }

  lemma AgeInMinutes(age: int, minutes: nat)
    ensures age / MINUTE < minutes <==> age < minutes * MINUTE
  {
  }

  // ------------------------------------------------------- searches in a week

  // Searches of one want, each no earlier than the one before it made it due.
  predicate Paced(strategy: Strategy, anchor: int, runs: seq<int>)
  {
    forall i :: 0 <= i < |runs| - 1 ==> NextRunAt(strategy, anchor, runs[i]) <= runs[i + 1]
  }

  predicate InFirstWeek(anchor: int, run: int) { anchor <= run < anchor + WEEK }

  function CountInFirstWeek(anchor: int, runs: seq<int>): nat
  {
    if runs == [] then 0
    else (if InFirstWeek(anchor, runs[0]) then 1 else 0) + CountInFirstWeek(anchor, runs[1..])
  }

  // Steps of this length that start in [delta, bound).
  function Slots(delta: int, bound: int, step: int): int
    requires step > 0
  {
    if delta >= bound then 0 else (bound - delta + step - 1) / step
  }

  // How many searches a run at this offset and its successors can still place in
  // the first week: 1 + 20 + 18 + 24 by tier.
  function Budget(delta: int): int
  {
    if delta < HOUR then 63
    else if delta < 6 * HOUR then 42 + Slots(delta, 6 * HOUR, 15 * MINUTE)
    else if delta < DAY then 24 + Slots(delta, DAY, HOUR)
    else Slots(delta, WEEK, 6 * HOUR)
  }

  lemma BudgetShrinks(delta: int, delta': int)
    requires delta <= delta'
    ensures 0 <= Budget(delta') <= Budget(delta) <= 63
  {
  }

  lemma BudgetStep(anchor: int, now: int)
    requires InFirstWeek(anchor, now)
    ensures Budget(SmartNextRunAt(anchor, now) - anchor) <= Budget(now - anchor) - 1
  {
  }

  // A search in the first week uses up one unit, one before it none.
  lemma BudgetSpent(anchor: int, now: int, next: int)
    requires SmartNextRunAt(anchor, now) <= next
    ensures InFirstWeek(anchor, now) ==> Budget(next - anchor) <= Budget(now - anchor) - 1
    ensures 0 <= Budget(next - anchor) <= Budget(now - anchor) <= 63
  {
    DueTimesAdvance(Smart, anchor, now);
    BudgetShrinks(now - anchor, next - anchor);
    BudgetShrinks(SmartNextRunAt(anchor, now) - anchor, next - anchor);
    if InFirstWeek(anchor, now) { BudgetStep(anchor, now); }
  }

  lemma {:induction false} CountWithinBudget(strategy: Strategy, anchor: int, runs: seq<int>)
    requires strategy != Fixed && Paced(strategy, anchor, runs) && runs != []
    ensures CountInFirstWeek(anchor, runs) <= Budget(runs[0] - anchor)
  {
    if |runs| == 1 {
      assert runs[1..] == [];
      BudgetSpent(anchor, runs[0], SmartNextRunAt(anchor, runs[0]));
    } else {
      BudgetSpent(anchor, runs[0], runs[1]);
      CountWithinBudget(strategy, anchor, runs[1..]);
    }
  }

  // At a fixed cadence four searches a day are left.
  function FixedBudget(delta: int): int
  {
    if delta < 0 then 28 else Slots(delta, WEEK, 6 * HOUR)
  }

  lemma FixedBudgetSpent(anchor: int, now: int, next: int)
    requires now + 6 * HOUR <= next
    ensures InFirstWeek(anchor, now) ==> FixedBudget(next - anchor) <= FixedBudget(now - anchor) - 1
    ensures 0 <= FixedBudget(next - anchor) <= FixedBudget(now - anchor) <= 28
  {
  }

  lemma {:induction false} CountWithinFixedBudget(anchor: int, runs: seq<int>)
    requires Paced(Fixed, anchor, runs) && runs != []
    ensures CountInFirstWeek(anchor, runs) <= FixedBudget(runs[0] - anchor)
  {
    if |runs| == 1 {
      assert runs[1..] == [];
      FixedBudgetSpent(anchor, runs[0], runs[0] + 6 * HOUR);
    } else {
      FixedBudgetSpent(anchor, runs[0], runs[1]);
      CountWithinFixedBudget(anchor, runs[1..]);
    }
  }

  // At most 63 searches of any paced run fall in the week after the release, and at
  // most 28 of one at a fixed cadence.
  lemma FirstWeekBound(strategy: Strategy, anchor: int, runs: seq<int>)
    requires Paced(strategy, anchor, runs)
    ensures CountInFirstWeek(anchor, runs) <= if strategy == Fixed then 28 else 63
  {
    if runs != [] {
      if strategy == Fixed {
        CountWithinFixedBudget(anchor, runs);
        FixedBudgetSpent(anchor, runs[0], runs[0] + 6 * HOUR);
      } else {
        CountWithinBudget(strategy, anchor, runs);
        BudgetSpent(anchor, runs[0], SmartNextRunAt(anchor, runs[0]));
      }
    }
  }

  // The eager run: always searching the moment it is due, from the release on.
  function EagerAt(n: nat): int
  {
    if n == 0 then 0
    else if n <= 20 then HOUR + (n - 1) * 15 * MINUTE
    else if n <= 38 then 6 * HOUR + (n - 21) * HOUR
    else DAY + (n - 39) * 6 * HOUR
  }

  function EagerRun(anchor: int, from: nat): seq<int>
    requires from <= 63
    decreases 63 - from
  {
    if from == 63 then [] else [anchor + EagerAt(from)] + EagerRun(anchor, from + 1)
  }

  lemma EagerIsDue(anchor: int, n: nat)
    requires n < 63
    ensures InFirstWeek(anchor, anchor + EagerAt(n))
    ensures n < 62 ==> SmartNextRunAt(anchor, anchor + EagerAt(n)) == anchor + EagerAt(n + 1)
  {
  }

  lemma PacedCons(anchor: int, run: int, rest: seq<int>)
    requires Paced(Smart, anchor, rest) && (rest != [] ==> SmartNextRunAt(anchor, run) <= rest[0])
    ensures Paced(Smart, anchor, [run] + rest)
  {
  }

  lemma {:induction false} EagerRunPaced(anchor: int, from: nat)
    requires from <= 63
    ensures from < 63 ==> EagerRun(anchor, from) != [] && EagerRun(anchor, from)[0] == anchor + EagerAt(from)
    ensures Paced(Smart, anchor, EagerRun(anchor, from))
    ensures CountInFirstWeek(anchor, EagerRun(anchor, from)) == 63 - from
    decreases 63 - from
  {
    if from < 63 {
      var rest := EagerRun(anchor, from + 1);
      EagerRunPaced(anchor, from + 1);
      EagerIsDue(anchor, from);
      PacedCons(anchor, anchor + EagerAt(from), rest);
      assert EagerRun(anchor, from)[1..] == rest;
    }
  }

  // The bound is reached.
  lemma FirstWeekBoundTight(anchor: int)
    ensures Paced(Smart, anchor, EagerRun(anchor, 0)) && CountInFirstWeek(anchor, EagerRun(anchor, 0)) == 63
  {
    EagerRunPaced(anchor, 0);
  }

  // ------------------------------------------------------------- failed syncs

  const BACKOFF_BASE := 15 * MINUTE
  const BACKOFF_CAP := 24 * HOUR

  function Pow2(n: nat): nat { if n == 0 then 1 else 2 * Pow2(n - 1) }

  // metadataBackoff, with the shift written as a power of two.
  function Backoff(attempt: int): int
  {
    var shift: nat := if attempt < 1 then 0 else attempt - 1;
    if shift > 8 then BACKOFF_CAP
    else if BACKOFF_BASE * Pow2(shift) < BACKOFF_CAP then BACKOFF_BASE * Pow2(shift)
    else BACKOFF_CAP
  }

  lemma {:induction false} Pow2AtLeast(n: nat, m: nat)
    requires n <= m
    ensures Pow2(n) <= Pow2(m)
    decreases m - n
  {
    if n < m { Pow2AtLeast(n, m - 1); }
  }

  // Clamping the exponent is harmless: for every attempt, those below the first
  // counting as the first, the back-off is the unclamped doubling, capped, and no
  // shift overflows.
  lemma BackoffIsCappedDoubling(attempt: int)
    ensures var doublings: nat := if attempt < 1 then 0 else attempt - 1;
            && Backoff(attempt) == (if 15 * MINUTE * Pow2(doublings) < 1440 * MINUTE then 15 * MINUTE * Pow2(doublings) else 1440 * MINUTE)
            && (doublings <= 8 ==> InInt64(BACKOFF_BASE * Pow2(doublings)))
  {
    assert Pow2(4) == 16 && Pow2(8) == 16 * Pow2(4) by {
      assert Pow2(2) == 4 && Pow2(6) == 4 * Pow2(4);
    }
    if attempt - 1 > 8 { Pow2AtLeast(8, attempt - 1); } else if attempt >= 1 { Pow2AtLeast(attempt - 1, 8); }
  }
}
