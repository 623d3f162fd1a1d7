// The few facts about products and quotients of variables that the bounds need.
module Arithmetic {

  lemma MulMonotone(a: int, b: int, c: int)
    requires a <= b && 0 <= c
    ensures a * c <= b * c
  {
    assert (b - a) * c >= 0;
  }

  lemma DivIsQuotient(a: int, d: int, q: int)
    requires d > 0 && q * d <= a < (q + 1) * d
    ensures a / d == q
  {
    var p := a / d;
    assert p * d <= a < (p + 1) * d;
    if p < q {
      MulMonotone(p + 1, q, d);
    } else if q < p {
      MulMonotone(q + 1, p, d);
    }
  }

  lemma DivMonotone(a: int, b: int, d: int)
    requires d > 0 && a <= b
    ensures a / d <= b / d
  {
    var p, q := a / d, b / d;
    assert p * d <= a && b < (q + 1) * d;
    if q < p { MulMonotone(q + 1, p, d); }
  }

  lemma DivStep(a: int, d: int)
    requires d > 0
    ensures (a - d) / d == a / d - 1
  {
    var q := a / d;
    assert q * d <= a < (q + 1) * d;
    assert (q - 1) * d == q * d - d && (q + 1) * d == q * d + d;
    DivIsQuotient(a - d, d, q - 1);
  }

  // A lexicographic rank-then-gap measure drops when the rank does, whatever the
  // gap, and when the gap shrinks by a whole step at the same rank.
  lemma MeasureDrops(rank: nat, rank': nat, span: int, gap: int, gap': int, step: int)
    requires step > 0 && 0 <= gap && gap' <= span && 0 <= span
    requires rank' < rank || (rank' == rank && gap' <= gap - step)
    ensures var per := span / step; rank' * (per + 1) + gap' / step < rank * (per + 1) + gap / step
  {
    var per := span / step;
    if rank' < rank {
      DivMonotone(gap', span, step);
      DivMonotone(0, gap, step);
      DivMonotone(0, span, step);
      MulMonotone(rank' + 1, rank, per + 1);
      assert (rank' + 1) * (per + 1) == rank' * (per + 1) + per + 1;
    } else {
      DivMonotone(gap', gap - step, step);
      DivStep(gap, step);
    }
  }

  // And it is bounded by what the top rank and the whole span allow.
  lemma MeasureBounded(rank: nat, ranks: nat, span: nat, gap: int, step: int)
    requires step > 0 && 0 <= gap <= span && rank <= ranks
    ensures var per := span / step; 0 <= rank * (per + 1) + gap / step <= ranks + (ranks + 1) * per
  {
    var per := span / step;
    DivMonotone(0, gap, step);
    DivMonotone(gap, span, step);
    MulMonotone(rank, ranks, per + 1);
    MulMonotone(0, rank, per + 1);
    assert ranks * (per + 1) + per == ranks + (ranks + 1) * per;
  }
}
