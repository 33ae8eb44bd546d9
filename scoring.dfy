/**
 * The scoring engine both widgets implement: a table of score rows, one per
 * statement, with one entry per category. Answers resolve to picks (a row and
 * a signed coefficient); totals add `coefficient * row[c]` for every pick, in
 * order, and the maximum of category `c` adds `|row[c]|` over every row.
 */
module Scoring {

  /** An answer resolved against the score table: the row it selects and the coefficient it applies. */
  datatype Pick = Pick(row: nat, coefficient: int)

  function Abs(x: int): nat { if x < 0 then -x else x }

  /** Every row has an entry for each of the `n` categories. */
  predicate Covers(rows: seq<seq<int>>, n: nat)
  {
    forall s :: 0 <= s < |rows| ==> n <= |rows[s]|
  }

  /** Every row has an entry for category `c`. */
  predicate HasColumn(rows: seq<seq<int>>, c: nat)
  {
    forall s :: 0 <= s < |rows| ==> c < |rows[s]|
  }

  predicate InRange(picks: seq<Pick>, rows: seq<seq<int>>)
  {
    forall k :: 0 <= k < |picks| ==> picks[k].row < |rows|
  }

  /** No row is picked twice. */
  predicate EachRowAtMostOnce(picks: seq<Pick>)
  {
    forall i, j :: 0 <= i < j < |picks| ==> picks[i].row != picks[j].row
  }

  /** Every pick selects a row that has an entry for each of the `n` categories. */
  predicate PicksCover(rows: seq<seq<int>>, n: nat, picks: seq<Pick>)
  {
    forall k :: 0 <= k < |picks| ==> picks[k].row < |rows| && n <= |rows[picks[k].row]|
  }

  /** Every coefficient is agree (1), disagree (-1) or in between. */
  predicate UnitCoefficients(picks: seq<Pick>)
  {
    forall k :: 0 <= k < |picks| ==> -1 <= picks[k].coefficient <= 1
  }

  function Zeros(n: nat): (z: seq<int>)
    ensures |z| == n
  {
    seq(n, _ => 0)
  }

  /** `total` with `coefficient * row[i]` added to each entry. */
  function AddScaled(total: seq<int>, coefficient: int, row: seq<int>): (r: seq<int>)
    requires |total| <= |row|
    ensures |r| == |total|
  {
    seq(|total|, i requires 0 <= i < |total| => total[i] + coefficient * row[i])
  }

  /** `total` with `|row[i]|` added to each entry. */
  function AddAbs(total: seq<int>, row: seq<int>): (r: seq<int>)
    requires |total| <= |row|
    ensures |r| == |total|
  {
    seq(|total|, i requires 0 <= i < |total| => total[i] + Abs(row[i]))
  }

  /** The totals after applying the picks one after another to a zero vector. */
  function Accumulate(rows: seq<seq<int>>, n: nat, picks: seq<Pick>): (total: seq<int>)
    requires PicksCover(rows, n, picks)
    ensures |total| == n
    decreases |picks|
  {
    if picks == [] then Zeros(n)
    else
      var last := picks[|picks| - 1];
      AddScaled(Accumulate(rows, n, picks[..|picks| - 1]), last.coefficient, rows[last.row])
  }

  /** The maximum possible score of each category: `|row[c]|` summed over all rows. */
  function Maxima(rows: seq<seq<int>>, n: nat): (maxima: seq<int>)
    requires Covers(rows, n)
    ensures |maxima| == n
    ensures forall c :: 0 <= c < n ==> maxima[c] >= 0
    decreases |rows|
  {
    if rows == [] then Zeros(n)
    else AddAbs(Maxima(rows[..|rows| - 1], n), rows[|rows| - 1])
  }

  /** Reference definition of one total: the picks' contributions to category `c`, first pick first. */
  function ColumnSum(rows: seq<seq<int>>, picks: seq<Pick>, c: nat): int
    requires PicksCover(rows, c + 1, picks)
    decreases |picks|
  {
    if picks == [] then 0
    else picks[0].coefficient * rows[picks[0].row][c] + ColumnSum(rows, picks[1..], c)
  }

  /** Reference definition of one maximum: `|rows[s][c]|` summed over the rows. */
  function AbsColumnSum(rows: seq<seq<int>>, c: nat): int
    requires HasColumn(rows, c)
    decreases |rows|
  {
    if rows == [] then 0
    else AbsColumnSum(rows[..|rows| - 1], c) + Abs(rows[|rows| - 1][c])
  }

  lemma {:induction false} ColumnSumAppend(rows: seq<seq<int>>, p: seq<Pick>, q: seq<Pick>, c: nat)
    requires PicksCover(rows, c + 1, p) && PicksCover(rows, c + 1, q)
    ensures PicksCover(rows, c + 1, p + q)
    ensures ColumnSum(rows, p + q, c) == ColumnSum(rows, p, c) + ColumnSum(rows, q, c)
    decreases |p|
  {
    if p == [] {
      assert p + q == q;
    } else {
      assert (p + q)[1..] == p[1..] + q;
      ColumnSumAppend(rows, p[1..], q, c);
    }
  }

  /** Entry `c` of the totals is the in-order sum of every pick's contribution to `c`. */
  lemma {:induction false} AccumulateEntry(rows: seq<seq<int>>, n: nat, picks: seq<Pick>, c: nat)
    requires PicksCover(rows, n, picks) && c < n
    ensures Accumulate(rows, n, picks)[c] == ColumnSum(rows, picks, c)
    decreases |picks|
  {
    if picks != [] {
      var init, last := picks[..|picks| - 1], picks[|picks| - 1];
      AccumulateEntry(rows, n, init, c);
      ColumnSumAppend(rows, init, [last], c);
      assert init + [last] == picks;
    }
  }

  /**
   * Totals are additive in the answers: the totals of `p + q` are those of
   * `p` plus those of `q`, so a row picked twice contributes twice.
   */
  lemma AccumulateConcat(rows: seq<seq<int>>, n: nat, p: seq<Pick>, q: seq<Pick>)
    requires PicksCover(rows, n, p) && PicksCover(rows, n, q)
    ensures PicksCover(rows, n, p + q)
    ensures forall c :: 0 <= c < n ==>
              Accumulate(rows, n, p + q)[c] == Accumulate(rows, n, p)[c] + Accumulate(rows, n, q)[c]
  {
    assert PicksCover(rows, n, p + q);
    forall c | 0 <= c < n
      ensures Accumulate(rows, n, p + q)[c] == Accumulate(rows, n, p)[c] + Accumulate(rows, n, q)[c]
    {
      AccumulateEntry(rows, n, p + q, c);
      AccumulateEntry(rows, n, p, c);
      AccumulateEntry(rows, n, q, c);
      ColumnSumAppend(rows, p, q, c);
    }
  }

  /** Entry `c` of the maxima is the sum of `|rows[s][c]|` over all rows. */
  lemma {:induction false} MaximaEntry(rows: seq<seq<int>>, n: nat, c: nat)
    requires Covers(rows, n) && c < n
    ensures Maxima(rows, n)[c] == AbsColumnSum(rows, c)
    decreases |rows|
  {
    if rows != [] {
      MaximaEntry(rows[..|rows| - 1], n, c);
    }
  }

  /** A category's maximum is 0 exactly when no row scores into it. */
  lemma {:induction false} AbsColumnSumZero(rows: seq<seq<int>>, c: nat)
    requires HasColumn(rows, c)
    ensures AbsColumnSum(rows, c) >= 0
    ensures AbsColumnSum(rows, c) == 0 <==> forall s :: 0 <= s < |rows| ==> rows[s][c] == 0
    decreases |rows|
  {
    if rows != [] {
      var init := rows[..|rows| - 1];
      AbsColumnSumZero(init, c);
      assert forall s :: 0 <= s < |init| ==> init[s] == rows[s];
    }
  }

  /** The net coefficient the picks give row `s`: the sum of the coefficients of the picks that select it. */
  function Weight(picks: seq<Pick>, s: nat): int
    decreases |picks|
  {
    if picks == [] then 0
    else (if picks[0].row == s then picks[0].coefficient else 0) + Weight(picks[1..], s)
  }

  /** Category `c`'s total computed row by row: each row's entry times its net coefficient. */
  function Weighted(rows: seq<seq<int>>, picks: seq<Pick>, c: nat): int
    requires HasColumn(rows, c)
    decreases |rows|
  {
    if rows == [] then 0
    else Weighted(rows[..|rows| - 1], picks, c) + Weight(picks, |rows| - 1) * rows[|rows| - 1][c]
  }

  lemma {:induction false} WeightedOfNoPicks(rows: seq<seq<int>>, c: nat)
    requires HasColumn(rows, c)
    ensures Weighted(rows, [], c) == 0
    decreases |rows|
  {
    if rows != [] {
      WeightedOfNoPicks(rows[..|rows| - 1], c);
    }
  }

  lemma {:induction false} WeightedCons(rows: seq<seq<int>>, p: Pick, rest: seq<Pick>, c: nat)
    requires HasColumn(rows, c)
    ensures Weighted(rows, [p] + rest, c)
            == Weighted(rows, rest, c) + (if p.row < |rows| then p.coefficient * rows[p.row][c] else 0)
    decreases |rows|
  {
    if rows != [] {
      var m := |rows| - 1;
      var init := rows[..m];
      WeightedCons(init, p, rest, c);
      assert ([p] + rest)[1..] == rest;
      var w := Weight(rest, m);
      var x := rows[m][c];
      if p.row == m {
        assert Weight([p] + rest, m) == p.coefficient + w;
        assert (p.coefficient + w) * x == p.coefficient * x + w * x;
      } else {
        assert Weight([p] + rest, m) == w;
        if p.row < m {
          assert init[p.row] == rows[p.row];
        }
      }
    }
  }

  /** The in-order sum of the picks' contributions equals the row-by-row sum with net coefficients. */
  lemma {:induction false} ColumnSumWeighted(rows: seq<seq<int>>, picks: seq<Pick>, c: nat)
    requires InRange(picks, rows) && HasColumn(rows, c)
    ensures ColumnSum(rows, picks, c) == Weighted(rows, picks, c)
    decreases |picks|
  {
    if picks == [] {
      WeightedOfNoPicks(rows, c);
    } else {
      ColumnSumWeighted(rows, picks[1..], c);
      WeightedCons(rows, picks[0], picks[1..], c);
      assert [picks[0]] + picks[1..] == picks;
    }
  }

  /** With every net coefficient between -1 and 1, a row-by-row total stays within the maximum. */
  lemma {:induction false} WeightedWithinAbs(rows: seq<seq<int>>, picks: seq<Pick>, c: nat)
    requires HasColumn(rows, c)
    requires forall s :: 0 <= s < |rows| ==> -1 <= Weight(picks, s) <= 1
    ensures -AbsColumnSum(rows, c) <= Weighted(rows, picks, c) <= AbsColumnSum(rows, c)
    decreases |rows|
  {
    if rows != [] {
      var m := |rows| - 1;
      WeightedWithinAbs(rows[..m], picks, c);
      var w := Weight(picks, m);
      assert w == -1 || w == 0 || w == 1;
    }
  }

  lemma {:induction false} WeightOfAbsent(picks: seq<Pick>, s: nat)
    requires forall k :: 0 <= k < |picks| ==> picks[k].row != s
    ensures Weight(picks, s) == 0
    decreases |picks|
  {
    if picks != [] {
      WeightOfAbsent(picks[1..], s);
    }
  }

  /** A row picked exactly once has that pick's coefficient as its net coefficient. */
  lemma {:induction false} WeightOfPresent(picks: seq<Pick>, k: nat)
    requires EachRowAtMostOnce(picks) && k < |picks|
    ensures Weight(picks, picks[k].row) == picks[k].coefficient
    decreases |picks|
  {
    var s := picks[k].row;
    if k == 0 {
      WeightOfAbsent(picks[1..], s);
    } else {
      WeightOfPresent(picks[1..], k - 1);
    }
  }

  lemma WeightUnit(picks: seq<Pick>, s: nat)
    requires EachRowAtMostOnce(picks) && UnitCoefficients(picks)
    ensures -1 <= Weight(picks, s) <= 1
  {
    if k :| 0 <= k < |picks| && picks[k].row == s {
      WeightOfPresent(picks, k);
    } else {
      WeightOfAbsent(picks, s);
    }
  }

  /**
   * When no row is picked twice and every coefficient lies in -1..1, each
   * total lies between minus the category's maximum and the maximum: the
   * bound behind normalising totals to the range -1..1.
   */
  lemma AccumulateWithinMaxima(rows: seq<seq<int>>, n: nat, picks: seq<Pick>)
    requires Covers(rows, n) && InRange(picks, rows)
    requires EachRowAtMostOnce(picks) && UnitCoefficients(picks)
    ensures forall c :: 0 <= c < n ==>
              -Maxima(rows, n)[c] <= Accumulate(rows, n, picks)[c] <= Maxima(rows, n)[c]
  {
    forall c | 0 <= c < n
      ensures -Maxima(rows, n)[c] <= Accumulate(rows, n, picks)[c] <= Maxima(rows, n)[c]
    {
      AccumulateEntry(rows, n, picks, c);
      ColumnSumWeighted(rows, picks, c);
      forall s | 0 <= s < |rows| ensures -1 <= Weight(picks, s) <= 1 {
        WeightUnit(picks, s);
      }
      WeightedWithinAbs(rows, picks, c);
      MaximaEntry(rows, n, c);
    }
  }

  /** Every row picked once, all with coefficient `e`. */
  function Uniform(count: nat, e: int): (picks: seq<Pick>)
  {
    seq(count, s requires 0 <= s < count => Pick(s, e))
  }

  lemma {:induction false} WeightedUniform(rows: seq<seq<int>>, picks: seq<Pick>, c: nat, e: int)
    requires HasColumn(rows, c) && (e == 1 || e == -1)
    requires forall s :: 0 <= s < |rows| ==> Weight(picks, s) == e && rows[s][c] >= 0
    ensures Weighted(rows, picks, c) == e * AbsColumnSum(rows, c)
    decreases |rows|
  {
    if rows != [] {
      WeightedUniform(rows[..|rows| - 1], picks, c, e);
    }
  }

  /**
   * Answering every row with the same coefficient `e` (1 agree, -1 disagree)
   * gives `e` times the maximum in each category whose scores are all
   * non-negative.
   */
  lemma UniformReachesMaxima(rows: seq<seq<int>>, n: nat, e: int)
    requires Covers(rows, n) && (e == 1 || e == -1)
    ensures InRange(Uniform(|rows|, e), rows)
    ensures forall c :: 0 <= c < n && (forall s :: 0 <= s < |rows| ==> rows[s][c] >= 0) ==>
              Accumulate(rows, n, Uniform(|rows|, e))[c] == e * Maxima(rows, n)[c]
  {
    var picks := Uniform(|rows|, e);
    assert InRange(picks, rows);
    forall c | 0 <= c < n && (forall s :: 0 <= s < |rows| ==> rows[s][c] >= 0)
      ensures Accumulate(rows, n, picks)[c] == e * Maxima(rows, n)[c]
    {
      forall s | 0 <= s < |rows| ensures Weight(picks, s) == e {
        WeightOfPresent(picks, s);
      }
      AccumulateEntry(rows, n, picks, c);
      ColumnSumWeighted(rows, picks, c);
      WeightedUniform(rows, picks, c, e);
      MaximaEntry(rows, n, c);
    }
  }

  /** The largest score, as `Math.max(...scores)` computes it. */
  function Max(scores: seq<int>): (m: int)
    requires |scores| > 0
    ensures m in scores
    ensures forall i :: 0 <= i < |scores| ==> scores[i] <= m
    decreases |scores|
  {
    if |scores| == 1 then scores[0]
    else
      var rest := Max(scores[1..]);
      if scores[0] >= rest then scores[0] else rest
  }

  /** The first position holding `x`, or -1, as `Array.prototype.indexOf` finds it. */
  function IndexOf(scores: seq<int>, x: int): (k: int)
    ensures -1 <= k < |scores|
    ensures k == -1 <==> x !in scores
    ensures k >= 0 ==> scores[k] == x && forall j :: 0 <= j < k ==> scores[j] != x
    decreases |scores|
  {
    if |scores| == 0 then -1
    else if scores[0] == x then 0
    else
      var k := IndexOf(scores[1..], x);
      if k == -1 then -1 else k + 1
  }

  /** `k` holds a score at least every other score, and no earlier position does. */
  predicate FirstMaximum(scores: seq<int>, k: nat)
  {
    && k < |scores|
    && (forall j :: 0 <= j < |scores| ==> scores[j] <= scores[k])
    && (forall j :: 0 <= j < k ==> scores[j] < scores[k])
  }

  /**
   * `scores.indexOf(Math.max(...scores))`: the best-matching position, the
   * lowest one whose score is at least every other score.
   */
  function BestIndex(scores: seq<int>): (k: nat)
    requires |scores| > 0
    ensures FirstMaximum(scores, k)
  {
    IndexOf(scores, Max(scores))
  }
}
