/**
 * The column formulas shared by both pipelines: the period label, the per-unit
 * metrics, the ascending rank and its percentile, and the quarter-start date.
 */
module Expressions {
  import opened Text
  import opened Rounding
  import opened Ordering

  /** The period label: the year, a space, `Q`, then the quarter, both in decimal. */
  function YearQuarter(year: int, quarter: int): (yq: string)
    ensures Split(yq, ' ') == [IntToString(year), "Q" + IntToString(quarter)]
  {
    IntToStringHasNoSpace(year);
    IntToStringHasNoSpace(quarter);
    assert IntToString(year) + " Q" + IntToString(quarter)
        == IntToString(year) + [' '] + ("Q" + IntToString(quarter));
    SplitTwo(IntToString(year), "Q" + IntToString(quarter), ' ');
    IntToString(year) + " Q" + IntToString(quarter)
  }

  /** Different periods never share a label: the year and the quarter are read back from it. */
  lemma YearQuarterInjective(year: int, quarter: int, year': int, quarter': int)
    requires YearQuarter(year, quarter) == YearQuarter(year', quarter')
    ensures year == year' && quarter == quarter'
  {
    var tokens := Split(YearQuarter(year, quarter), ' ');
    IntToStringRoundTrip(year);
    IntToStringRoundTrip(year');
    assert ("Q" + IntToString(quarter))[1..] == IntToString(quarter);
    assert ("Q" + IntToString(quarter'))[1..] == IntToString(quarter');
    assert tokens[1][1..] == IntToString(quarter) == IntToString(quarter');
    IntToStringRoundTrip(quarter);
    IntToStringRoundTrip(quarter');
  }

  /**
   * An amount divided by the unit count, rounded to 4 places: payment per
   * unit (`total_amt / units`) and weighted NADAC per unit
   * (`weighted_nadac_total / units`) are both this formula.
   */
  function PerUnit(amount: real, units: real): (r: real)
    requires units != 0.0
    ensures IsRounded(r, 4)
    ensures WithinHalfUnit(r, amount / units, 4)
  {
    RoundIsNearest(amount / units, 4);
    Round(amount / units, 4)
  }

  /** Payment per unit minus weighted NADAC per unit, rounded to 4 places. */
  function MarkupPerUnit(totalAmt: real, weightedNadacTotal: real, units: real): (r: real)
    requires units != 0.0
    ensures r == PerUnit(totalAmt, units) - PerUnit(weightedNadacTotal, units)
    ensures -1.0 <= (r - (totalAmt - weightedNadacTotal) / units) * 10000.0 <= 1.0
  {
    var pay, nadac := PerUnit(totalAmt, units), PerUnit(weightedNadacTotal, units);
    Rounded4Sub(pay, nadac);
    Round4Rounded(pay - nadac);
    DifferenceWithinOneUnit(pay, totalAmt, nadac, weightedNadacTotal, units);
    Round(pay - nadac, 4)
  }

  /** Two values each within half a unit of their ratio differ by at most one unit from the ratio of the difference. */
  lemma DifferenceWithinOneUnit(p: real, a: real, q: real, b: real, units: real)
    requires units != 0.0
    requires WithinHalfUnit(p, a / units, 4) && WithinHalfUnit(q, b / units, 4)
    ensures -1.0 <= (p - q - (a - b) / units) * 10000.0 <= 1.0
  {
    assert Scale(4) == 10000.0;
    var d1, d2 := p - a / units, q - b / units;
    assert -0.5 <= d1 * 10000.0 <= 0.5 && -0.5 <= d2 * 10000.0 <= 0.5;
    assert (a - b) / units == a / units - b / units by {
      assert (a / units) * units == a && (b / units) * units == b;
      assert (a / units - b / units) * units == a - b;
    }
    assert p - q - (a - b) / units == d1 - d2;
    assert (d1 - d2) * 10000.0 == d1 * 10000.0 - d2 * 10000.0;
  }

  /** Entries of `column` strictly below `v`. */
  function CountLess(column: seq<real>, v: real): nat {
    if column == [] then 0
    else CountLess(column[..|column| - 1], v) + if column[|column| - 1] < v then 1 else 0
  }

  /** Entries of `column` equal to `v`. */
  function CountEqual(column: seq<real>, v: real): nat {
    if column == [] then 0
    else CountEqual(column[..|column| - 1], v) + if column[|column| - 1] == v then 1 else 0
  }

  lemma {:induction false} CountBounds(column: seq<real>, v: real)
    ensures CountLess(column, v) + CountEqual(column, v) <= |column|
    ensures v in column ==> CountEqual(column, v) >= 1
  {
    if column != [] {
      var init := column[..|column| - 1];
      assert column == init + [column[|column| - 1]];
      CountBounds(init, v);
    }
  }

  /** Every entry at or below `v` is strictly below a larger `w`. */
  lemma {:induction false} CountsBelow(column: seq<real>, v: real, w: real)
    requires v < w
    ensures CountLess(column, v) + CountEqual(column, v) <= CountLess(column, w)
  {
    if column != [] {
      CountsBelow(column[..|column| - 1], v, w);
    }
  }

  lemma {:induction false} CountEqualDistinct(column: seq<real>, v: real)
    requires NoDuplicates(column) && v in column
    ensures CountEqual(column, v) == 1
  {
    var init := column[..|column| - 1];
    assert column == init + [column[|column| - 1]];
    assert NoDuplicates(init);
    if column[|column| - 1] == v {
      assert v !in init;
      CountBounds(init, v);
      if CountEqual(init, v) > 0 { CountEqualPositive(init, v); }
    } else {
      CountEqualDistinct(init, v);
    }
  }

  lemma {:induction false} CountEqualPositive(column: seq<real>, v: real)
    requires CountEqual(column, v) > 0
    ensures v in column
  {
    var init := column[..|column| - 1];
    if column[|column| - 1] != v {
      CountEqualPositive(init, v);
    }
  }

  /**
   * `rank()` in ascending order with the query engine's default tie rule
   * ("average"): tied entries share the mean of the positions they occupy.
   */
  function Rank(column: seq<real>, v: real): (r: real)
    requires v in column
    ensures 1.0 <= r <= |column| as real
  {
    CountBounds(column, v);
    CountLess(column, v) as real + (CountEqual(column, v) as real + 1.0) / 2.0
  }

  /** A strictly larger value gets a strictly larger rank. */
  lemma RankStrictlyMonotone(column: seq<real>, v: real, w: real)
    requires v in column && w in column && v < w
    ensures Rank(column, v) < Rank(column, w)
  {
    CountsBelow(column, v, w);
    CountBounds(column, w);
  }

  /** Without ties the rank is one more than the number of smaller entries. */
  lemma RankDistinct(column: seq<real>, v: real)
    requires NoDuplicates(column) && v in column
    ensures Rank(column, v) == CountLess(column, v) as real + 1.0
  {
    CountEqualDistinct(column, v);
  }

  /** The largest rank among the entries of `vs`. */
  function MaxRankOf(column: seq<real>, vs: seq<real>): (m: real)
    requires |vs| > 0 && forall v :: v in vs ==> v in column
    ensures forall v :: v in vs ==> Rank(column, v) <= m
    ensures exists i :: 0 <= i < |vs| && Rank(column, vs[i]) == m
  {
    if |vs| == 1 then Rank(column, vs[0])
    else
      var rest := MaxRankOf(column, vs[1..]);
      assert forall v :: v in vs ==> v == vs[0] || v in vs[1..];
      var first := Rank(column, vs[0]);
      var m := if first < rest then rest else first;
      assert exists i :: 0 <= i < |vs| && Rank(column, vs[i]) == m by {
        if first < rest {
          var i :| 0 <= i < |vs[1..]| && Rank(column, vs[1..][i]) == rest;
          assert vs[1..][i] == vs[i + 1];
        } else {
          assert Rank(column, vs[0]) == m;
        }
      }
      m
  }

  /** `rank().max()`: the largest rank in the column. */
  function MaxRank(column: seq<real>): (m: real)
    requires |column| > 0
    ensures forall v :: v in column ==> Rank(column, v) <= m
    ensures 1.0 <= m <= |column| as real
  {
    MaxRankOf(column, column)
  }

  /** The largest rank is the rank of some entry of the column. */
  lemma MaxRankAttained(column: seq<real>)
    requires |column| > 0
    ensures exists v :: v in column && Rank(column, v) == MaxRank(column)
  {
    var i :| 0 <= i < |column| && Rank(column, column[i]) == MaxRankOf(column, column);
    assert column[i] in column;
  }

  /** `(rank - 1) / rank().max()`, before the floor and the rounding. */
  function RawPercentile(column: seq<real>, v: real): (p: real)
    requires v in column
    ensures 0.0 <= p < 1.0
  {
    var r, m := Rank(column, v), MaxRank(column);
    assert r - 1.0 < m;
    DivBelowOne(r - 1.0, m);
    (r - 1.0) / m
  }

  lemma DivBelowOne(a: real, m: real)
    requires 0.0 <= a < m
    ensures 0.0 <= a / m < 1.0
  {
    assert a / m * m == a;
  }

  lemma DivMonotone(a: real, b: real, m: real)
    requires a < b && m > 0.0
    ensures a / m < b / m
  {
    assert a / m * m == a && b / m * m == b;
  }

  /**
   * The percentile of `v` within `column`: the raw percentile raised to 0.01
   * when it is below that floor, then rounded to 2 places.
   */
  function RankPercentile(column: seq<real>, v: real): (p: real)
    requires v in column
    ensures 0.01 <= p <= 1.0
    ensures RawPercentile(column, v) < 0.01 ==> p == 0.01
  {
    var raw := RawPercentile(column, v);
    var floored := if raw < 0.01 then 0.01 else raw;
    Round2Monotone(0.01, floored);
    Round2Monotone(floored, 1.0);
    Round2Fixes();
    Round(floored, 2)
  }

  /** A strictly larger value never gets a smaller percentile. */
  lemma RankPercentileMonotone(column: seq<real>, v: real, w: real)
    requires v in column && w in column && v < w
    ensures RankPercentile(column, v) <= RankPercentile(column, w)
  {
    RankStrictlyMonotone(column, v, w);
    DivMonotone(Rank(column, v) - 1.0, Rank(column, w) - 1.0, MaxRank(column));
    var rv, rw := RawPercentile(column, v), RawPercentile(column, w);
    Round2Monotone(if rv < 0.01 then 0.01 else rv, if rw < 0.01 then 0.01 else rw);
  }

  /**
   * The percentile has two decimal places and lies within half a hundredth of
   * the raw percentile (of 0.01 when the raw value is below that floor).
   */
  lemma RankPercentileRounded(column: seq<real>, v: real)
    requires v in column
    ensures IsRounded(RankPercentile(column, v), 2)
    ensures WithinHalfUnit(RankPercentile(column, v),
                           if RawPercentile(column, v) < 0.01 then 0.01 else RawPercentile(column, v), 2)
  {
    var raw := RawPercentile(column, v);
    RoundIsNearest(if raw < 0.01 then 0.01 else raw, 2);
  }

  /**
   * Without ties the largest rank is the column length, so the percentile is
   * the share of strictly smaller entries, floored at 0.01 and rounded to 2 places.
   */
  lemma RankPercentileDistinct(column: seq<real>, v: real)
    requires NoDuplicates(column) && v in column
    ensures var share := CountLess(column, v) as real / |column| as real;
      RankPercentile(column, v) == Round(if share < 0.01 then 0.01 else share, 2)
  {
    RankDistinct(column, v);
    MaxRankDistinct(column);
  }

  /** Without ties the largest rank is the column length. */
  lemma MaxRankDistinct(column: seq<real>)
    requires NoDuplicates(column) && |column| > 0
    ensures MaxRank(column) == |column| as real
  {
    var top := Largest(column);
    CountEqualDistinct(column, top);
    CountAllAtMost(column, top);
    RankDistinct(column, top);
  }

  /** The largest entry of a non-empty column. */
  function Largest(column: seq<real>): (top: real)
    requires |column| > 0
    ensures top in column && forall x :: x in column ==> x <= top
  {
    if |column| == 1 then column[0]
    else
      var rest := Largest(column[1..]);
      assert forall x :: x in column ==> x == column[0] || x in column[1..];
      if column[0] < rest then rest else column[0]
  }

  /** When no entry exceeds `v`, every entry is below or equal to it. */
  lemma {:induction false} CountAllAtMost(column: seq<real>, v: real)
    requires forall x :: x in column ==> x <= v
    ensures CountLess(column, v) + CountEqual(column, v) == |column|
  {
    if column != [] {
      var init := column[..|column| - 1];
      assert forall x :: x in init ==> x in column;
      assert column[|column| - 1] in column;
      CountAllAtMost(init, v);
    }
  }

  /** A single row has rank 1 out of 1, so its percentile is exactly the floor. */
  lemma SingleRowPercentile(v: real)
    ensures Rank([v], v) == 1.0 && MaxRank([v]) == 1.0
    ensures RankPercentile([v], v) == 0.01
  {
    assert [v][..0] == [];
    assert RawPercentile([v], v) == 0.0;
  }

  /** The first month of a quarter. */
  function QuarterToMonth(quarter: int): (month: int)
    ensures (month - 1) / 3 + 1 == quarter && (month - 1) % 3 == 0
    ensures 1 <= quarter <= 4 ==> 1 <= month <= 10
  {
    (quarter - 1) * 3 + 1
  }

  /** A calendar date. */
  datatype Date = Date(year: int, month: int, day: int)

  /** Chronological order on dates. */
  predicate DateLess(a: Date, b: Date) {
    a.year < b.year
    || (a.year == b.year && (a.month < b.month || (a.month == b.month && a.day < b.day)))
  }

  lemma DateLessIsStrictTotalOrder()
    ensures StrictTotalOrder(DateLess)
  {
  }

  /** The first day of the quarter's first month. */
  function MakeDate(year: int, quarter: int): (d: Date)
    ensures d.year == year && d.day == 1
    ensures (d.month - 1) / 3 + 1 == quarter && (d.month - 1) % 3 == 0
  {
    Date(year, QuarterToMonth(quarter), 1)
  }

  /** Periods ordered by year, then quarter. */
  predicate PeriodLess(y1: int, q1: int, y2: int, q2: int) {
    y1 < y2 || (y1 == y2 && q1 < q2)
  }

  /** On valid quarters, `MakeDate` is injective and order-preserving. */
  lemma MakeDateOrder(y1: int, q1: int, y2: int, q2: int)
    requires 1 <= q1 <= 4 && 1 <= q2 <= 4
    ensures MakeDate(y1, q1) == MakeDate(y2, q2) <==> y1 == y2 && q1 == q2
    ensures DateLess(MakeDate(y1, q1), MakeDate(y2, q2)) <==> PeriodLess(y1, q1, y2, q2)
  {
  }
}
