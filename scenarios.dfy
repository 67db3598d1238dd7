/**
 * Worked scenarios of the two pipelines, on rows described by the columns
 * that matter to them.
 */
module Scenarios {
  import opened Wrappers
  import opened Ordering
  import opened Rounding
  import opened Frames
  import opened Expressions
  import opened DataProcessing

  /** 390 / 150 is exactly 2.6, already on the 4-place grid. */
  lemma PaymentPerUnitExample()
    ensures PerUnit(390.0, 150.0) == 2.6
  {
    assert 390.0 / 150.0 == 2.6;
    assert Scale(4) == 10000.0;
    FloorUnique(2.6 * 10000.0 + 0.5, 26000);
  }

  /** A whole number is its own 4-place rounding. */
  lemma RoundWhole(n: nat)
    ensures Round(n as real, 4) == n as real
  {
    assert Scale(4) == 10000.0;
    FloorUnique(n as real * 10000.0 + 0.5, n * 10000);
  }

  /**
   * When every row passes the filters and all share one state, the map holds
   * that state alone, with the rounded sums of all the rows.
   */
  lemma SingleGroupMap(rows: seq<Record>, p: Period, drug: Option<string>, brandGeneric: Option<string>,
                       utilizationType: Option<string>, s: string)
    requires rows != []
    requires forall r :: r in rows ==> MapSelects(p, drug, brandGeneric, utilizationType, r) && r.state == s
    ensures var out := MapAggregate(rows, p, drug, brandGeneric, utilizationType);
      && out.Keys == {s}
      && out[s].totals == RoundTotals(Sum(rows))
  {
    SingleGroupKeys(rows, p, drug, brandGeneric, utilizationType, s);
    SingleGroupRows(rows, p, drug, brandGeneric, utilizationType, s);
  }

  /** Under the same conditions the map's only key is the shared state. */
  lemma SingleGroupKeys(rows: seq<Record>, p: Period, drug: Option<string>, brandGeneric: Option<string>,
                        utilizationType: Option<string>, s: string)
    requires rows != []
    requires forall r :: r in rows ==> MapSelects(p, drug, brandGeneric, utilizationType, r) && r.state == s
    ensures MapAggregate(rows, p, drug, brandGeneric, utilizationType).Keys == {s}
  {
    SingleGroupHasState(rows, p, drug, brandGeneric, utilizationType, s);
    SingleGroupOnlyState(rows, p, drug, brandGeneric, utilizationType, s);
    OnlyKey(MapAggregate(rows, p, drug, brandGeneric, utilizationType), s);
  }

  lemma OnlyKey<V>(m: map<string, V>, s: string)
    requires s in m && forall k :: k in m ==> k == s
    ensures m.Keys == {s}
  {
  }

  /** The shared state of a non-empty selection is a key of the map. */
  lemma SingleGroupHasState(rows: seq<Record>, p: Period, drug: Option<string>, brandGeneric: Option<string>,
                            utilizationType: Option<string>, s: string)
    requires rows != []
    requires forall r :: r in rows ==> MapSelects(p, drug, brandGeneric, utilizationType, r) && r.state == s
    ensures s in MapAggregate(rows, p, drug, brandGeneric, utilizationType)
  {
    assert rows[0] in rows && rows[0].state == s;
  }

  /** No state other than the shared one is a key of the map. */
  lemma SingleGroupOnlyState(rows: seq<Record>, p: Period, drug: Option<string>, brandGeneric: Option<string>,
                             utilizationType: Option<string>, s: string)
    requires forall r :: r in rows ==> MapSelects(p, drug, brandGeneric, utilizationType, r) && r.state == s
    ensures forall k :: k in MapAggregate(rows, p, drug, brandGeneric, utilizationType) ==> k == s
  {
    var out := MapAggregate(rows, p, drug, brandGeneric, utilizationType);
    forall k | k in out ensures k == s {
      var r :| r in rows && MapSelects(p, drug, brandGeneric, utilizationType, r) && r.state == k;
    }
  }

  /** Under the same conditions the state's group is every row. */
  lemma SingleGroupRows(rows: seq<Record>, p: Period, drug: Option<string>, brandGeneric: Option<string>,
                        utilizationType: Option<string>, s: string)
    requires forall r :: r in rows ==> MapSelects(p, drug, brandGeneric, utilizationType, r) && r.state == s
    ensures WithKey(MapRows(rows, p, drug, brandGeneric, utilizationType), StateOf, s) == rows
  {
    forall r | r in rows ensures HoldsAll(MapConds(p, drug, brandGeneric, utilizationType), r) {
      MapCondsHold(p, drug, brandGeneric, utilizationType, r);
    }
    WhereAllKeepsAll(rows, MapConds(p, drug, brandGeneric, utilizationType));
    WithKeyWhole(rows, StateOf, s);
  }

  lemma SumTwo(a: Record, b: Record)
    ensures Sum([a, b]).units == a.units + b.units
    ensures Sum([a, b]).totalAmt == a.totalAmt + b.totalAmt
  {
    assert [a, b][1..] == [b] && [b][1..] == [];
    assert Sum([b]) == Plus(RowTotals(b), NoTotals);
  }

  /**
   * Two rows of one state in the selected period, with no optional filter:
   * 100 units for 250 and 50 units for 140 aggregate into one row for that
   * state with 150 units, 390 paid and 2.6 paid per unit.
   */
  lemma MapExample(p: Period, a: Record, b: Record)
    requires a.year == b.year == p.year && a.quarter == b.quarter == p.quarter
    requires a.state == b.state
    requires a.units == 100.0 && a.totalAmt == 250.0
    requires b.units == 50.0 && b.totalAmt == 140.0
    ensures var out := MapAggregate([a, b], p, None, None, None);
      && out.Keys == {a.state}
      && out[a.state].totals.units == 150.0
      && out[a.state].totals.totalAmt == 390.0
      && out[a.state].paymentPerUnit == Some(2.6)
  {
    SingleGroupMap([a, b], p, None, None, None, a.state);
    SumTwo(a, b);
    RoundWhole(150);
    RoundWhole(390);
    PaymentPerUnitExample();
  }

  /** A keyword without surrounding blanks or capitals is its own normal form. */
  lemma NormalKeyword(w: string)
    requires |w| > 0 && !Text.IsSpace(w[0]) && !Text.IsSpace(w[|w| - 1])
    requires forall i :: 0 <= i < |w| ==> !('A' <= w[i] <= 'Z')
    ensures NormalizeHow(Some(w)) == w
  {
    Text.StripUnchanged(w);
  }

  /** The keyword "brand" chooses brands. */
  lemma BrandKeyword()
    ensures ChoiceOf(Some("brand")) == BrandsOnly
  {
    NormalKeyword("brand");
  }

  /** A strictly sorted list whose only value is `x` is `[x]`. */
  lemma StrictlySortedSingleton(s: seq<string>, x: string)
    requires StrictlySorted(s, StrLess)
    requires forall d :: d in s <==> d == x
    ensures s == [x]
  {
    StrLessIsStrictTotalOrder();
    assert NoDuplicates(s);
    NoDuplicatesCardinality(s);
    assert Elems(s) == {x};
    assert s[0] == x;
  }

  /**
   * `drug_list("brand")` over a brand drug and a generic drug lists only the
   * brand drug.
   */
  lemma DrugListExample(a: Record, b: Record)
    requires a.isBrand && !b.isBrand
    ensures DrugList([a, b], Some("brand")) == [a.description]
  {
    BrandKeyword();
    DrugListBrandMembers(a, b, Some("brand"));
    StrictlySortedSingleton(DrugList([a, b], Some("brand")), a.description);
  }

  /** With a selector that keeps brands only, the only name listed is the brand row's. */
  lemma DrugListBrandMembers(a: Record, b: Record, how: Option<string>)
    requires a.isBrand && !b.isBrand && ChoiceOf(how) == BrandsOnly
    ensures forall d :: d in DrugList([a, b], how) <==> d == a.description
  {
    var drugs := DrugList([a, b], how);
    forall d ensures d in drugs <==> d == a.description {
      if d in drugs {
        var r :| r in [a, b] && Admits(ChoiceOf(how), r) && r.description == d;
        assert r == a || r == b;
      }
      if d == a.description {
        assert a in [a, b] && Admits(ChoiceOf(how), a);
      }
    }
  }
}
