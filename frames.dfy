/**
 * The fact table and the query-engine operations the pipelines chain:
 * `filter` on a column condition, `group_by(...).agg(sum())` and `round(4)` on
 * the summed columns.
 */
module Frames {
  import opened Wrappers
  import opened Ordering
  import opened Rounding

  /** One row of the fact table (state x drug x period x brand/utilization segment). */
  datatype Record = Record(
    year: int,
    quarter: int,
    state: string,
    description: string,
    isBrand: bool,
    isFfsu: bool,
    units: real,
    rxCt: real,
    totalAmt: real,
    weightedNadacTotal: Option<real>)

  /** The summed volume and amount columns of a group. */
  datatype Totals = Totals(units: real, rxCt: real, totalAmt: real, weightedNadacTotal: real)

  const NoTotals := Totals(0.0, 0.0, 0.0, 0.0)

  /** `sum()` skips nulls. */
  function NullAsZero(v: Option<real>): real {
    if v.Some? then v.value else 0.0
  }

  function Plus(a: Totals, b: Totals): Totals {
    Totals(a.units + b.units, a.rxCt + b.rxCt, a.totalAmt + b.totalAmt,
           a.weightedNadacTotal + b.weightedNadacTotal)
  }

  function RowTotals(r: Record): Totals {
    Totals(r.units, r.rxCt, r.totalAmt, NullAsZero(r.weightedNadacTotal))
  }

  /**
   * Column sums over `rows`. `sum()` skips nulls, so a NADAC column with no
   * value at all sums to 0.
   */
  function Sum(rows: seq<Record>): (s: Totals)
    ensures (forall r :: r in rows ==> r.weightedNadacTotal.None?) ==> s.weightedNadacTotal == 0.0
  {
    if rows == [] then NoTotals
    else
      assert forall r :: r in rows[1..] ==> r in rows;
      Plus(RowTotals(rows[0]), Sum(rows[1..]))
  }

  /** Sums split over a concatenation. */
  lemma {:induction false} SumAppend(a: seq<Record>, b: seq<Record>)
    ensures Sum(a + b) == Plus(Sum(a), Sum(b))
  {
    if a == [] {
      assert a + b == b;
    } else {
      assert (a + b)[1..] == a[1..] + b;
      assert Sum(a + b) == Plus(RowTotals(a[0]), Sum(a[1..] + b));
      SumAppend(a[1..], b);
    }
  }

  /** The sums do not depend on the order of the rows, only on how often each occurs. */
  lemma {:induction false} SumPermutation(a: seq<Record>, b: seq<Record>)
    requires multiset(a) == multiset(b)
    ensures Sum(a) == Sum(b)
    decreases |a|
  {
    if a != [] {
      var x := a[0];
      assert x in multiset(b);
      var i :| 0 <= i < |b| && b[i] == x;
      var rest := b[..i] + b[i + 1..];
      assert b == b[..i] + [x] + b[i + 1..];
      assert a == [x] + a[1..];
      assert multiset(b) == multiset(b[..i]) + multiset([x]) + multiset(b[i + 1..]);
      assert multiset(a) == multiset([x]) + multiset(a[1..]);
      assert multiset(rest) == multiset(b[..i]) + multiset(b[i + 1..]);
      assert multiset(a[1..]) == multiset(a) - multiset([x]);
      assert multiset(rest) == multiset(b) - multiset([x]);
      SumPermutation(a[1..], rest);
      SumWithout(b, i);
    }
  }

  /** Taking one row out of the middle takes its totals out of the sums. */
  lemma SumWithout(b: seq<Record>, i: int)
    requires 0 <= i < |b|
    ensures Sum(b) == Plus(RowTotals(b[i]), Sum(b[..i] + b[i + 1..]))
  {
    assert b[..i] + [b[i]] == b[..i + 1];
    assert b[..i + 1] + b[i + 1..] == b;
    SumMiddle(b[..i], b[i], b[i + 1..]);
  }

  lemma SumMiddle(p: seq<Record>, x: Record, q: seq<Record>)
    ensures Sum(p + [x] + q) == Plus(RowTotals(x), Sum(p + q))
  {
    SumAppend(p + [x], q);
    SumAppend(p, [x]);
    SumAppend(p, q);
    assert [x][1..] == [];
    assert Sum([x]) == Plus(RowTotals(x), NoTotals);
  }

  /** `.round(4)` applied to every summed column. */
  function RoundTotals(t: Totals): Totals {
    Totals(Round(t.units, 4), Round(t.rxCt, 4), Round(t.totalAmt, 4), Round(t.weightedNadacTotal, 4))
  }

  /** A column condition as the pipelines pass it to `filter`. */
  datatype Cond =
    | YearIs(year: int)
    | QuarterIs(quarter: int)
    | StateIs(state: string)
    | DescriptionIs(description: string)
    | BrandIs(isBrand: bool)
    | FfsuIs(isFfsu: bool)
    | NadacPresent

  predicate Holds(c: Cond, r: Record) {
    match c
    case YearIs(y) => r.year == y
    case QuarterIs(q) => r.quarter == q
    case StateIs(s) => r.state == s
    case DescriptionIs(d) => r.description == d
    case BrandIs(b) => r.isBrand == b
    case FfsuIs(f) => r.isFfsu == f
    case NadacPresent => r.weightedNadacTotal.Some?
  }

  /** `filter(c)`: the rows satisfying `c`, in their order. */
  function Where(rows: seq<Record>, c: Cond): (kept: seq<Record>)
    ensures |kept| <= |rows|
    ensures forall r :: r in kept <==> r in rows && Holds(c, r)
  {
    if rows == [] then []
    else (if Holds(c, rows[0]) then [rows[0]] else []) + Where(rows[1..], c)
  }

  lemma {:induction false} WhereAppend(a: seq<Record>, b: seq<Record>, c: Cond)
    ensures Where(a + b, c) == Where(a, c) + Where(b, c)
  {
    if a == [] {
      assert a + b == b;
    } else {
      assert (a + b)[1..] == a[1..] + b;
      WhereAppend(a[1..], b, c);
    }
  }

  /** A filter every row passes keeps the rows as they are. */
  lemma {:induction false} WhereKeepsAll(rows: seq<Record>, c: Cond)
    requires forall r :: r in rows ==> Holds(c, r)
    ensures Where(rows, c) == rows
  {
    if rows != [] {
      WhereKeepsAll(rows[1..], c);
      WhereKeepsFirst(rows, c);
      assert [rows[0]] + rows[1..] == rows;
    }
  }

  lemma WhereKeepsFirst(rows: seq<Record>, c: Cond)
    requires rows != [] && Holds(c, rows[0])
    ensures Where(rows, c) == [rows[0]] + Where(rows[1..], c)
  {
  }

  predicate HoldsAll(cs: seq<Cond>, r: Record) {
    forall i :: 0 <= i < |cs| ==> Holds(cs[i], r)
  }

  lemma HoldsAllAppend(a: seq<Cond>, b: seq<Cond>, r: Record)
    ensures HoldsAll(a + b, r) <==> HoldsAll(a, r) && HoldsAll(b, r)
  {
    if HoldsAll(a, r) && HoldsAll(b, r) {
      forall i | 0 <= i < |a + b| ensures Holds((a + b)[i], r) {
        if i >= |a| { assert (a + b)[i] == b[i - |a|]; }
      }
    }
    if HoldsAll(a + b, r) {
      forall i | 0 <= i < |a| ensures Holds(a[i], r) {
        assert (a + b)[i] == a[i];
      }
      forall i | 0 <= i < |b| ensures Holds(b[i], r) {
        assert (a + b)[|a| + i] == b[i];
      }
    }
  }

  /** A chain of `filter` calls, applied in order. */
  function WhereAll(rows: seq<Record>, cs: seq<Cond>): (kept: seq<Record>)
    ensures forall r :: r in kept <==> r in rows && HoldsAll(cs, r)
    decreases |cs|
  {
    if cs == [] then rows
    else
      var kept := WhereAll(Where(rows, cs[0]), cs[1..]);
      assert forall r :: HoldsAll(cs, r) <==> Holds(cs[0], r) && HoldsAll(cs[1..], r) by {
        forall r ensures HoldsAll(cs, r) <==> Holds(cs[0], r) && HoldsAll(cs[1..], r) {
          if Holds(cs[0], r) && HoldsAll(cs[1..], r) {
            forall i | 0 <= i < |cs| ensures Holds(cs[i], r) {
              if i > 0 { assert cs[i] == cs[1..][i - 1]; }
            }
          }
          if HoldsAll(cs, r) {
            forall i | 0 <= i < |cs| - 1 ensures Holds(cs[1..][i], r) {
              assert cs[1..][i] == cs[i + 1];
            }
          }
        }
      }
      kept
  }

  /** A filter chain every row passes keeps the rows as they are. */
  lemma {:induction false} WhereAllKeepsAll(rows: seq<Record>, cs: seq<Cond>)
    requires forall r :: r in rows ==> HoldsAll(cs, r)
    ensures WhereAll(rows, cs) == rows
    decreases |cs|
  {
    if cs != [] {
      assert forall r :: r in rows ==> Holds(cs[0], r) by {
        forall r | r in rows ensures Holds(cs[0], r) { assert HoldsAll(cs, r); }
      }
      WhereKeepsAll(rows, cs[0]);
      forall r | r in rows ensures HoldsAll(cs[1..], r) {
        assert HoldsAll(cs, r);
        forall i | 0 <= i < |cs| - 1 ensures Holds(cs[1..][i], r) {
          assert cs[1..][i] == cs[i + 1];
        }
      }
      WhereAllKeepsAll(rows, cs[1..]);
    }
  }

  /** Filtering a concatenation filters each part. */
  lemma {:induction false} WhereAllAppend(a: seq<Record>, b: seq<Record>, cs: seq<Cond>)
    ensures WhereAll(a + b, cs) == WhereAll(a, cs) + WhereAll(b, cs)
    decreases |cs|
  {
    if cs != [] {
      WhereAppend(a, b, cs[0]);
      WhereAllAppend(Where(a, cs[0]), Where(b, cs[0]), cs[1..]);
    }
  }

  /** The group key of every row, in row order. */
  function KeyColumn<K>(rows: seq<Record>, key: Record -> K): (keys: seq<K>)
    ensures |keys| == |rows|
    ensures forall i :: 0 <= i < |rows| ==> keys[i] == key(rows[i])
  {
    if rows == [] then [] else [key(rows[0])] + KeyColumn(rows[1..], key)
  }

  /** The distinct keys are exactly the keys of the rows. */
  lemma KeyColumnElems<K>(rows: seq<Record>, key: Record -> K)
    ensures forall k :: k in Elems(KeyColumn(rows, key)) <==> exists r :: r in rows && key(r) == k
  {
    var keys := KeyColumn(rows, key);
    forall k ensures k in Elems(keys) <==> exists r :: r in rows && key(r) == k {
      if k in Elems(keys) {
        var i :| 0 <= i < |keys| && keys[i] == k;
        assert rows[i] in rows;
      }
      if exists r :: r in rows && key(r) == k {
        var r :| r in rows && key(r) == k;
        var i :| 0 <= i < |rows| && rows[i] == r;
        assert keys[i] == k;
      }
    }
  }

  /** The rows of the group with key `k`, in row order. */
  function WithKey<K(==)>(rows: seq<Record>, key: Record -> K, k: K): (group: seq<Record>)
    ensures forall r :: r in group <==> r in rows && key(r) == k
    ensures forall r :: multiset(group)[r] == if key(r) == k then multiset(rows)[r] else 0
  {
    if rows == [] then []
    else
      assert rows == [rows[0]] + rows[1..];
      (if key(rows[0]) == k then [rows[0]] else []) + WithKey(rows[1..], key, k)
  }

  /** When every row has key `k`, the group of `k` is all of the rows. */
  lemma {:induction false} WithKeyWhole<K>(rows: seq<Record>, key: Record -> K, k: K)
    requires forall r :: r in rows ==> key(r) == k
    ensures WithKey(rows, key, k) == rows
  {
    if rows != [] {
      WithKeyWhole(rows[1..], key, k);
      assert [rows[0]] + rows[1..] == rows;
    }
  }

  lemma {:induction false} WithKeyAbsent<K>(rows: seq<Record>, key: Record -> K, k: K)
    requires k !in Elems(KeyColumn(rows, key))
    ensures WithKey(rows, key, k) == []
  {
    if rows != [] {
      assert KeyColumn(rows, key) == [key(rows[0])] + KeyColumn(rows[1..], key);
      WithKeyAbsent(rows[1..], key, k);
    }
  }

  /**
   * `group_by(key).agg(sum())`: one entry per key present in `rows`, holding
   * the column sums of that key's rows.
   */
  function GroupBy<K(==)>(rows: seq<Record>, key: Record -> K): (groups: map<K, Totals>)
    ensures groups.Keys == Elems(KeyColumn(rows, key))
    ensures forall k :: k in groups ==> groups[k] == Sum(WithKey(rows, key, k))
  {
    if rows == [] then map[]
    else
      var rest := GroupBy(rows[1..], key);
      var k := key(rows[0]);
      GroupKeysStep(rows, key, rest);
      GroupSumsStep(rows, key, rest);
      rest[k := Plus(RowTotals(rows[0]), if k in rest then rest[k] else NoTotals)]
  }

  /** The first row's key joins the keys of the remaining rows. */
  lemma GroupKeysStep<K>(rows: seq<Record>, key: Record -> K, rest: map<K, Totals>)
    requires rows != []
    requires rest.Keys == Elems(KeyColumn(rows[1..], key))
    ensures var k := key(rows[0]);
      var groups := rest[k := Plus(RowTotals(rows[0]), if k in rest then rest[k] else NoTotals)];
      groups.Keys == Elems(KeyColumn(rows, key))
  {
    KeysCons(rows, key);
  }

  /** The first row adds its totals to its own group and leaves the others alone. */
  lemma GroupSumsStep<K>(rows: seq<Record>, key: Record -> K, rest: map<K, Totals>)
    requires rows != []
    requires rest.Keys == Elems(KeyColumn(rows[1..], key))
    requires forall k :: k in rest ==> rest[k] == Sum(WithKey(rows[1..], key, k))
    ensures var k := key(rows[0]);
      var groups := rest[k := Plus(RowTotals(rows[0]), if k in rest then rest[k] else NoTotals)];
      forall j :: j in groups ==> groups[j] == Sum(WithKey(rows, key, j))
  {
    var k := key(rows[0]);
    if k !in rest {
      WithKeyAbsent(rows[1..], key, k);
    }
    var groups := rest[k := Plus(RowTotals(rows[0]), if k in rest then rest[k] else NoTotals)];
    forall j | j in groups ensures groups[j] == Sum(WithKey(rows, key, j)) {
      WithKeyCons(rows, key, j);
    }
  }

  lemma KeysCons<K>(rows: seq<Record>, key: Record -> K)
    requires rows != []
    ensures Elems(KeyColumn(rows, key)) == {key(rows[0])} + Elems(KeyColumn(rows[1..], key))
  {
    assert KeyColumn(rows, key) == [key(rows[0])] + KeyColumn(rows[1..], key);
  }

  lemma WithKeyCons<K>(rows: seq<Record>, key: Record -> K, j: K)
    requires rows != []
    ensures key(rows[0]) == j ==>
      Sum(WithKey(rows, key, j)) == Plus(RowTotals(rows[0]), Sum(WithKey(rows[1..], key, j)))
    ensures key(rows[0]) != j ==> WithKey(rows, key, j) == WithKey(rows[1..], key, j)
  {
    var tail := WithKey(rows[1..], key, j);
    if key(rows[0]) == j {
      assert WithKey(rows, key, j) == [rows[0]] + tail;
      assert ([rows[0]] + tail)[1..] == tail;
    } else {
      assert WithKey(rows, key, j) == [] + tail;
      assert [] + tail == tail;
    }
  }
}
