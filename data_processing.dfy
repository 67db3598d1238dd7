/**
 * The catalog queries that feed the dashboard's selectors and the two
 * aggregation pipelines behind the state map and the trend chart. The
 * fact table is the input sequence `rows`.
 */
module DataProcessing {
  import opened Wrappers
  import opened Text
  import opened Ordering
  import opened Rounding
  import opened Frames
  import opened Expressions

  // ----- Catalogs -----

  /** A reporting period. */
  datatype Period = Period(year: int, quarter: int)

  predicate PeriodOrder(a: Period, b: Period) {
    PeriodLess(a.year, a.quarter, b.year, b.quarter)
  }

  lemma PeriodOrderIsStrictTotalOrder()
    ensures StrictTotalOrder(PeriodOrder)
  {
  }

  function PeriodOf(r: Record): Period {
    Period(r.year, r.quarter)
  }

  /** `year_quarters`: each period present in the data once, ascending by year, then quarter. */
  function YearQuarters(rows: seq<Record>): (periods: seq<Period>)
    ensures StrictlySorted(periods, PeriodOrder)
    ensures NoDuplicates(periods)
    ensures forall p :: p in periods <==> exists r :: r in rows && PeriodOf(r) == p
  {
    PeriodOrderIsStrictTotalOrder();
    KeyColumnElems(rows, PeriodOf);
    var periods := SortedDistinct(KeyColumn(rows, PeriodOf), PeriodOrder);
    forall p ensures p in periods <==> exists r :: r in rows && PeriodOf(r) == p {
      assert p in periods <==> p in Elems(periods);
    }
    periods
  }

  /** Why a period label does not parse, in the order the conversions run. */
  datatype ParseError =
    | YearNotInteger          // the text before the first space is not an integer
    | MissingQuarterToken     // there is no space
    | QuarterTokenTooShort    // the second token has fewer than two characters
    | QuarterNotInteger       // the second character of the second token is not a digit

  /**
   * The period named by a label: the year is the first space-separated token
   * read as an integer, the quarter is the second character of the second token.
   */
  function ParseYearQuarter(yq: string): (r: Result<Period, ParseError>)
    ensures r.Ok? ==> 0 <= r.value.quarter <= 9
    ensures ' ' !in yq ==> r.Err?
  {
    var parts := Split(yq, ' ');
    assert ' ' !in yq ==> |parts| == 1 by {
      if ' ' !in yq { SplitNoSeparator(yq, ' '); }
    }
    match ParseInt(parts[0])
    case None => Err(YearNotInteger)
    case Some(year) =>
      if |parts| < 2 then Err(MissingQuarterToken)
      else if |parts[1]| < 2 then Err(QuarterTokenTooShort)
      else
        ParseIntOneChar(parts[1][1]);
        match ParseInt([parts[1][1]])
        case None => Err(QuarterNotInteger)
        case Some(quarter) => Ok(Period(year, quarter))
  }

  /**
   * Only the second character of the quarter token is read, and nothing checks
   * that the token starts with `Q`: "2023 X2" reads as quarter 2, "2023 Q12" as quarter 1.
   */
  lemma ParseYearQuarterSecondChar(year: int, token: string)
    requires ' ' !in token && |token| >= 2 && IsDigit(token[1])
    ensures ParseYearQuarter(IntToString(year) + " " + token) == Ok(Period(year, DigitValue(token[1])))
  {
    var yq := IntToString(year) + " " + token;
    IntToStringHasNoSpace(year);
    assert yq == IntToString(year) + [' '] + token;
    SplitTwo(IntToString(year), token, ' ');
    IntToStringRoundTrip(year);
    ParseIntOneChar(token[1]);
  }

  /** A label written by YearQuarter for a single-digit quarter reads back as its period. */
  lemma ParseYearQuarterRoundTrip(year: int, quarter: int)
    requires 0 <= quarter <= 9
    ensures ParseYearQuarter(YearQuarter(year, quarter)) == Ok(Period(year, quarter))
  {
    var token := "Q" + [DigitChar(quarter)];
    assert IntToString(quarter) == [DigitChar(quarter)];
    assert YearQuarter(year, quarter) == IntToString(year) + " " + token;
    ParseYearQuarterSecondChar(year, token);
  }

  /** A year token that `int()` refuses is reported before the quarter is looked at. */
  lemma YearNotIntegerRejected(year: string, token: string)
    requires ' ' !in year && ' ' !in token && !IntText(Strip(year))
    ensures ParseYearQuarter(year + " " + token) == Err(YearNotInteger)
  {
    assert year + " " + token == year + [' '] + token;
    SplitTwo(year, token, ' ');
  }

  /** After a year `int()` accepts, a second character of the quarter token that is not a digit is refused. */
  lemma QuarterNotIntegerRejected(year: string, token: string)
    requires ' ' !in year && ' ' !in token && IntText(Strip(year))
    requires |token| >= 2 && !IsDigit(token[1])
    ensures ParseYearQuarter(year + " " + token) == Err(QuarterNotInteger)
  {
    assert year + " " + token == year + [' '] + token;
    SplitTwo(year, token, ' ');
    ParseIntOneChar(token[1]);
  }

  /** A second token shorter than two characters is an error, not an empty result. */
  lemma ShortQuarterTokenRejected(year: string, token: string)
    requires ' ' !in year && ' ' !in token && |token| < 2
    requires ParseInt(year).Some?
    ensures ParseYearQuarter(year + " " + token) == Err(QuarterTokenTooShort)
  {
    assert year + " " + token == year + [' '] + token;
    SplitTwo(year, token, ' ');
  }

  function LabelOf(p: Period): string {
    YearQuarter(p.year, p.quarter)
  }

  /** `year_quarter_list`: the labels of `year_quarters`, in the same order. */
  function YearQuarterList(rows: seq<Record>): (labels: seq<string>)
    ensures |labels| == |YearQuarters(rows)|
    ensures forall i :: 0 <= i < |labels| ==>
      labels[i] == YearQuarter(YearQuarters(rows)[i].year, YearQuarters(rows)[i].quarter)
    ensures forall i :: 0 <= i < |labels| && 0 <= YearQuarters(rows)[i].quarter <= 9 ==>
      ParseYearQuarter(labels[i]) == Ok(YearQuarters(rows)[i])
  {
    var periods := YearQuarters(rows);
    var labels := seq(|periods|, i requires 0 <= i < |periods| => LabelOf(periods[i]));
    forall i | 0 <= i < |labels| && 0 <= periods[i].quarter <= 9
      ensures ParseYearQuarter(labels[i]) == Ok(periods[i])
    {
      ParseYearQuarterRoundTrip(periods[i].year, periods[i].quarter);
    }
    labels
  }

  /** The labels are pairwise distinct, whatever the quarter numbers. */
  lemma YearQuarterListDistinct(rows: seq<Record>)
    ensures NoDuplicates(YearQuarterList(rows))
  {
    var periods, labels := YearQuarters(rows), YearQuarterList(rows);
    forall i, j | 0 <= i < j < |labels| ensures labels[i] != labels[j] {
      if labels[i] == labels[j] {
        YearQuarterInjective(periods[i].year, periods[i].quarter, periods[j].year, periods[j].quarter);
      }
    }
  }

  function StateOf(r: Record): string {
    r.state
  }

  /** `replace(table)`: a code found in the table becomes its name; any other value is kept. */
  function Rename(abbrev: map<string, string>, code: string): (name: string)
    ensures code in abbrev ==> name == abbrev[code]
    ensures code !in abbrev ==> name == code
  {
    if code in abbrev then abbrev[code] else code
  }

  /** The distinct state codes of the data, each renamed. */
  function RenamedCodes(rows: seq<Record>, abbrev: map<string, string>): (names: seq<string>)
    ensures |names| == |Elems(KeyColumn(rows, StateOf))|
    ensures forall s :: s in names <==> exists r :: r in rows && Rename(abbrev, r.state) == s
    ensures forall s :: multiset(names)[s] == |CodesNamed(Elems(KeyColumn(rows, StateOf)), abbrev, s)|
  {
    var codes := Distinct(KeyColumn(rows, StateOf));
    KeyColumnElems(rows, StateOf);
    NoDuplicatesCardinality(codes);
    var names := RenameAll(codes, abbrev);
    forall s ensures multiset(names)[s] == |CodesNamed(Elems(KeyColumn(rows, StateOf)), abbrev, s)| {
      RenameAllCounts(codes, abbrev, s);
    }
    RenameAllMembers(rows, abbrev, codes);
    names
  }

  /** Renaming a list of the codes present gives exactly the names of the rows' states. */
  lemma RenameAllMembers(rows: seq<Record>, abbrev: map<string, string>, codes: seq<string>)
    requires Elems(codes) == Elems(KeyColumn(rows, StateOf))
    ensures forall s :: s in RenameAll(codes, abbrev) <==> exists r :: r in rows && Rename(abbrev, r.state) == s
  {
    KeyColumnElems(rows, StateOf);
    var names := RenameAll(codes, abbrev);
    forall s ensures s in names <==> exists r :: r in rows && Rename(abbrev, r.state) == s {
      if s in names {
        var i :| 0 <= i < |names| && names[i] == s;
        assert codes[i] in Elems(codes);
      }
      if exists r :: r in rows && Rename(abbrev, r.state) == s {
        var r :| r in rows && Rename(abbrev, r.state) == s;
        assert r.state in Elems(codes);
        var i :| 0 <= i < |codes| && codes[i] == r.state;
        assert names[i] == s;
      }
    }
  }

  /** Each code renamed, in order. */
  function RenameAll(codes: seq<string>, abbrev: map<string, string>): (names: seq<string>)
    ensures |names| == |codes|
    ensures forall i :: 0 <= i < |codes| ==> names[i] == Rename(abbrev, codes[i])
  {
    if codes == [] then [] else [Rename(abbrev, codes[0])] + RenameAll(codes[1..], abbrev)
  }

  /** The codes among `codes` that the table renames to `s`. */
  function CodesNamed(codes: set<string>, abbrev: map<string, string>, s: string): set<string> {
    set c | c in codes && Rename(abbrev, c) == s
  }

  /** Renaming distinct codes lists each name once per code that carries it. */
  lemma {:induction false} RenameAllCounts(codes: seq<string>, abbrev: map<string, string>, s: string)
    requires NoDuplicates(codes)
    ensures multiset(RenameAll(codes, abbrev))[s] == |CodesNamed(Elems(codes), abbrev, s)|
  {
    if codes != [] {
      var rest := codes[1..];
      assert NoDuplicates(rest) by {
        forall i, j | 0 <= i < j < |rest| ensures rest[i] != rest[j] {
          assert rest[i] == codes[i + 1] && rest[j] == codes[j + 1];
        }
      }
      RenameAllCounts(rest, abbrev, s);
      assert RenameAll(codes, abbrev) == [Rename(abbrev, codes[0])] + RenameAll(rest, abbrev);
      CodesNamedCons(codes, abbrev, s);
    }
  }

  /** Splitting off the first of distinct codes splits the codes that carry a name. */
  lemma CodesNamedCons(codes: seq<string>, abbrev: map<string, string>, s: string)
    requires codes != [] && NoDuplicates(codes)
    ensures |CodesNamed(Elems(codes), abbrev, s)|
      == (if Rename(abbrev, codes[0]) == s then 1 else 0) + |CodesNamed(Elems(codes[1..]), abbrev, s)|
  {
    var head: set<string> := if Rename(abbrev, codes[0]) == s then {codes[0]} else {};
    var tail := CodesNamed(Elems(codes[1..]), abbrev, s);
    CodesNamedSplit(codes, abbrev, s);
    assert codes[0] !in codes[1..] by {
      forall j | 0 <= j < |codes[1..]| ensures codes[1..][j] != codes[0] {
        assert codes[1..][j] == codes[j + 1];
      }
    }
    assert head !! tail;
  }

  /** The codes carrying a name are the first code, if it does, and those of the rest that do. */
  lemma CodesNamedSplit(codes: seq<string>, abbrev: map<string, string>, s: string)
    requires codes != []
    ensures CodesNamed(Elems(codes), abbrev, s)
      == (if Rename(abbrev, codes[0]) == s then {codes[0]} else {}) + CodesNamed(Elems(codes[1..]), abbrev, s)
  {
    assert codes == [codes[0]] + codes[1..];
    assert Elems(codes) == {codes[0]} + Elems(codes[1..]);
  }

  /**
   * `state_list`: the distinct state codes renamed through the table, sorted.
   * The rename happens after `unique()`, so two codes with the same name give
   * two equal entries.
   */
  function StateList(rows: seq<Record>, abbrev: map<string, string>): (states: seq<string>)
    ensures Sorted(states, StrLess)
    ensures |states| == |Elems(KeyColumn(rows, StateOf))|
    ensures forall s :: s in states <==> exists r :: r in rows && Rename(abbrev, r.state) == s
    ensures forall s :: multiset(states)[s] == |CodesNamed(Elems(KeyColumn(rows, StateOf)), abbrev, s)|
  {
    StrLessIsStrictTotalOrder();
    var names := RenamedCodes(rows, abbrev);
    var states := Sort(names, StrLess);
    assert |states| == |multiset(states)| == |multiset(names)| == |names|;
    assert forall s :: s in states <==> s in names by {
      forall s ensures s in states <==> s in names {
        assert s in states <==> s in multiset(states);
        assert s in names <==> s in multiset(names);
      }
    }
    states
  }

  /** When the table gives distinct names to the codes present, no state is listed twice. */
  lemma StateListStrictlySorted(rows: seq<Record>, abbrev: map<string, string>)
    requires forall r1, r2 :: r1 in rows && r2 in rows && r1.state != r2.state ==>
      Rename(abbrev, r1.state) != Rename(abbrev, r2.state)
    ensures StrictlySorted(StateList(rows, abbrev), StrLess)
  {
    var states := StateList(rows, abbrev);
    KeyColumnElems(rows, StateOf);
    // The names of distinct codes are distinct, so there are as many names as entries.
    var names := set r | r in rows :: Rename(abbrev, r.state);
    assert Elems(states) == names;
    RenameInjectiveCardinality(rows, abbrev);
    DistinctWhenFull(states);
    StrLessIsStrictTotalOrder();
    forall i, j | 0 <= i < j < |states| ensures StrLess(states[i], states[j]) {
      assert !StrLess(states[j], states[i]) && states[i] != states[j];
      StrLessConnected(states[i], states[j]);
    }
  }

  lemma RenameInjectiveCardinality(rows: seq<Record>, abbrev: map<string, string>)
    requires forall r1, r2 :: r1 in rows && r2 in rows && r1.state != r2.state ==>
      Rename(abbrev, r1.state) != Rename(abbrev, r2.state)
    ensures |set r | r in rows :: Rename(abbrev, r.state)| == |Elems(KeyColumn(rows, StateOf))|
  {
    KeyColumnElems(rows, StateOf);
    var codes := Elems(KeyColumn(rows, StateOf));
    var names := set r | r in rows :: Rename(abbrev, r.state);
    assert names == set c | c in codes :: Rename(abbrev, c);
    forall c1, c2 | c1 in codes && c2 in codes && c1 != c2 ensures Rename(abbrev, c1) != Rename(abbrev, c2) {
      var r1 :| r1 in rows && r1.state == c1;
      var r2 :| r2 in rows && r2.state == c2;
    }
    InjectiveImage(codes, abbrev);
  }

  /** A renaming that keeps distinct codes apart has an image as large as its domain. */
  lemma InjectiveImage(codes: set<string>, abbrev: map<string, string>)
    requires forall c1, c2 :: c1 in codes && c2 in codes && c1 != c2 ==> Rename(abbrev, c1) != Rename(abbrev, c2)
    ensures |set c | c in codes :: Rename(abbrev, c)| == |codes|
    decreases |codes|
  {
    if codes != {} {
      var c :| c in codes;
      var rest := codes - {c};
      var image := set x | x in codes :: Rename(abbrev, x);
      var image' := set x | x in rest :: Rename(abbrev, x);
      assert image == image' + {Rename(abbrev, c)} by {
        assert forall x :: x in codes <==> x in rest || x == c;
      }
      assert Rename(abbrev, c) !in image';
      InjectiveImage(rest, abbrev);
    }
  }

  /** A sequence with as many distinct elements as entries has no duplicates. */
  lemma DistinctWhenFull<T>(s: seq<T>)
    requires |Elems(s)| == |s|
    ensures NoDuplicates(s)
  {
    if !NoDuplicates(s) {
      var i, j :| 0 <= i < j < |s| && s[i] == s[j];
      ElemsWithoutOne(s, j);
    }
  }

  lemma ElemsWithoutOne<T>(s: seq<T>, j: int)
    requires 0 <= j < |s| && exists i :: 0 <= i < |s| && i != j && s[i] == s[j]
    ensures |Elems(s)| < |s|
  {
    var t := s[..j] + s[j + 1..];
    assert Elems(s) == Elems(t) by {
      forall x ensures x in Elems(s) <==> x in Elems(t) {
        if x in Elems(s) {
          var k :| 0 <= k < |s| && s[k] == x;
          if k < j { assert t[k] == x; }
          else if k > j { assert t[k - 1] == x; }
          else {
            var i :| 0 <= i < |s| && i != j && s[i] == s[j];
            if i < j { assert t[i] == x; } else { assert t[i - 1] == x; }
          }
        }
      }
    }
    ElemsBound(t);
  }

  lemma {:induction false} ElemsBound<T>(s: seq<T>)
    ensures |Elems(s)| <= |s|
  {
    if s != [] {
      ElemsBound(s[1..]);
      assert Elems(s) == {s[0]} + Elems(s[1..]);
    }
  }

  /** Which brand flag `drug_list` keeps. */
  datatype BrandChoice = BrandsOnly | GenericsOnly | AnyBrand

  /**
   * `(how or 'all').strip().lower()`: a missing or empty choice is "all", any
   * other is stripped and lower-cased, so the result is its own strip and its
   * own lower case.
   */
  function NormalizeHow(how: Option<string>): (h: string)
    ensures how.None? ==> h == "all"
    ensures Lower(h) == h && Strip(h) == h
    ensures how.Some? && how.value != "" ==> h == Lower(Strip(how.value))
  {
    if how.None? || how.value == "" then
      assert Lower("all") == "all" by {
        assert forall i :: 0 <= i < 3 ==> !('A' <= "all"[i] <= 'Z');
      }
      StripUnchanged("all");
      "all"
    else
      var t := Strip(how.value);
      LowerIdempotent(t);
      StripLower(t);
      StripIdempotent(how.value);
      Lower(t)
  }

  /** The brand filter a choice names: singular or plural, in any case, with any surrounding blanks. */
  function ChoiceOf(how: Option<string>): (choice: BrandChoice)
    ensures choice == BrandsOnly <==> NormalizeHow(how) == "brand" || NormalizeHow(how) == "brands"
    ensures choice == GenericsOnly <==> NormalizeHow(how) == "generic" || NormalizeHow(how) == "generics"
  {
    KeywordChoice(NormalizeHow(how))
  }

  /** The brand filter a normalised keyword names. */
  function KeywordChoice(h: string): BrandChoice {
    if h == "brand" || h == "brands" then BrandsOnly
    else if h == "generic" || h == "generics" then GenericsOnly
    else AnyBrand
  }

  predicate Admits(choice: BrandChoice, r: Record) {
    match choice
    case BrandsOnly => r.isBrand
    case GenericsOnly => !r.isBrand
    case AnyBrand => true
  }

  function DescriptionOf(r: Record): string {
    r.description
  }

  /** The `is_brand` filter the choice applies, if any. */
  function Admitted(rows: seq<Record>, choice: BrandChoice): (kept: seq<Record>)
    ensures forall r :: r in kept <==> r in rows && Admits(choice, r)
  {
    match choice
    case BrandsOnly => Where(rows, BrandIs(true))
    case GenericsOnly => Where(rows, BrandIs(false))
    case AnyBrand => rows
  }

  /** `drug_list`: the distinct descriptions of the rows the brand choice admits, sorted. */
  function DrugList(rows: seq<Record>, how: Option<string>): (drugs: seq<string>)
    ensures StrictlySorted(drugs, StrLess)
    ensures forall d :: d in drugs <==> exists r :: r in rows && Admits(ChoiceOf(how), r) && r.description == d
  {
    var choice := ChoiceOf(how);
    var kept := Admitted(rows, choice);
    StrLessIsStrictTotalOrder();
    KeyColumnElems(kept, DescriptionOf);
    var drugs := SortedDistinct(KeyColumn(kept, DescriptionOf), StrLess);
    forall d ensures d in drugs <==> exists r :: r in rows && Admits(choice, r) && r.description == d {
      assert d in drugs <==> d in Elems(drugs);
    }
    drugs
  }

  /** The brand choice ignores letter case. */
  lemma ChoiceIgnoresCase(how: string)
    ensures ChoiceOf(Some(Lower(how))) == ChoiceOf(Some(how))
  {
    if how != [] {
      var l := Lower(how);
      assert |l| == |how|;
      StripLower(how);
      LowerIdempotent(Strip(how));
      assert l != [];
      assert NormalizeHow(Some(l)) == Lower(Strip(l));
      assert Strip(l) == Lower(Strip(how));
      assert NormalizeHow(Some(how)) == Lower(Strip(how));
    } else {
      assert Lower(how) == [];
    }
  }

  /** The brand choice ignores surrounding whitespace. */
  lemma ChoiceIgnoresBlanks(how: string)
    ensures ChoiceOf(Some(Strip(how))) == ChoiceOf(Some(how))
  {
    var t := Strip(how);
    if t == [] {
      assert |"all"| == 3;
      if how != [] {
        assert |NormalizeHow(Some(how))| == |Lower(t)| == 0;
      }
    } else {
      StripIdempotent(how);
      assert how != [];
      assert NormalizeHow(Some(t)) == Lower(Strip(t));
      assert NormalizeHow(Some(how)) == Lower(t);
    }
  }

  // ----- The two pipelines -----

  /** The brand value that selects brand rows; every other value selects generics. */
  const BrandLabel := "Brand"
  /** The utilization value the map pipeline reads as fee-for-service. */
  const MapFeeForService := "Fee-for-Service"
  /** The utilization value the trend pipeline reads as fee-for-service. */
  const LineFeeForService := "ffsu"

  /** The drug, brand and utilization filters; each applies only when its argument is present. */
  function OptionalConds(drug: Option<string>, brandGeneric: Option<string>,
                         utilizationType: Option<string>, feeForService: string): seq<Cond>
  {
    (if drug.Some? then [DescriptionIs(drug.value)] else [])
    + (if brandGeneric.Some? then [BrandIs(brandGeneric.value == BrandLabel)] else [])
    + (if utilizationType.Some? then [FfsuIs(utilizationType.value == feeForService)] else [])
  }

  /** What the optional filters let through, stated directly on the row. */
  predicate Passes(drug: Option<string>, brandGeneric: Option<string>,
                   utilizationType: Option<string>, feeForService: string, r: Record)
  {
    && (drug.None? || r.description == drug.value)
    && (brandGeneric.None? || r.isBrand == (brandGeneric.value == BrandLabel))
    && (utilizationType.None? || r.isFfsu == (utilizationType.value == feeForService))
  }

  lemma OptionalCondsHold(drug: Option<string>, brandGeneric: Option<string>,
                          utilizationType: Option<string>, feeForService: string, r: Record)
    ensures HoldsAll(OptionalConds(drug, brandGeneric, utilizationType, feeForService), r)
        <==> Passes(drug, brandGeneric, utilizationType, feeForService, r)
  {
    var a := if drug.Some? then [DescriptionIs(drug.value)] else [];
    var b := if brandGeneric.Some? then [BrandIs(brandGeneric.value == BrandLabel)] else [];
    var c := if utilizationType.Some? then [FfsuIs(utilizationType.value == feeForService)] else [];
    assert OptionalConds(drug, brandGeneric, utilizationType, feeForService) == a + b + c;
    HoldsAllAppend(a + b, c, r);
    HoldsAllAppend(a, b, r);
    HoldsAllAtMostOne(a, r);
    HoldsAllAtMostOne(b, r);
    HoldsAllAtMostOne(c, r);
  }

  lemma HoldsAllAtMostOne(cs: seq<Cond>, r: Record)
    requires |cs| <= 1
    ensures HoldsAll(cs, r) <==> cs == [] || Holds(cs[0], r)
  {
  }

  /** The filters of `filter_map_data` for a parsed period. */
  function MapConds(p: Period, drug: Option<string>, brandGeneric: Option<string>,
                    utilizationType: Option<string>): seq<Cond>
  {
    [YearIs(p.year), QuarterIs(p.quarter)] + OptionalConds(drug, brandGeneric, utilizationType, MapFeeForService)
  }

  /** The rows `filter_map_data` aggregates, stated directly on the row. */
  predicate MapSelects(p: Period, drug: Option<string>, brandGeneric: Option<string>,
                       utilizationType: Option<string>, r: Record)
  {
    r.year == p.year && r.quarter == p.quarter
    && Passes(drug, brandGeneric, utilizationType, MapFeeForService, r)
  }

  /** The filter chain of the map pipeline keeps exactly the rows MapSelects describes. */
  lemma MapCondsHold(p: Period, drug: Option<string>, brandGeneric: Option<string>,
                     utilizationType: Option<string>, r: Record)
    ensures HoldsAll(MapConds(p, drug, brandGeneric, utilizationType), r)
        <==> MapSelects(p, drug, brandGeneric, utilizationType, r)
  {
    var head := [YearIs(p.year), QuarterIs(p.quarter)];
    HoldsAllAppend(head, OptionalConds(drug, brandGeneric, utilizationType, MapFeeForService), r);
    OptionalCondsHold(drug, brandGeneric, utilizationType, MapFeeForService, r);
    assert HoldsAll(head, r) <==> r.year == p.year && r.quarter == p.quarter by {
      assert head[0] == YearIs(p.year) && head[1] == QuarterIs(p.quarter);
    }
  }

  /** The per-unit columns, null where the unit total is zero (the float division has no finite value). */
  datatype Metric = PaymentPerUnitMetric | WeightedNadacPerUnitMetric | MarkupPerUnitMetric

  function MetricOf(m: Metric, t: Totals): (v: Option<real>)
    ensures v.Some? <==> t.units != 0.0
  {
    if t.units == 0.0 then None
    else match m
      case PaymentPerUnitMetric => Some(PerUnit(t.totalAmt, t.units))
      case WeightedNadacPerUnitMetric => Some(PerUnit(t.weightedNadacTotal, t.units))
      case MarkupPerUnitMetric => Some(MarkupPerUnit(t.totalAmt, t.weightedNadacTotal, t.units))
  }

  /**
   * What a present metric is worth: payment and NADAC per unit are their
   * amount over the units to within half a unit in the fourth decimal place;
   * the markup is their difference, within one unit of the exact markup.
   */
  lemma MetricValue(m: Metric, t: Totals)
    requires t.units != 0.0
    ensures m == PaymentPerUnitMetric ==>
      IsRounded(MetricOf(m, t).value, 4) && WithinHalfUnit(MetricOf(m, t).value, t.totalAmt / t.units, 4)
    ensures m == WeightedNadacPerUnitMetric ==>
      IsRounded(MetricOf(m, t).value, 4) && WithinHalfUnit(MetricOf(m, t).value, t.weightedNadacTotal / t.units, 4)
    ensures m == MarkupPerUnitMetric ==>
      && MetricOf(m, t).value == PerUnit(t.totalAmt, t.units) - PerUnit(t.weightedNadacTotal, t.units)
      && -1.0 <= (MetricOf(m, t).value - (t.totalAmt - t.weightedNadacTotal) / t.units) * 10000.0 <= 1.0
  {
  }

  /** Where it is defined, the markup is payment per unit minus weighted NADAC per unit. */
  lemma MarkupIsDifference(t: Totals)
    requires t.units != 0.0
    ensures MetricOf(MarkupPerUnitMetric, t).value
        == MetricOf(PaymentPerUnitMetric, t).value - MetricOf(WeightedNadacPerUnitMetric, t).value
  {
  }

  /** The non-null values of a metric over the given groups: the column `rank()` sees. */
  function MetricColumn(m: Metric, totals: map<string, Totals>, keys: seq<string>): (column: seq<real>)
    requires forall k :: k in keys ==> k in totals
    ensures forall k :: k in keys && MetricOf(m, totals[k]).Some? ==> MetricOf(m, totals[k]).value in column
    ensures forall v :: v in column ==> exists k :: k in keys && MetricOf(m, totals[k]) == Some(v)
  {
    if keys == [] then []
    else
      var rest := MetricColumn(m, totals, keys[1..]);
      var v := MetricOf(m, totals[keys[0]]);
      assert forall k :: k in keys ==> k == keys[0] || k in keys[1..];
      (if v.Some? then [v.value] else []) + rest
  }

  /**
   * Each value occurs in the column once per group that has it, so tied
   * groups are all counted when `rank()` averages their ranks.
   */
  lemma {:induction false} MetricColumnCounts(m: Metric, totals: map<string, Totals>, keys: seq<string>, v: real)
    requires forall k :: k in keys ==> k in totals
    requires NoDuplicates(keys)
    ensures multiset(MetricColumn(m, totals, keys))[v] == |KeysWithMetric(m, totals, keys, v)|
  {
    if keys != [] {
      assert forall k :: k in keys[1..] ==> k in keys;
      MetricColumnCounts(m, totals, keys[1..], v);
      KeysWithMetricCons(m, totals, keys, v);
    }
  }

  /** The groups among `keys` whose metric is `v`. */
  function KeysWithMetric(m: Metric, totals: map<string, Totals>, keys: seq<string>, v: real): set<string>
    requires forall k :: k in keys ==> k in totals
  {
    set k | k in keys && MetricOf(m, totals[k]) == Some(v)
  }

  lemma KeysWithMetricCons(m: Metric, totals: map<string, Totals>, keys: seq<string>, v: real)
    requires keys != []
    requires forall k :: k in keys ==> k in totals
    requires NoDuplicates(keys)
    ensures |KeysWithMetric(m, totals, keys, v)| ==
      (if MetricOf(m, totals[keys[0]]) == Some(v) then 1 else 0) + |KeysWithMetric(m, totals, keys[1..], v)|
  {
    var head: set<string> := if MetricOf(m, totals[keys[0]]) == Some(v) then {keys[0]} else {};
    KeysWithMetricSplit(m, totals, keys, v);
    assert keys[0] !in keys[1..];
    assert head !! KeysWithMetric(m, totals, keys[1..], v);
  }

  /** The first key joins the matching keys of the rest exactly when its metric is `v`. */
  lemma KeysWithMetricSplit(m: Metric, totals: map<string, Totals>, keys: seq<string>, v: real)
    requires keys != []
    requires forall k :: k in keys ==> k in totals
    ensures KeysWithMetric(m, totals, keys, v) ==
      (if MetricOf(m, totals[keys[0]]) == Some(v) then {keys[0]} else {}) + KeysWithMetric(m, totals, keys[1..], v)
  {
    assert forall k :: k in keys <==> k == keys[0] || k in keys[1..] by {
      assert keys == [keys[0]] + keys[1..];
    }
  }

  /** The percentile of a non-null value within its column; null stays null. */
  function PercentileIn(column: seq<real>, v: Option<real>): (p: Option<real>)
    ensures p.Some? <==> v.Some? && v.value in column
    ensures p.Some? ==> 0.01 <= p.value <= 1.0
  {
    if v.Some? && v.value in column then Some(RankPercentile(column, v.value)) else None
  }

  /** One state's row of the map aggregate. */
  datatype MapRow = MapRow(
    totals: Totals,
    paymentPerUnit: Option<real>,
    markupPerUnit: Option<real>,
    markupPercentile: Option<real>,
    paymentPerUnitPercentile: Option<real>)

  /** The summed columns of every group, rounded to 4 places. */
  function RoundGroups<K>(groups: map<K, Totals>): (rounded: map<K, Totals>)
    ensures rounded.Keys == groups.Keys
    ensures forall k :: k in rounded ==> rounded[k] == RoundTotals(groups[k])
  {
    map k | k in groups :: RoundTotals(groups[k])
  }

  /** The metric columns of the map aggregate, derived from the rounded state totals. */
  function DeriveMapMetrics(totals: map<string, Totals>, states: seq<string>): (out: map<string, MapRow>)
    requires forall s :: s in states <==> s in totals
    ensures out.Keys == totals.Keys
    ensures forall s :: s in out ==> out[s].totals == totals[s]
    ensures forall s :: s in out ==>
      out[s].paymentPerUnit == MetricOf(PaymentPerUnitMetric, totals[s])
      && out[s].markupPerUnit == MetricOf(MarkupPerUnitMetric, totals[s])
    ensures forall s :: s in out ==>
      && (out[s].markupPercentile.Some? <==> totals[s].units != 0.0)
      && (out[s].paymentPerUnitPercentile.Some? <==> totals[s].units != 0.0)
      && (out[s].markupPercentile.Some? ==> 0.01 <= out[s].markupPercentile.value <= 1.0)
      && (out[s].paymentPerUnitPercentile.Some? ==> 0.01 <= out[s].paymentPerUnitPercentile.value <= 1.0)
    ensures forall s :: s in out ==>
      && out[s].markupPercentile
         == PercentileIn(MetricColumn(MarkupPerUnitMetric, totals, states), MetricOf(MarkupPerUnitMetric, totals[s]))
      && out[s].paymentPerUnitPercentile
         == PercentileIn(MetricColumn(PaymentPerUnitMetric, totals, states), MetricOf(PaymentPerUnitMetric, totals[s]))
  {
    var markups := MetricColumn(MarkupPerUnitMetric, totals, states);
    var payments := MetricColumn(PaymentPerUnitMetric, totals, states);
    StateRows(totals, markups, payments)
  }

  /** Every state's row, given the metric columns of all states. */
  function StateRows(totals: map<string, Totals>, markups: seq<real>, payments: seq<real>): (out: map<string, MapRow>)
    requires forall s :: s in totals && totals[s].units != 0.0 ==>
      MetricOf(MarkupPerUnitMetric, totals[s]).value in markups
      && MetricOf(PaymentPerUnitMetric, totals[s]).value in payments
    ensures out.Keys == totals.Keys
    ensures forall s :: s in out ==> out[s] == MapRowOf(totals[s], markups, payments)
  {
    map s | s in totals :: MapRowOf(totals[s], markups, payments)
  }

  /** One state's row, given the metric columns of all states. */
  function MapRowOf(t: Totals, markups: seq<real>, payments: seq<real>): (row: MapRow)
    requires t.units != 0.0 ==> MetricOf(MarkupPerUnitMetric, t).value in markups
    requires t.units != 0.0 ==> MetricOf(PaymentPerUnitMetric, t).value in payments
    ensures row.totals == t
    ensures row.paymentPerUnit == MetricOf(PaymentPerUnitMetric, t)
    ensures row.markupPerUnit == MetricOf(MarkupPerUnitMetric, t)
    ensures row.markupPercentile == PercentileIn(markups, MetricOf(MarkupPerUnitMetric, t))
    ensures row.paymentPerUnitPercentile == PercentileIn(payments, MetricOf(PaymentPerUnitMetric, t))
    ensures row.markupPercentile.Some? <==> t.units != 0.0
    ensures row.paymentPerUnitPercentile.Some? <==> t.units != 0.0
  {
    MapRow(t, MetricOf(PaymentPerUnitMetric, t), MetricOf(MarkupPerUnitMetric, t),
           PercentileIn(markups, MetricOf(MarkupPerUnitMetric, t)),
           PercentileIn(payments, MetricOf(PaymentPerUnitMetric, t)))
  }

  /** The rows that survive the filters of `filter_map_data`, in their order. */
  function MapRows(rows: seq<Record>, p: Period, drug: Option<string>, brandGeneric: Option<string>,
                   utilizationType: Option<string>): (kept: seq<Record>)
    ensures forall r :: r in kept <==> r in rows && MapSelects(p, drug, brandGeneric, utilizationType, r)
  {
    forall r ensures HoldsAll(MapConds(p, drug, brandGeneric, utilizationType), r)
        <==> MapSelects(p, drug, brandGeneric, utilizationType, r) {
      MapCondsHold(p, drug, brandGeneric, utilizationType, r);
    }
    WhereAll(rows, MapConds(p, drug, brandGeneric, utilizationType))
  }

  /** The summed and rounded totals of each state among the rows the map pipeline keeps. */
  function MapTotals(rows: seq<Record>, p: Period, drug: Option<string>, brandGeneric: Option<string>,
                     utilizationType: Option<string>): (totals: map<string, Totals>)
    ensures forall s :: s in totals <==>
      exists r :: r in rows && MapSelects(p, drug, brandGeneric, utilizationType, r) && r.state == s
    ensures forall s :: s in totals ==>
      totals[s] == RoundTotals(Sum(WithKey(MapRows(rows, p, drug, brandGeneric, utilizationType), StateOf, s)))
  {
    var kept := MapRows(rows, p, drug, brandGeneric, utilizationType);
    KeyColumnElems(kept, StateOf);
    RoundGroups(GroupBy(kept, StateOf))
  }

  /** The states of the kept rows, each once, in order of first appearance. */
  function MapStates(rows: seq<Record>, p: Period, drug: Option<string>, brandGeneric: Option<string>,
                     utilizationType: Option<string>): (states: seq<string>)
    ensures forall s :: s in states <==> s in MapTotals(rows, p, drug, brandGeneric, utilizationType)
    ensures NoDuplicates(states)
  {
    var kept := MapRows(rows, p, drug, brandGeneric, utilizationType);
    KeyColumnElems(kept, StateOf);
    var states := Distinct(KeyColumn(kept, StateOf));
    assert forall s :: s in states <==> s in MapTotals(rows, p, drug, brandGeneric, utilizationType) by {
      forall s ensures s in states <==> s in MapTotals(rows, p, drug, brandGeneric, utilizationType) {
        assert s in states <==> s in Elems(states);
      }
    }
    states
  }

  /** One metric over the kept states, each state once, as the percentiles rank it. */
  function MapColumn(m: Metric, rows: seq<Record>, p: Period, drug: Option<string>, brandGeneric: Option<string>,
                     utilizationType: Option<string>): seq<real>
  {
    MetricColumn(m, MapTotals(rows, p, drug, brandGeneric, utilizationType),
                 MapStates(rows, p, drug, brandGeneric, utilizationType))
  }

  /** The state aggregate of the map pipeline for a parsed period. */
  function MapAggregate(rows: seq<Record>, p: Period, drug: Option<string>, brandGeneric: Option<string>,
                        utilizationType: Option<string>): (out: map<string, MapRow>)
    ensures forall s :: s in out <==>
      exists r :: r in rows && MapSelects(p, drug, brandGeneric, utilizationType, r) && r.state == s
    ensures forall s :: s in out ==>
      out[s].totals == RoundTotals(Sum(WithKey(MapRows(rows, p, drug, brandGeneric, utilizationType), StateOf, s)))
    ensures forall s, r :: s in out && r in WithKey(MapRows(rows, p, drug, brandGeneric, utilizationType), StateOf, s) ==>
      r in rows && MapSelects(p, drug, brandGeneric, utilizationType, r) && r.state == s
    ensures forall s :: s in out ==>
      && out[s].paymentPerUnit == MetricOf(PaymentPerUnitMetric, out[s].totals)
      && out[s].markupPerUnit == MetricOf(MarkupPerUnitMetric, out[s].totals)
    ensures forall s :: s in out ==>
      && (out[s].markupPercentile.Some? <==> out[s].totals.units != 0.0)
      && (out[s].markupPercentile.Some? ==> 0.01 <= out[s].markupPercentile.value <= 1.0)
      && (out[s].paymentPerUnitPercentile.Some? <==> out[s].totals.units != 0.0)
      && (out[s].paymentPerUnitPercentile.Some? ==> 0.01 <= out[s].paymentPerUnitPercentile.value <= 1.0)
    ensures forall s :: s in out ==>
      && out[s].markupPercentile
         == PercentileIn(MapColumn(MarkupPerUnitMetric, rows, p, drug, brandGeneric, utilizationType), out[s].markupPerUnit)
      && out[s].paymentPerUnitPercentile
         == PercentileIn(MapColumn(PaymentPerUnitMetric, rows, p, drug, brandGeneric, utilizationType), out[s].paymentPerUnit)
  {
    var kept := MapRows(rows, p, drug, brandGeneric, utilizationType);
    KeyColumnElems(kept, StateOf);
    DeriveMapMetrics(MapTotals(rows, p, drug, brandGeneric, utilizationType),
                     MapStates(rows, p, drug, brandGeneric, utilizationType))
  }

  /**
   * `filter_map_data`: parse the period label, filter, group by state, sum and
   * round, then derive the per-unit metrics and their percentiles. A label that
   * does not parse is an error.
   */
  function FilterMapData(rows: seq<Record>, yearQuarter: string, drug: Option<string>,
                         brandGeneric: Option<string>, utilizationType: Option<string>)
    : (r: Result<map<string, MapRow>, ParseError>)
    ensures r.Err? <==> ParseYearQuarter(yearQuarter).Err?
    ensures r.Err? ==> r.error == ParseYearQuarter(yearQuarter).error
    ensures r.Ok? ==> forall s :: s in r.value <==>
      exists row :: row in rows && row.state == s
        && MapSelects(ParseYearQuarter(yearQuarter).value, drug, brandGeneric, utilizationType, row)
    ensures r.Ok? ==> forall s :: s in r.value ==>
      r.value[s].totals == RoundTotals(Sum(WithKey(
        MapRows(rows, ParseYearQuarter(yearQuarter).value, drug, brandGeneric, utilizationType), StateOf, s)))
    ensures r.Ok? ==> r.value == MapAggregate(rows, ParseYearQuarter(yearQuarter).value, drug, brandGeneric, utilizationType)
  {
    match ParseYearQuarter(yearQuarter)
    case Err(e) => Err(e)
    case Ok(p) => Ok(MapAggregate(rows, p, drug, brandGeneric, utilizationType))
  }

  /** A larger markup (or payment per unit) never gets a smaller percentile. */
  lemma DeriveMapMetricsMonotone(totals: map<string, Totals>, states: seq<string>, s1: string, s2: string)
    requires forall s :: s in states <==> s in totals
    requires s1 in totals && s2 in totals
    requires totals[s1].units != 0.0 && totals[s2].units != 0.0
    ensures var out := DeriveMapMetrics(totals, states);
      MetricOf(MarkupPerUnitMetric, totals[s1]).value < MetricOf(MarkupPerUnitMetric, totals[s2]).value ==>
        out[s1].markupPercentile.value <= out[s2].markupPercentile.value
    ensures var out := DeriveMapMetrics(totals, states);
      MetricOf(PaymentPerUnitMetric, totals[s1]).value < MetricOf(PaymentPerUnitMetric, totals[s2]).value ==>
        out[s1].paymentPerUnitPercentile.value <= out[s2].paymentPerUnitPercentile.value
  {
    var out := DeriveMapMetrics(totals, states);
    var markups := MetricColumn(MarkupPerUnitMetric, totals, states);
    var payments := MetricColumn(PaymentPerUnitMetric, totals, states);
    assert out[s1].markupPercentile == PercentileIn(markups, MetricOf(MarkupPerUnitMetric, totals[s1]));
    assert out[s2].markupPercentile == PercentileIn(markups, MetricOf(MarkupPerUnitMetric, totals[s2]));
    assert out[s1].paymentPerUnitPercentile == PercentileIn(payments, MetricOf(PaymentPerUnitMetric, totals[s1]));
    assert out[s2].paymentPerUnitPercentile == PercentileIn(payments, MetricOf(PaymentPerUnitMetric, totals[s2]));
    ColumnPercentileMonotone(MarkupPerUnitMetric, totals, states, s1, s2);
    ColumnPercentileMonotone(PaymentPerUnitMetric, totals, states, s1, s2);
  }

  /** Within one metric column, a larger value has at least the percentile of a smaller one. */
  lemma ColumnPercentileMonotone(m: Metric, totals: map<string, Totals>, states: seq<string>, s1: string, s2: string)
    requires forall k :: k in states ==> k in totals
    requires s1 in states && s2 in states
    requires totals[s1].units != 0.0 && totals[s2].units != 0.0
    ensures var column := MetricColumn(m, totals, states);
      MetricOf(m, totals[s1]).value < MetricOf(m, totals[s2]).value ==>
        PercentileIn(column, MetricOf(m, totals[s1])).value <= PercentileIn(column, MetricOf(m, totals[s2])).value
  {
    var column := MetricColumn(m, totals, states);
    var v1, v2 := MetricOf(m, totals[s1]).value, MetricOf(m, totals[s2]).value;
    if v1 < v2 {
      RankPercentileMonotone(column, v1, v2);
    }
  }

  /**
   * In the map pipeline's output, a state with a larger markup per unit has at
   * least the markup percentile of one with a smaller markup.
   */
  lemma MapAggregateMarkupMonotone(rows: seq<Record>, p: Period, drug: Option<string>, brandGeneric: Option<string>,
                                   utilizationType: Option<string>, s1: string, s2: string)
    requires var out := MapAggregate(rows, p, drug, brandGeneric, utilizationType);
      s1 in out && s2 in out && out[s1].totals.units != 0.0 && out[s2].totals.units != 0.0
    ensures var out := MapAggregate(rows, p, drug, brandGeneric, utilizationType);
      MarkupOrderKept(out[s1], out[s2])
  {
    var out := MapAggregate(rows, p, drug, brandGeneric, utilizationType);
    MarkupRowsMonotone(out[s1], out[s2], MapColumn(MarkupPerUnitMetric, rows, p, drug, brandGeneric, utilizationType));
  }

  /**
   * In the map pipeline's output, a state with a larger payment per unit has at
   * least the payment percentile of one with a smaller payment.
   */
  lemma MapAggregatePaymentMonotone(rows: seq<Record>, p: Period, drug: Option<string>, brandGeneric: Option<string>,
                                    utilizationType: Option<string>, s1: string, s2: string)
    requires var out := MapAggregate(rows, p, drug, brandGeneric, utilizationType);
      s1 in out && s2 in out && out[s1].totals.units != 0.0 && out[s2].totals.units != 0.0
    ensures var out := MapAggregate(rows, p, drug, brandGeneric, utilizationType);
      PaymentOrderKept(out[s1], out[s2])
  {
    var out := MapAggregate(rows, p, drug, brandGeneric, utilizationType);
    PaymentRowsMonotone(out[s1], out[s2], MapColumn(PaymentPerUnitMetric, rows, p, drug, brandGeneric, utilizationType));
  }

  /** A smaller markup per unit in `r1` than in `r2` comes with a percentile that is not larger. */
  predicate MarkupOrderKept(r1: MapRow, r2: MapRow) {
    r1.markupPerUnit.Some? && r2.markupPerUnit.Some? && r1.markupPercentile.Some? && r2.markupPercentile.Some?
    && (r1.markupPerUnit.value < r2.markupPerUnit.value ==> r1.markupPercentile.value <= r2.markupPercentile.value)
  }

  /** A smaller payment per unit in `r1` than in `r2` comes with a percentile that is not larger. */
  predicate PaymentOrderKept(r1: MapRow, r2: MapRow) {
    r1.paymentPerUnit.Some? && r2.paymentPerUnit.Some?
    && r1.paymentPerUnitPercentile.Some? && r2.paymentPerUnitPercentile.Some?
    && (r1.paymentPerUnit.value < r2.paymentPerUnit.value ==>
        r1.paymentPerUnitPercentile.value <= r2.paymentPerUnitPercentile.value)
  }

  /** Two rows ranked in the same markup column keep the order of their markups. */
  lemma MarkupRowsMonotone(r1: MapRow, r2: MapRow, markups: seq<real>)
    requires r1.markupPercentile == PercentileIn(markups, r1.markupPerUnit) && r1.markupPercentile.Some?
    requires r2.markupPercentile == PercentileIn(markups, r2.markupPerUnit) && r2.markupPercentile.Some?
    ensures MarkupOrderKept(r1, r2)
  {
    PercentileInMonotone(markups, r1.markupPerUnit, r2.markupPerUnit);
  }

  /** Two rows ranked in the same payment column keep the order of their payments. */
  lemma PaymentRowsMonotone(r1: MapRow, r2: MapRow, payments: seq<real>)
    requires r1.paymentPerUnitPercentile == PercentileIn(payments, r1.paymentPerUnit)
    requires r1.paymentPerUnitPercentile.Some?
    requires r2.paymentPerUnitPercentile == PercentileIn(payments, r2.paymentPerUnit)
    requires r2.paymentPerUnitPercentile.Some?
    ensures PaymentOrderKept(r1, r2)
  {
    PercentileInMonotone(payments, r1.paymentPerUnit, r2.paymentPerUnit);
  }

  /** Among values present in a column, a larger one has at least the percentile of a smaller one. */
  lemma PercentileInMonotone(column: seq<real>, a: Option<real>, b: Option<real>)
    requires PercentileIn(column, a).Some? && PercentileIn(column, b).Some?
    ensures a.value < b.value ==> PercentileIn(column, a).value <= PercentileIn(column, b).value
  {
    if a.value < b.value {
      RankPercentileMonotone(column, a.value, b.value);
    }
  }

  /** State `s` is in `out` with units, and every other state has none. */
  predicate SoleStateWithUnits(out: map<string, MapRow>, s: string) {
    s in out && out[s].totals.units != 0.0
    && forall o :: o in out && o != s ==> out[o].totals.units == 0.0
  }

  /**
   * When only one selected state has units, it is alone in both metric columns,
   * so both of its percentiles sit at the 0.01 floor.
   */
  lemma MapAggregateSoleState(rows: seq<Record>, p: Period, drug: Option<string>, brandGeneric: Option<string>,
                              utilizationType: Option<string>, s: string)
    requires SoleStateWithUnits(MapAggregate(rows, p, drug, brandGeneric, utilizationType), s)
    ensures var out := MapAggregate(rows, p, drug, brandGeneric, utilizationType);
      s in out && out[s].markupPercentile == Some(0.01) && out[s].paymentPerUnitPercentile == Some(0.01)
  {
    var out := MapAggregate(rows, p, drug, brandGeneric, utilizationType);
    var totals := MapTotals(rows, p, drug, brandGeneric, utilizationType);
    assert s in out && out[s].totals.units != 0.0;
    assert forall o :: o in out && o != s ==> out[o].totals.units == 0.0;
    assert forall o :: o in totals ==> o in out && totals[o] == out[o].totals;
    MapColumnSole(MarkupPerUnitMetric, rows, p, drug, brandGeneric, utilizationType, s);
    MapColumnSole(PaymentPerUnitMetric, rows, p, drug, brandGeneric, utilizationType, s);
    assert out[s].markupPerUnit == MetricOf(MarkupPerUnitMetric, totals[s]);
    assert out[s].paymentPerUnit == MetricOf(PaymentPerUnitMetric, totals[s]);
    PercentileInSole(MapColumn(MarkupPerUnitMetric, rows, p, drug, brandGeneric, utilizationType), out[s].markupPerUnit);
    PercentileInSole(MapColumn(PaymentPerUnitMetric, rows, p, drug, brandGeneric, utilizationType), out[s].paymentPerUnit);
  }

  /** The only value of a column sits at the 0.01 floor. */
  lemma PercentileInSole(column: seq<real>, v: Option<real>)
    requires v.Some? && column == [v.value]
    ensures PercentileIn(column, v) == Some(0.01)
  {
    SingleRowPercentile(v.value);
  }

  /** When only state `s` has units, the pipeline's metric column is `s`'s value alone. */
  lemma MapColumnSole(m: Metric, rows: seq<Record>, p: Period, drug: Option<string>, brandGeneric: Option<string>,
                      utilizationType: Option<string>, s: string)
    requires var totals := MapTotals(rows, p, drug, brandGeneric, utilizationType);
      s in totals && totals[s].units != 0.0
      && forall o :: o in totals && o != s ==> totals[o].units == 0.0
    ensures var totals := MapTotals(rows, p, drug, brandGeneric, utilizationType);
      MapColumn(m, rows, p, drug, brandGeneric, utilizationType) == [MetricOf(m, totals[s]).value]
  {
    var totals := MapTotals(rows, p, drug, brandGeneric, utilizationType);
    var states := MapStates(rows, p, drug, brandGeneric, utilizationType);
    MetricColumnSole(m, totals, states, s);
  }

  /** A column over groups of which only `k` has units holds `k`'s value alone. */
  lemma {:induction false} MetricColumnSole(m: Metric, totals: map<string, Totals>, keys: seq<string>, k: string)
    requires forall j :: j in keys ==> j in totals
    requires NoDuplicates(keys) && k in keys && totals[k].units != 0.0
    requires forall j :: j in keys && j != k ==> totals[j].units == 0.0
    ensures MetricColumn(m, totals, keys) == [MetricOf(m, totals[k]).value]
  {
    var rest := keys[1..];
    assert forall j :: j in rest ==> j in keys;
    if keys[0] == k {
      assert k !in rest by {
        forall i | 0 <= i < |rest| ensures rest[i] != k {
          assert rest[i] == keys[i + 1];
        }
      }
      MetricColumnEmpty(m, totals, rest);
    } else {
      assert NoDuplicates(rest) by {
        forall i, j | 0 <= i < j < |rest| ensures rest[i] != rest[j] {
          assert rest[i] == keys[i + 1] && rest[j] == keys[j + 1];
        }
      }
      MetricColumnSole(m, totals, rest, k);
    }
  }

  /** Groups without units contribute nothing to a metric column. */
  lemma {:induction false} MetricColumnEmpty(m: Metric, totals: map<string, Totals>, keys: seq<string>)
    requires forall j :: j in keys ==> j in totals && totals[j].units == 0.0
    ensures MetricColumn(m, totals, keys) == []
  {
    if keys != [] {
      assert forall j :: j in keys[1..] ==> j in keys;
      MetricColumnEmpty(m, totals, keys[1..]);
    }
  }

  /** A single state with units is at the 0.01 floor on both percentiles. */
  lemma SingleStatePercentiles(s: string, t: Totals)
    requires t.units != 0.0
    ensures var out := DeriveMapMetrics(map[s := t], [s]);
      out[s].markupPercentile == Some(0.01) && out[s].paymentPerUnitPercentile == Some(0.01)
  {
    var totals := map[s := t];
    assert forall k :: k in [s] <==> k in totals;
    var m := MetricOf(MarkupPerUnitMetric, t).value;
    var p := MetricOf(PaymentPerUnitMetric, t).value;
    assert MetricColumn(MarkupPerUnitMetric, totals, [s]) == [m];
    assert MetricColumn(PaymentPerUnitMetric, totals, [s]) == [p];
    SingleRowPercentile(m);
    SingleRowPercentile(p);
  }

  /** The lower-case brand value the selector sends is not `"Brand"`, so it selects generics. */
  lemma LowercaseBrandSelectsGenerics(p: Period, state: Option<string>, drug: Option<string>,
                                      utilizationType: Option<string>, r: Record)
    ensures MapSelects(p, drug, Some("brand"), utilizationType, r) ==> !r.isBrand
    ensures LineSelects(state, drug, Some("brand"), utilizationType, r) ==> !r.isBrand
  {
  }

  /**
   * The utilization value the selector sends for fee-for-service selects
   * fee-for-service rows in the trend but the other rows on the map.
   */
  lemma FfsuValueDiffersBetweenPipelines(p: Period, state: Option<string>, drug: Option<string>,
                                         brandGeneric: Option<string>, r: Record)
    ensures MapSelects(p, drug, brandGeneric, Some("ffsu"), r) ==> !r.isFfsu
    ensures LineSelects(state, drug, brandGeneric, Some("ffsu"), r) ==> r.isFfsu
  {
  }

  /** The filters of `filter_line_data`: a NADAC total must be present, then the optional ones. */
  function LineConds(state: Option<string>, drug: Option<string>, brandGeneric: Option<string>,
                     utilizationType: Option<string>): seq<Cond>
  {
    [NadacPresent] + ((if state.Some? then [StateIs(state.value)] else [])
      + OptionalConds(drug, brandGeneric, utilizationType, LineFeeForService))
  }

  /** The rows `filter_line_data` aggregates, stated directly on the row. */
  predicate LineSelects(state: Option<string>, drug: Option<string>, brandGeneric: Option<string>,
                        utilizationType: Option<string>, r: Record)
  {
    && r.weightedNadacTotal.Some?
    && (state.None? || r.state == state.value)
    && Passes(drug, brandGeneric, utilizationType, LineFeeForService, r)
  }

  /** The filter chain of the trend pipeline keeps exactly the rows LineSelects describes. */
  lemma LineCondsHold(state: Option<string>, drug: Option<string>, brandGeneric: Option<string>,
                      utilizationType: Option<string>, r: Record)
    ensures HoldsAll(LineConds(state, drug, brandGeneric, utilizationType), r)
        <==> LineSelects(state, drug, brandGeneric, utilizationType, r)
  {
    var st := if state.Some? then [StateIs(state.value)] else [];
    var rest := OptionalConds(drug, brandGeneric, utilizationType, LineFeeForService);
    HoldsAllAppend([NadacPresent], st + rest, r);
    HoldsAllAppend(st, rest, r);
    HoldsAllAtMostOne([NadacPresent], r);
    HoldsAllAtMostOne(st, r);
    OptionalCondsHold(drug, brandGeneric, utilizationType, LineFeeForService, r);
  }

  /** The group key of the trend: the first day of the row's quarter. */
  function DateOf(r: Record): Date {
    MakeDate(r.year, r.quarter)
  }

  /** One date's row of the trend. */
  datatype TrendRow = TrendRow(
    date: Date,
    totals: Totals,
    paymentPerUnit: Option<real>,
    weightedNadacPerUnit: Option<real>,
    markupPerUnit: Option<real>)

  /**
   * A date's row: the metrics are all present or all null, by whether the
   * units are non-zero, and the markup is payment minus NADAC per unit.
   */
  function TrendRowOf(date: Date, t: Totals): (row: TrendRow)
    ensures row.date == date && row.totals == t
    ensures row.paymentPerUnit.Some? <==> t.units != 0.0
    ensures row.weightedNadacPerUnit.Some? == row.paymentPerUnit.Some? == row.markupPerUnit.Some?
    ensures row.markupPerUnit.Some? ==>
      row.markupPerUnit.value == row.paymentPerUnit.value - row.weightedNadacPerUnit.value
  {
    assert t.units != 0.0 ==>
      (MetricOf(MarkupPerUnitMetric, t).value
       == MetricOf(PaymentPerUnitMetric, t).value - MetricOf(WeightedNadacPerUnitMetric, t).value) by {
      if t.units != 0.0 {
        MarkupIsDifference(t);
      }
    }
    TrendRow(date, t, MetricOf(PaymentPerUnitMetric, t), MetricOf(WeightedNadacPerUnitMetric, t),
             MetricOf(MarkupPerUnitMetric, t))
  }

  /** The date column of a trend. */
  function DatesOf(trend: seq<TrendRow>): (dates: seq<Date>)
    ensures |dates| == |trend|
    ensures forall i :: 0 <= i < |trend| ==> dates[i] == trend[i].date
  {
    seq(|trend|, i requires 0 <= i < |trend| => trend[i].date)
  }

  /** Group filtered rows by date, sum and round, derive the metrics and sort by date. */
  function Trend(kept: seq<Record>): (trend: seq<TrendRow>)
    ensures StrictlySorted(DatesOf(trend), DateLess)
    ensures forall d :: d in DatesOf(trend) <==> exists r :: r in kept && DateOf(r) == d
    ensures forall i :: 0 <= i < |trend| ==>
      trend[i].totals == RoundTotals(Sum(WithKey(kept, DateOf, trend[i].date)))
    ensures forall i :: 0 <= i < |trend| ==>
      && trend[i].paymentPerUnit == MetricOf(PaymentPerUnitMetric, trend[i].totals)
      && trend[i].weightedNadacPerUnit == MetricOf(WeightedNadacPerUnitMetric, trend[i].totals)
      && trend[i].markupPerUnit == MetricOf(MarkupPerUnitMetric, trend[i].totals)
  {
    var dates := TrendDates(kept);
    var groups := RoundGroups(GroupBy(kept, DateOf));
    TrendTotals(kept, dates);
    TrendRows(dates, groups)
  }

  /** Each row of the trend carries the rounded sums of the rows of its date. */
  lemma TrendTotals(kept: seq<Record>, dates: seq<Date>)
    requires forall d :: d in dates <==> d in GroupBy(kept, DateOf)
    ensures var trend := TrendRows(dates, RoundGroups(GroupBy(kept, DateOf)));
      forall i :: 0 <= i < |trend| ==> trend[i].totals == RoundTotals(Sum(WithKey(kept, DateOf, trend[i].date)))
  {
    var groups := RoundGroups(GroupBy(kept, DateOf));
    var trend := TrendRows(dates, groups);
    forall i | 0 <= i < |trend|
      ensures trend[i].totals == RoundTotals(Sum(WithKey(kept, DateOf, trend[i].date)))
    {
      assert trend[i].date == dates[i];
    }
  }

  /** One trend row per date, in the order of the dates. */
  function TrendRows(dates: seq<Date>, groups: map<Date, Totals>): (trend: seq<TrendRow>)
    requires forall d :: d in dates ==> d in groups
    ensures DatesOf(trend) == dates
    ensures forall i :: 0 <= i < |trend| ==> trend[i].totals == groups[dates[i]]
    ensures forall i :: 0 <= i < |trend| ==>
      && trend[i].paymentPerUnit == MetricOf(PaymentPerUnitMetric, trend[i].totals)
      && trend[i].weightedNadacPerUnit == MetricOf(WeightedNadacPerUnitMetric, trend[i].totals)
      && trend[i].markupPerUnit == MetricOf(MarkupPerUnitMetric, trend[i].totals)
  {
    seq(|dates|, i requires 0 <= i < |dates| => TrendRowOf(dates[i], groups[dates[i]]))
  }

  /** The distinct dates of the rows, ascending. */
  function TrendDates(kept: seq<Record>): (dates: seq<Date>)
    ensures StrictlySorted(dates, DateLess)
    ensures forall d :: d in dates <==> exists r :: r in kept && DateOf(r) == d
    ensures forall d :: d in dates <==> d in GroupBy(kept, DateOf)
  {
    DateLessIsStrictTotalOrder();
    KeyColumnElems(kept, DateOf);
    var dates := SortedDistinct(KeyColumn(kept, DateOf), DateLess);
    forall d ensures d in dates <==> d in Elems(dates) {
    }
    dates
  }

  /**
   * `filter_line_data`: drop rows without a NADAC total, apply the optional
   * filters, then the trend of the remaining rows.
   */
  function FilterLineData(rows: seq<Record>, state: Option<string>, drug: Option<string>,
                          brandGeneric: Option<string>, utilizationType: Option<string>): (trend: seq<TrendRow>)
    ensures StrictlySorted(DatesOf(trend), DateLess)
    ensures forall d :: d in DatesOf(trend) <==>
      exists r :: r in rows && LineSelects(state, drug, brandGeneric, utilizationType, r) && DateOf(r) == d
    ensures forall i :: 0 <= i < |trend| ==>
      trend[i].totals == RoundTotals(Sum(WithKey(LineRows(rows, state, drug, brandGeneric, utilizationType), DateOf, trend[i].date)))
    ensures forall i, r :: 0 <= i < |trend| && r in WithKey(LineRows(rows, state, drug, brandGeneric, utilizationType), DateOf, trend[i].date) ==>
      r in rows && LineSelects(state, drug, brandGeneric, utilizationType, r) && r.weightedNadacTotal.Some?
    ensures forall i :: 0 <= i < |trend| ==>
      && trend[i].paymentPerUnit == MetricOf(PaymentPerUnitMetric, trend[i].totals)
      && trend[i].weightedNadacPerUnit == MetricOf(WeightedNadacPerUnitMetric, trend[i].totals)
      && trend[i].markupPerUnit == MetricOf(MarkupPerUnitMetric, trend[i].totals)
  {
    Trend(LineRows(rows, state, drug, brandGeneric, utilizationType))
  }

  /** The rows that survive the filters of `filter_line_data`, in their order. */
  function LineRows(rows: seq<Record>, state: Option<string>, drug: Option<string>,
                    brandGeneric: Option<string>, utilizationType: Option<string>): (kept: seq<Record>)
    ensures forall r :: r in kept <==> r in rows && LineSelects(state, drug, brandGeneric, utilizationType, r)
  {
    forall r ensures HoldsAll(LineConds(state, drug, brandGeneric, utilizationType), r)
        <==> LineSelects(state, drug, brandGeneric, utilizationType, r) {
      LineCondsHold(state, drug, brandGeneric, utilizationType, r);
    }
    WhereAll(rows, LineConds(state, drug, brandGeneric, utilizationType))
  }

  /** A row without a NADAC total changes nothing in the trend, wherever it sits. */
  lemma NullNadacIgnored(before: seq<Record>, row: Record, after: seq<Record>, state: Option<string>,
                         drug: Option<string>, brandGeneric: Option<string>, utilizationType: Option<string>)
    requires row.weightedNadacTotal.None?
    ensures FilterLineData(before + [row] + after, state, drug, brandGeneric, utilizationType)
         == FilterLineData(before + after, state, drug, brandGeneric, utilizationType)
  {
    var cs := LineConds(state, drug, brandGeneric, utilizationType);
    assert cs[0] == NadacPresent;
    WhereAppend(before + [row], after, NadacPresent);
    WhereAppend(before, [row], NadacPresent);
    WhereAppend(before, after, NadacPresent);
    assert Where([row], NadacPresent) == [];
    assert Where(before + [row] + after, NadacPresent) == Where(before + after, NadacPresent);
  }
}
