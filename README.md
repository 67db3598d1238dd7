# NADAC heat map: data-processing core in Dafny

This project models the data layer of a dashboard of state-level drug acquisition costs (NADAC):
- the column formulas of `data_processing/expressions.py`;
- the catalog queries and the two aggregation pipelines of `data_processing/data_processing.py`.

The fact table is a sequence of `Record`s. Each record is one state × drug × period × brand/utilization segment. It carries `year`, `quarter`, `state`, `description`, `isBrand`, `isFfsu`, `units`, `rxCt`, `totalAmt` and an optional `weightedNadacTotal`.

Both source files are pure query chains: filter, unique, group by and sum, derived columns, sort. The model is therefore datatypes, recursive functions and lemmas. It has no classes and no loops.

Modules:
- `Wrappers` holds `Option` and `Result`.
- `Ordering` holds the sort, `unique()` and the order on strings.
- `Text` holds Python's `str.split(' ')`, `str.strip()`, `str.lower()` and `int()`, and decimal rendering.
- `Rounding` holds the engine's `round(n)`, modelled as half away from zero on exact reals.
- `Frames` holds the record schema, `filter`, `group_by(...).agg(sum())` and the `round(4)` of the sums.
- `Expressions` mirrors `expressions.py`.
- `DataProcessing` mirrors `data_processing.py`.
- `Scenarios` works small example inputs through the pipelines.

The map pipeline parses the period label, filters, groups by state, sums and rounds, then derives:
- payment per unit and markup per unit;
- their percentiles among the states.

It returns `Result<map<string, MapRow>, ParseError>`. A map is used because the group order of `group_by` is not fixed.

The trend pipeline:
- drops rows without a NADAC total;
- applies the optional filters;
- groups by the quarter-start date, sums, rounds and derives the per-unit metrics;
- returns a sequence strictly ascending by date.

Behaviours kept exactly as the code has them, with lemmas showing their effect:
- A brand/generic value selects brand rows only when it is exactly `"Brand"`. The lower-case `"brand"` that the selector sends therefore selects generics (`LowercaseBrandSelectsGenerics`).
- The map pipeline reads `"Fee-for-Service"` as fee-for-service. The trend pipeline reads `"ffsu"` instead. The same `"ffsu"` value therefore selects opposite rows in the two views (`FfsuValueDiffersBetweenPipelines`).
- The quarter is the second character of the label's second token, and the code never checks that this token starts with `Q`. So `"2023 X2"` reads as quarter 2 and `"2023 Q12"` as quarter 1 (`ParseYearQuarterSecondChar`).
- The utilization values are not normalised: each pipeline compares against its own literal (see above).

## Model

| member | source | states |
|---|---|---|
| `Expressions.YearQuarter` | data_processing/expressions.py:5-7 | The label splits on the space into exactly two tokens: the decimal year, and `Q` followed by the decimal quarter. |
| `Expressions.YearQuarterInjective` | data_processing/expressions.py:5-7 | Two periods with the same label have the same year and the same quarter, for any integers. |
| `Expressions.PerUnit` | data_processing/expressions.py:9-15 | Payment and NADAC per unit lie on the 4-decimal grid, within half a unit in the last place of `amount / units`. |
| `Expressions.MarkupPerUnit` | data_processing/expressions.py:17-19 | The markup is exactly payment per unit minus NADAC per unit, because the outer `round(4)` changes nothing. It is within one unit in the last place of `(total - nadac) / units`. |
| `Expressions.Rank` | data_processing/expressions.py:21-22 | The ascending rank with ties averaged lies between 1 and the column length. |
| `Expressions.RankStrictlyMonotone` | data_processing/expressions.py:21-29 | A strictly larger value has a strictly larger rank. |
| `Expressions.RankDistinct` | data_processing/expressions.py:21-22 | Without ties, the rank is one more than the number of smaller entries. |
| `Expressions.MaxRankOf` | data_processing/expressions.py:25 | The result bounds the rank of every listed value and is the rank of one of them. |
| `Expressions.MaxRank` | data_processing/expressions.py:25 | `rank().max()` bounds every rank and lies between 1 and the column length. |
| `Expressions.MaxRankAttained` | data_processing/expressions.py:25 | `rank().max()` is the rank of some entry of the column, so it is the largest rank and not merely a bound. |
| `Expressions.MaxRankDistinct` | data_processing/expressions.py:21-25 | Without ties, `rank().max()` equals the column length. |
| `Expressions.Largest` | data_processing/expressions.py:25 | A non-empty column has an entry that no other entry exceeds. |
| `Expressions.CountAllAtMost` | data_processing/expressions.py:21-22 | When no entry exceeds `v`, the entries below `v` and those equal to it make up the whole column. |
| `Expressions.RawPercentile` | data_processing/expressions.py:25 | `(rank - 1) / max(rank)` is at least 0 and strictly below 1. |
| `Expressions.RankPercentile` | data_processing/expressions.py:24-26 | The floored, rounded percentile lies in [0.01, 1]. It is exactly 0.01 whenever the raw value is below the floor. |
| `Expressions.RankPercentileRounded` | data_processing/expressions.py:24-26 | The percentile has two decimal places. It lies within half a hundredth of `(rank - 1) / max rank`, or of 0.01 when that value is below 0.01. |
| `Expressions.RankPercentileDistinct` | data_processing/expressions.py:21-26 | In a column without ties, the percentile of `v` is the share of entries strictly below `v`, floored at 0.01 and rounded to two places. |
| `Expressions.RankPercentileMonotone` | data_processing/expressions.py:21-29 | A strictly larger value never gets a smaller percentile. |
| `Expressions.SingleRowPercentile` | data_processing/expressions.py:24-26 | For a one-row column, rank = max rank = 1 and the percentile is exactly 0.01. |
| `Expressions.QuarterToMonth` | data_processing/expressions.py:31-32 | The month is the first of its quarter: `(month - 1) / 3 + 1` gives the quarter back with remainder 0. Quarters 1..4 give months 1..10. |
| `Expressions.MakeDate` | data_processing/expressions.py:34-35 | The date is day 1 of the given year. Its month is the first month of the given quarter: `(month - 1) % 3 == 0` and `(month - 1) / 3 + 1` is the quarter. |
| `Expressions.MakeDateOrder` | data_processing/expressions.py:31-35 | For quarters 1..4, dates are equal iff the periods are equal, and earlier iff the period is earlier by year, then quarter. |
| `Rounding.RoundIsNearest` | data_processing/expressions.py:11 | `round(places)` lands on the grid of `places` decimals, within half a unit in the last place of its argument. |
| `Rounding.Round4Rounded` | data_processing/expressions.py:19 | `round(4)` of a value already on the 4-decimal grid returns it unchanged. |
| `Rounding.Round2Monotone` | data_processing/expressions.py:26 | `round(2)` preserves order. |
| `Text.Split` | data_processing/data_processing.py:69 | `split(' ')` gives separator-free pieces that join back to the input. |
| `Text.SplitJoin` | data_processing/data_processing.py:69-70 | Splitting the join of separator-free pieces gives the pieces back. |
| `Text.IntToStringRoundTrip` | data_processing/data_processing.py:69 | `int()` reads back the decimal text the label format writes. |
| `Text.ParseInt` | data_processing/data_processing.py:69 | `int()` succeeds exactly when the stripped text is an optional sign followed by one or more ASCII digits (`IntText`), so `"abc"`, `""` and a lone sign are errors. A negative result needs a leading `-`. A run of digits reads as its decimal value; a leading `-` negates it and a leading `+` keeps it. |
| `Text.ParseIntIgnoresBlanks` | data_processing/data_processing.py:69 | Surrounding whitespace does not change what `int()` reads. |
| `Text.ParseIntOneChar` | data_processing/data_processing.py:70 | `int()` of one character succeeds exactly on a digit and yields its value. |
| `Text.StripLower` | data_processing/data_processing.py:48 | `strip()` and `lower()` commute. |
| `Text.LowerIdempotent` | data_processing/data_processing.py:48 | Lower-casing twice is lower-casing once. |
| `Text.StripIdempotent` | data_processing/data_processing.py:48 | Stripping twice is stripping once. |
| `Ordering.Distinct` | data_processing/data_processing.py:14 | `unique()` keeps every value once and only values of the input. |
| `Ordering.Sort` | data_processing/data_processing.py:39 | `sort` returns a sorted permutation of its input. |
| `Ordering.SortedDistinct` | data_processing/data_processing.py:14-16 | `unique().sort()` is strictly sorted and has exactly the input's values. |
| `Ordering.StrLessIsStrictTotalOrder` | data_processing/data_processing.py:62 | String order (by code point, as UTF-8 byte order gives) is a strict total order. |
| `Frames.Sum` | data_processing/data_processing.py:90 | `sum()` skips nulls: when every NADAC total in the group is null, its NADAC sum is 0. |
| `Frames.SumPermutation` | data_processing/data_processing.py:87-90 | Reordering the rows does not change the sums, so the unspecified group order does not matter. |
| `Frames.SumAppend` | data_processing/data_processing.py:90 | The sum of a concatenation is the sum of the sums. |
| `Frames.Where` | data_processing/data_processing.py:74-85 | `filter(c)` keeps exactly the rows satisfying `c`, never more rows than it had. |
| `Frames.WhereKeepsAll` | data_processing/data_processing.py:74-85 | A filter that every row passes returns the rows unchanged, in order. |
| `Frames.WhereAllKeepsAll` | data_processing/data_processing.py:72-85 | A filter chain that every row passes returns the rows unchanged, in order. |
| `Frames.WhereAll` | data_processing/data_processing.py:72-85 | A chain of filters keeps exactly the rows satisfying every condition. |
| `Frames.WhereAllAppend` | data_processing/data_processing.py:102 | A filter chain over a concatenation is the concatenation of the filtered parts. |
| `Frames.WithKey` | data_processing/data_processing.py:89 | A key's group holds every row with that key, as often as the input holds it, and no other row. |
| `Frames.WithKeyWhole` | data_processing/data_processing.py:89 | When every row has the same key, that key's group is all of the rows. |
| `Frames.GroupBy` | data_processing/data_processing.py:87-90 | `group_by(key).agg(sum())` has one entry per key present in the rows and none for absent keys. Each entry is the sum over that key's rows. |
| `DataProcessing.YearQuarters` | data_processing/data_processing.py:9-17 | Each period in the data appears exactly once, strictly ascending by year, then quarter. Nothing else appears. |
| `DataProcessing.ParseYearQuarter` | data_processing/data_processing.py:69-70 | A label without a space is an error. A parsed quarter is one digit. |
| `DataProcessing.ParseYearQuarterRoundTrip` | data_processing/data_processing.py:69-70 | Parsing a label made by `YearQuarter` recovers its year and single-digit quarter. |
| `DataProcessing.ParseYearQuarterSecondChar` | data_processing/data_processing.py:69-70 | For any second token of two or more characters whose second character is a digit, the quarter is that digit. The first character is not checked, and later characters are ignored. |
| `DataProcessing.YearNotIntegerRejected` | data_processing/data_processing.py:69 | A year token that `int()` refuses gives the year error, whatever the quarter token is. |
| `DataProcessing.QuarterNotIntegerRejected` | data_processing/data_processing.py:69-70 | After a year `int()` accepts, a quarter token whose second character is not a digit gives the quarter error. |
| `DataProcessing.ShortQuarterTokenRejected` | data_processing/data_processing.py:70 | A second token shorter than two characters is an error, not an empty result. |
| `DataProcessing.YearQuarterList` | data_processing/data_processing.py:23-30 | One label per period, in period order: label `i` is `YearQuarter` of period `i`. Each label with a single-digit quarter parses back to its period. |
| `DataProcessing.YearQuarterListDistinct` | data_processing/data_processing.py:23-30 | No label repeats, whatever the quarter numbers. |
| `DataProcessing.Rename` | data_processing/data_processing.py:38 | `replace(STATE_ABBREV)`: a code in the table becomes its name; any other value is kept as it is. |
| `DataProcessing.RenamedCodes` | data_processing/data_processing.py:34-38 | One name per distinct code, renamed after `unique()`. A name appears iff it is the table image of a code in the data, or that code itself when the table lacks it. Each name occurs once per distinct code that renames to it, so two codes with one name give two entries. |
| `DataProcessing.RenameAllCounts` | data_processing/data_processing.py:36-38 | Renaming distinct codes lists each name as many times as there are codes that carry it. |
| `DataProcessing.StateList` | data_processing/data_processing.py:32-42 | The state list is sorted and has one entry per distinct code. It holds exactly the renamed codes of the data, each name as many times as there are distinct codes that rename to it. |
| `DataProcessing.StateListStrictlySorted` | data_processing/data_processing.py:32-42 | When the table keeps distinct codes apart, no state is listed twice. |
| `DataProcessing.NormalizeHow` | data_processing/data_processing.py:48 | A missing `how` becomes `"all"`. A non-empty one is stripped and lower-cased. The result is always its own strip and its own lower case. |
| `DataProcessing.ChoiceOf` | data_processing/data_processing.py:48-56 | Brand rows exactly for normalised `"brand"` or `"brands"`. Generic rows exactly for `"generic"` or `"generics"`. All rows for anything else. |
| `DataProcessing.Admitted` | data_processing/data_processing.py:51-56 | The brand choice keeps exactly the brand rows, the non-brand rows, or all rows. |
| `DataProcessing.DrugList` | data_processing/data_processing.py:44-65 | Descriptions are strictly sorted, with no duplicates. They are exactly the descriptions of rows the normalised `how` admits. |
| `DataProcessing.ChoiceIgnoresCase` | data_processing/data_processing.py:48-55 | Letter case in `how` does not change which rows are kept. |
| `DataProcessing.ChoiceIgnoresBlanks` | data_processing/data_processing.py:48-55 | Surrounding whitespace in `how` does not change which rows are kept. |
| `DataProcessing.OptionalCondsHold` | data_processing/data_processing.py:78-85 | Each optional filter applies only when its argument is present. Exactly `"Brand"` selects brand rows; any other value selects generics. Exactly the pipeline's fee-for-service value selects FFS rows. |
| `DataProcessing.MapCondsHold` | data_processing/data_processing.py:72-85 | The map filter chain passes a row iff it has the parsed year and quarter and passes the optional filters. |
| `DataProcessing.MapRows` | data_processing/data_processing.py:72-85 | The map pipeline keeps exactly the rows `MapSelects` describes. |
| `DataProcessing.MetricOf` | data_processing/data_processing.py:91-93 | A per-unit metric is present exactly when the group's units are non-zero. |
| `DataProcessing.MetricValue` | data_processing/expressions.py:9-19 | A present payment or NADAC per unit is on the 4-decimal grid, within half a unit of amount over units. A present markup is payment minus NADAC per unit, within one unit in the fourth place of the exact markup. |
| `DataProcessing.MarkupIsDifference` | data_processing/data_processing.py:121-123 | Where defined, markup per unit is payment per unit minus NADAC per unit. |
| `DataProcessing.MetricColumn` | data_processing/data_processing.py:94-95 | The ranked column holds the non-null metric of every group and nothing else. |
| `DataProcessing.MetricColumnCounts` | data_processing/data_processing.py:94-95 | Over distinct groups, each value occurs in the ranked column once per group that has it, so ties are all counted. |
| `DataProcessing.PercentileIn` | data_processing/data_processing.py:94-95 | A percentile exists exactly for a non-null value and lies in [0.01, 1]. |
| `DataProcessing.RoundGroups` | data_processing/data_processing.py:90 | The groups are kept, each sum rounded to 4 places. |
| `DataProcessing.DeriveMapMetrics` | data_processing/data_processing.py:91-96 | One row per state, carrying its totals and per-unit metrics. Each percentile is the state's metric ranked within the column of all states' metrics. Both exist exactly when units are non-zero and lie in [0.01, 1]. |
| `DataProcessing.DeriveMapMetricsMonotone` | data_processing/data_processing.py:94-95 | A state with a larger markup (or payment per unit) never gets a smaller percentile. |
| `DataProcessing.SingleStatePercentiles` | data_processing/data_processing.py:94-95 | A single state with units gets exactly 0.01 on both percentiles. |
| `DataProcessing.MapAggregate` | data_processing/data_processing.py:72-97 | One entry per state among the selected rows and none for others. Each entry's totals are the rounded sums over that state's selected rows. Its payment and markup per unit are derived from those totals. Each percentile is the state's own metric ranked within the column of every selected state's metric, each state counted once (`MapColumn`). Percentiles are in [0.01, 1] when units are non-zero and absent otherwise. |
| `DataProcessing.MapAggregateMarkupMonotone` | data_processing/data_processing.py:91-96 | In the map output, of two states with units, the one with the larger markup per unit never has the smaller markup percentile. |
| `DataProcessing.MapAggregatePaymentMonotone` | data_processing/data_processing.py:91-96 | In the map output, of two states with units, the one with the larger payment per unit never has the smaller payment percentile. |
| `DataProcessing.MapAggregateSoleState` | data_processing/data_processing.py:87-96 | When exactly one selected state has units, both its percentiles are 0.01. |
| `DataProcessing.MetricColumnSole` | data_processing/data_processing.py:94-95 | Over distinct groups of which only one has units, the ranked column is that group's value alone. |
| `DataProcessing.FilterMapData` | data_processing/data_processing.py:68-99 | An error exactly when the label does not parse, with the parser's error. Otherwise the map aggregate for the parsed period: one entry per state of the selected rows, with the rounded sums of that state's selected rows. |
| `DataProcessing.LowercaseBrandSelectsGenerics` | data_processing/data_processing.py:82 | The selector's value `"brand"` admits only non-brand rows in both pipelines. |
| `DataProcessing.FfsuValueDiffersBetweenPipelines` | data_processing/data_processing.py:114 | `"ffsu"` admits only non-FFS rows on the map and only FFS rows in the trend. |
| `DataProcessing.LineCondsHold` | data_processing/data_processing.py:102-114 | The trend filter chain passes a row iff it has a NADAC total, matches the state exactly when one is given, and passes the optional filters. |
| `DataProcessing.LineRows` | data_processing/data_processing.py:102-114 | The trend pipeline keeps exactly the rows `LineSelects` describes. |
| `DataProcessing.TrendDates` | data_processing/data_processing.py:118-125 | The distinct reconstructed dates, strictly ascending, are exactly the keys of the date groups. |
| `DataProcessing.TrendRowOf` | data_processing/data_processing.py:120-124 | The three metrics are all present or all null, by whether the units are non-zero. The markup is payment minus NADAC per unit. |
| `DataProcessing.Trend` | data_processing/data_processing.py:116-126 | One row per distinct date, strictly ascending. Totals are the rounded sums of that date's rows. Each metric is `MetricOf` of those totals. |
| `DataProcessing.FilterLineData` | data_processing/data_processing.py:101-128 | Dates are strictly ascending and are exactly the dates of the selected rows. Each row's totals are the rounded sums of that date's selected rows, and each metric is `MetricOf` of those totals. Every contributing row has a NADAC total. |
| `DataProcessing.NullNadacIgnored` | data_processing/data_processing.py:102 | Inserting a row without a NADAC total anywhere leaves the trend unchanged. |
| `Scenarios.PaymentPerUnitExample` | data_processing/expressions.py:9-11 | 390 paid over 150 units is 2.6 per unit. |
| `Scenarios.SingleGroupMap` | data_processing/data_processing.py:72-97 | When every row passes the filters and all rows share one state, the map holds that state alone, with the rounded sums of all rows. |
| `Scenarios.MapExample` | data_processing/data_processing.py:68-97 | Two selected rows of one state (100 units for 250 and 50 units for 140) give one entry: 150 units, 390 paid and 2.6 paid per unit. |
| `Scenarios.NormalKeyword` | data_processing/data_processing.py:48 | A keyword without surrounding blanks or capitals is its own normal form. |
| `Scenarios.BrandKeyword` | data_processing/data_processing.py:48-52 | `how = "brand"` chooses the brand rows. |
| `Scenarios.DrugListExample` | data_processing/data_processing.py:44-65 | `drug_list("brand")` over one brand drug and one generic drug lists the brand drug alone. |

## Left out

- `load_base_data` and the Parquet scan and streaming collection (data_processing/data_processing.py:19-21) are I/O. The fact table is the input sequence `rows`.
- `STATE_ABBREV` comes from `assets/states.py`, which is not part of this model. It is a `map<string, string>` parameter of `StateList`.
- `figures/`, `ui/`, `components/`, `app.py` and `config.py` are presentation and wiring, with no data logic.
- Floating point is not modelled: amounts are exact reals.
  - The engine's float division by zero yields infinity or NaN. The model gives a null metric instead. Null metrics are not ranked, and a null metric has no percentile.
  - How infinity or NaN would rank is not modelled.
- `PerUnit` and `MarkupPerUnit` require non-zero units, because the float result of a division by zero is not modelled. Their callers in the pipelines return null for zero units.
- Rounding is half away from zero on exact reals. The binary representation of decimals and the engine's exact tie behaviour are not modelled.
- `Rounding.Round4Rounded` and `Rounding.Round2Monotone` are stated only for 4 and 2 places, the only precisions the source uses.
- `Expressions.Rank` uses the engine's default `rank()` tie rule, "average" (ties share the mean of their positions). The source does not name the rule.
- `ParseYearQuarterRoundTrip`: holds only for quarters 0..9, because the parser reads only the second character of the quarter token. `ParseYearQuarterSecondChar` states what it reads for any other token.
- `Text.ParseInt` models `int()` as surrounding whitespace, an optional sign, then ASCII digits. Underscore separators and non-ASCII digits are not modelled.
- `Text.Lower` lower-cases ASCII letters only. Other letters are not modelled, and no keyword `how` compares against contains them.
- `Expressions.MakeDate` builds a date for any quarter. The engine rejects a month outside 1..12, which happens for quarters outside 1..4; that rejection is not modelled.
- The column regexes (`(?i)rx|total|units`, `(?i)total_amt`, `(?i)nadac.*total`) are resolved to the four named amount columns of the schema.
- `year_quarters` returns one frame with year, quarter and label columns. The model splits it into `YearQuarters` (the periods) and `YearQuarterList` (their labels).
- `DataProcessing.NormalizeHow` returns `"all"` directly for None or the empty string, instead of stripping and lower-casing `"all"`. The two give the same result.
