# Capital-riesgo dashboard: a Dafny model of its data pipeline

The dashboard (`main.py`, a Streamlit script over pandas) loads a registry
of Spanish venture-capital and collective-investment entities. Each record
is one share class of an entity, with its type, its manager
(`gestora_nombre`), its depositary (`depositaria_nombre`), its registration
date, its ISIN and its prospectus link. The script then derives everything
it shows from that table. This project models that derivation as pure
functions over immutable rows and proves what each step promises:

- **Loading** drops two entity types (`Filters.Load`).
- **Sidebar.**
  - The selectors' option lists, where the manager and depositary lists are narrowed by the chosen type.
  - The four filters: type, manager, depositary and an inclusive date range.
- **Headline figures.** Record, entity, type, manager and depositary counts, and the latest registration.
- **Timeline.** Registrations per month.
- **Coverage.** The percentage of rows that have an ISIN, a prospectus, a manager or a depositary.
- **Data explorer.**
  - A case-insensitive name search.
  - A one-column sort with missing values last.
  - The grouped view: grouping columns, the `"<n> clases"` counter, the three-ISIN summary, first-present reducers, and the renaming to `clases`.
- **Network section.** The five managers working with the most distinct depositaries.
- **Market concentration.** The top-10 managers' share and the Herfindahl index.

NaN is `Option.None` or `Cell.Missing`. pandas' boolean masks are a
first-order `Criterion` (`Masks`). Numbers are exact: counts are `nat`,
and shares are `real`.

Modules, in dependency order:

| Module | Contents |
|---|---|
| `Optional`, `Seqs` | Generic sequence facts: order-preserving subsequences, `unique`, `dropna`, a comparison sort, occurrence sums |
| `Text` | Code-point order, ASCII lower-casing, substring search, decimal rendering, `", "`-joining |
| `Records` | The row, its columns and cells |
| `Masks` | Boolean masks |
| `Filters` | Loading, the sidebar and the search |
| `Ordering` | The explorer's sort |
| `Explorer` | The displayed table |
| `Metrics` | Every figure and chart series |
| `Pipeline` | The explorer end to end |

The grouped view has two fallbacks, and `Explorer.View` states both as the
code has them (lines 581-618):

- **No grouping columns.** When grouping is on but every shown column is
  class-specific, the code shows the plain projection.
- **Nothing to aggregate.** When every shown column is a grouping column,
  the code shows `drop_duplicates()` of the projection.

## Model

| member | source | states |
|---|---|---|
| Filters.Load | main.py:166-170 | The loaded rows keep their order (a subsequence). Exactly the rows whose type is not one of the two excluded types survive, each with its original multiplicity. |
| Masks.NarrowIsKeep | main.py:282-293 | Applying the masks one after another gives the same table as a single selection by their conjunction. |
| Filters.TestsMeanMatches | main.py:282-293 | A row passes the masks the script applies exactly when it satisfies each active selector, field by field. "Todos" or "Todas" adds no mask. A manager or depositary mask never admits a missing value. The date mask applies only when two dates were picked. |
| Filters.Filter | main.py:282-293 | The working subset is an order-preserving subsequence of its input. It keeps exactly the rows every active selector accepts, with their multiplicities. The date range is inclusive at both ends and rejects undated rows. With every selector on its sentinel and no complete range, the table is unchanged. |
| Filters.FilterIdempotent | main.py:282-293 | Re-applying the same selection to the filtered table changes nothing. |
| Filters.EntityTypeOptions | main.py:226 | The type selector lists "Todos" first, then each type present in the loaded data, once each, in strictly increasing code-point order. Nothing else is listed. |
| Filters.TypeNarrowed | main.py:238-241 | The rows the manager and depositary lists draw from are the rows of the chosen type, or all rows under "Todos". |
| Filters.GestoraOptions | main.py:238-243 | The manager selector lists "Todas" first, then in strictly increasing order exactly the managers named by some row of the chosen type. Missing managers never appear. |
| Filters.DepositariaOptions | main.py:238-251 | The depositary selector does the same as the manager selector, for depositaries. |
| Text.OccursIff | main.py:541 | The left-to-right substring scan succeeds exactly when the term occurs at some position of the name. |
| Filters.Search | main.py:539-544 | An empty box leaves the rows unchanged. Otherwise the result is an order-preserving subsequence. It keeps, with multiplicity, exactly the rows whose name contains the term at some position after ASCII lower-casing. A row without a name never matches. |
| Ordering.RowOrderIsTotal | main.py:577-578 | The sort key order is total and transitive in both directions. Missing values come after every present value. |
| Ordering.SortRows | main.py:577-578 | The sorted table is a permutation of its input. Missing keys come last, and present keys are non-decreasing (ascending) or non-increasing (descending). |
| Explorer.ColumnsWhere | main.py:583-588 | The grouping columns and the aggregated columns are each an order-preserving subsequence of the shown columns. Each holds exactly the shown columns that are not class-specific, or that are, each as many times as it is shown. |
| Explorer.Names | main.py:601-618 | Each header of a projected table is its column's own name, in the shown order. |
| Explorer.Labels | main.py:606-614 | A header cell reads `clases` exactly for the `denominacion` and `numero` columns. Every other column keeps its own name. |
| Explorer.Members | main.py:601 | A group is the order-preserving subsequence of exactly the rows whose grouping key equals the group's key. A missing cell matches only a missing cell (`dropna=False`). |
| Explorer.MembersCount | main.py:601 | A group has as many rows as the projection has copies of its key. |
| Explorer.ClassLabelRoundTrip | main.py:593 | The `"<n> clases"` label reads back as the count it was written from. |
| Explorer.ClassCountIsGroupSize | main.py:592-593 | In a grouped table, a `denominacion` or `numero` cell is the label of n. Here n is the number of rows with that row's key, n is at least 1, and the label parses back to n. |
| Explorer.ShownIsins | main.py:595 | The listed ISINs number min(3, distinct present values). None repeats. All occur in the group's ISIN column, in the order of their first occurrence there. Any present value left out first occurs in the column after every listed one. |
| Explorer.ColumnOrder | main.py:595 | Values ordered by first appearance among the present values (`dropna()`) are ordered by first occurrence in the column itself. |
| Explorer.IsinSummaryRoundTrip | main.py:595 | For comma-free, dot-free codes, reading the summary back gives exactly the listed values. The trailing `...` is there exactly when the group has more than three distinct present values. |
| Explorer.Isins | main.py:595 | The ISIN reducer reads the group's `isin` cells, one per row, in row order. |
| Explorer.Reduce | main.py:591-597 | `denominacion` and `numero` get a label that reads back as the group's row count. `isin` gets a summary that reads back as the listed ISINs, with `...` exactly when more than three distinct values are present (for well-formed codes). `fecha_alta` and `dfi` get `first`: missing exactly when every cell of the group is missing, otherwise the cell of the first row where it is present. |
| Explorer.FirstPresent | main.py:596-597 | A `first` cell is missing exactly when every cell of the group is missing. Otherwise it is the first non-missing cell in row order. |
| Explorer.GroupRows | main.py:600-601 | There is one output row per distinct key, and as many rows as distinct keys. Each row's leading cells are its key, and every input row's key heads some output row. Every aggregated cell is its column's reducer applied to exactly that key's members. |
| Explorer.View | main.py:581-618 | Grouping off, or no grouping column: the projection of every row in order. All shown columns grouping: the distinct projected rows in first-appearance order, exactly the key set. Otherwise: the grouping-column names followed by the renamed aggregate headers, over the grouped rows. |
| Explorer.ViewSizeIgnoresOrder | main.py:581-618 | How many rows the explorer displays depends only on the multiset of input rows, not on their order. |
| Pipeline.Searched | main.py:539-544 | The searched rows number at most the rows read. Each is a read row that is not excluded, satisfies the sidebar selection, and, for a non-empty term, contains the term in its name. |
| Pipeline.UngroupedView | main.py:616-618 | Without grouping, the view lists the projection of every row in the order given, under the shown columns' names, one row per input row. |
| Pipeline.Explore | main.py:539-618 | Without grouping, the explorer shows the shown columns of the search results, under their own names. The results are in the sort order chosen (missing keys last) and keep their multiplicities, and there are no more rows than were read. Every such row is the projection of a read row that is not excluded, satisfies the sidebar selection and matches the search term. |
| Pipeline.ExploreSizeIgnoresSort | main.py:577-601 | The chosen sort column and direction never change how many rows are displayed. |
| Metrics.NUnique | main.py:301-322 | `nunique` equals the number of distinct present values and is at most the number of rows. It is 0 exactly when every value is missing. |
| Metrics.TypeCount | main.py:308 | The type count equals the number of distinct types and is at most the number of rows. It is 0 exactly for an empty table. |
| Metrics.Latest | main.py:327 | The latest registration is missing exactly when no row has a date. Otherwise it is some row's date, and no row's date is later. |
| Metrics.Summarize | main.py:301-327 | The headline records count is the row count. Entities, types, managers and depositaries are each the number of distinct present values, and none exceeds the records count. There are no types exactly when there are no records. There is no latest date exactly when no row is dated. |
| Metrics.Months | main.py:385-386 | A month appears in the month list exactly when some dated row was registered in it, and it appears once per row registered in it. |
| Metrics.MonthsCount | main.py:385-386 | Every dated row contributes exactly one month, and an undated row contributes none. |
| Metrics.Timeline | main.py:385-387 | There is one bucket per month in which some row was registered, and no other. Months strictly increase. Each count is the number of row positions whose registration falls in that month, and is at least 1. |
| Metrics.TimelineTotal | main.py:385-387 | The bucket counts add up to the number of dated rows. |
| Metrics.CountPresent | main.py:425-440 | `notna().sum()` plus the missing cells is the row count. It equals the row count exactly when no cell is missing, and is 0 exactly when all cells are. |
| Metrics.Percent | main.py:426 | A share lies in [0, 100], and its product with the row count is 100 times the part. It is 100 exactly for the whole and 0 exactly for nothing. |
| Metrics.Coverage | main.py:425-441 | Coverage lies in [0, 100]. On a non-empty table it is the share of non-missing cells, and it is 100 exactly when no row lacks the field. It is 0 exactly when every row lacks it, including on an empty table. |
| Metrics.CoverageComplement | main.py:425-441 | The coverage and the share of missing cells add up to 100. |
| Metrics.ValueCounts | main.py:743 | `value_counts` has one entry per distinct present value, each value once, and no other values. Each count is that value's number of occurrences, at least 1. Counts are non-increasing. |
| Metrics.ValueCountsTotal | main.py:744 | The value counts add up to `notna().sum()`. |
| Metrics.PresentCount | main.py:744 | `notna().sum()` plus the missing values is the length, and it equals the sum of the value counts. |
| Metrics.NoManagers | main.py:743-754 | There are no manager counts exactly when no row names a manager. |
| Metrics.TopShare | main.py:743-744 | Undefined exactly when no row names a manager. Otherwise it is the total of the ten largest manager counts as a percentage of the rows that name a manager. It lies in (0, 100], and it is 100 exactly when there are at most ten managers. |
| Metrics.TopShareOf | main.py:743-744 | For any column, the same share: undefined exactly when no value is present, otherwise the top-ten total as a percentage of the present values. |
| Metrics.TopShareFacts | main.py:743-744 | For any column with a present value, the top-ten total lies between 1 and the full total. Their ratio as a percentage lies in (0, 100], and it is 100 exactly when at most ten distinct values are present. |
| Metrics.Herfindahl | main.py:754 | The index is 0 when no row names a manager. Otherwise it is the sum of the squared manager counts over the square of the number of rows that name a manager. It lies in (0, 1], and it is 1 exactly when a single manager is present. |
| Metrics.HerfindahlOf | main.py:754 | For any column, the same index: 0 when no value is present, otherwise the squared counts over the squared number of present values. |
| Metrics.HerfindahlEqualShares | main.py:754 | When every manager manages the same number of rows, the index is the reciprocal of the number of managers. |
| Metrics.Reach | main.py:706 | A manager's reach is the number of distinct depositaries named on that manager's rows. |
| Metrics.Leaders | main.py:706 | The leaders number min(k, candidates). They are distinct candidates, each with its own count, ranked by non-increasing count. No candidate left out counts more than any leader. |
| Metrics.MostConnected | main.py:688-706 | There is no ranking exactly when no row names an entity, its manager and its depositary. Otherwise there are min(5, managers) distinct managers, each with its reach, in non-increasing order. No manager left out reaches more depositaries than any listed one. |
| Seqs.Distinct | main.py:595 | `unique()` keeps each value once, keeps exactly the values of its input, and keeps them in order of first appearance. |
| Seqs.FirstDistinct | main.py:595 | `unique()[:3]` keeps min(k, distinct values) values, distinct and in first-appearance order. Any value left out first appears after every kept one. |
| Seqs.Present | main.py:595 | `dropna()` keeps every present value with its multiplicity and drops exactly the missing ones. |
| Seqs.PresentOrder | main.py:595 | `dropna()` keeps the column order: of two present values, the one that first appears earlier after dropping is exactly the one whose first occurrence in the column is earlier. |
| Text.SplitJoin | main.py:595 | Splitting a `", "`-joined list of comma-free items gives the items back. |
| Text.DecimalRoundTrip | main.py:593 | Reading the decimal rendering of a count gives back the count. |

## Left out

- **Rendering.** The Streamlit page, its CSS, markdown and widgets, and every Plotly figure are left out. Only the data each figure draws is modelled.
- **Widget values are parameters.** The selectbox, date-picker, text-box, multiselect and checkbox values are the parameters `Selection`, `term`, `sortBy`, `ascending`, `show` and `group`. Their defaults and help texts are not modelled.
- **Reading and exporting.** Reading `all_entities_detailed.csv` and the CSV download are I/O. Rows arrive as a `seq<Record>` and leave as a `Table`.
- **Caching.** `@st.cache_data` is not modelled.
- **Date parsing.** `pd.to_datetime` with `errors='coerce'` is not modelled. A registration date arrives already parsed or missing. Dates are compared as calendar days, so times of day are not modelled.
- **Number formatting.** `strftime`, the `:,` thousands separators and the `.1f` / `.4f` formatting of metrics are not modelled. Shares are exact `real`s, not floating point.
- **TopShare: NaN is `None`.** When no row names a manager, `0/0` gives NaN; the model returns `None` instead.
- **Search term.** `Filters.Search`, `Pipeline.Searched`, `Pipeline.Explore`, `Pipeline.ExploreSizeIgnoresSort`: the term must be free of regular-expression metacharacters (`Text.Literal`), so `str.contains` is a plain substring test. Patterns with metacharacters are not modelled.
- **Case folding.** Folding is ASCII `A`-`Z` only. Unicode case folding (accented capitals) is not modelled.
- **Order of grouped rows.** `Explorer.GroupRows` / `Explorer.View` list groups in first-appearance order, while pandas sorts them by key. The contracts of `Explorer.GroupRows` promise no order, so `Explorer.View`'s equation with it pins an order pandas does not share.
- **Stability of the sort.** The default quicksort is not stable. `Ordering.SortRows` promises only a permutation with ordered keys.
- **Mixed-kind sort keys.** Within a column all present cells have one kind. The rank between text and dates only makes the order total and is never exercised by the script.
- **Date columns.** `fecha_alta` and `dfi` are cells like any other, kept as text. Their reducer is `first`.
- **Heatmap and summary tables.** The type-by-year heatmap (`main.py` lines 493-527) and the manager and depositary summary tables with their "Tipo Principal" column (lines 654-682) are not modelled. The principal type is `value_counts().index[0]`, whose tie-break depends on pandas' internal order.
- **Top-15 chart.** The top-15 managers bar chart (line 448) is not modelled. It is `Metrics.ValueCounts` cut at 15.
- **Relationship figures.** The totals in the relationship cards (lines 692-694) are not modelled. They would be `Metrics.NUnique` and a row count over the rows satisfying `Metrics.Complete`; no member computes them.
- **Descriptions and sidebar extras.** The entity-type descriptions, the sidebar's about panel and the footer are static text.
- **Entity type.** `entity_type` is assumed always present, since every row of the registry has a type. A missing type is not modelled.
- **Other columns.** Columns of the CSV other than the twelve the script reads are not modelled.
