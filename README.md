# TCE-SP approved-candidates dashboard: ranking and filtering model

This project models the data pipeline behind a Streamlit dashboard of people who
passed a public exam of the São Paulo audit court (TCE-SP). The pipeline loads a
roster of candidates, coerces the score and birth-date columns, and narrows the
table with five selectors: CARGO, LOCALIDADE, NEGRO, PCD and STATUS. It then ranks
the rows by NOTA descending, CE descending and DATA NASC ascending, so the older
candidate wins a tie. It computes the page's metrics and numbers the rows
POSIÇÃO 1..N for display, with the date written as dd/mm/yyyy.

Modules, one per step of the pipeline:

- `Wrappers`: `Option` and `Result`.
- `Text`: Python's ordering on `str` (code-point lexicographic), zero-padded digit fields, and counts of distinct values.
- `Dates`: calendar dates, the `%d/%m/%Y` display format, the parser with the spellings `to_datetime` accepts for that format, and chronological order.
- `Roster`: the candidate record and `load_data`. Unparseable scores are `None`. A blank or not-a-time date cell is `None` (NaT). Any other date cell that does not parse aborts the load.
- `Ranking`: the comparator, `sort_data` as a stable insertion sort, and what it guarantees.
- `Filters`: the filter block as app.py:171-186 runs it (`ApplyFilters`), and a one-pass conjunctive reference filter it is proved equal to.
- `FilterOptions`: the selector option lists.
- `Metrics`: the row count, the distinct CARGO and LOCALIDADE counts, and the guard on the mean.
- `Projection`: the display copy, with positions and formatted dates.
- `Dashboard`: one page render: filter, rank, metrics, listing or the "no rows" warning.

Scores are fixed-point integers (`Option<int>`, e.g. hundredths); `None` is the NaN
that `to_numeric(errors='coerce')` produces. The CSV file read, the pandas
coercion internals, the Streamlit widgets and the clock are outside the model:
the loader takes the rows as a sequence whose NOTA and CE cells have already been
coerced, and the selector values are parameters. A DATA NASC cell is `None` where
the CSV reader already produced NaN (an empty cell or one of its not-available
markers), and otherwise its text.

The definitions that model the program, and the lines they model:
`Dates.Parse` and `Roster.ToDatetime` (app.py:19), `Dates.Format` (app.py:259),
`Roster.Load` (app.py:14-25), `Ranking.Compare` and `Ranking.SortView`
(app.py:27-29), `Filters.Where` (app.py:173-186), `Filters.Select`
(app.py:171-186), `FilterOptions.ColumnOptions` (app.py:146-151),
`Metrics.Summarize` (app.py:232-246) and `Projection.Render` (app.py:259-262).
The table below lists what is proved about them.

The NEGRO and PCD selectors always offer `["Todos", "SIM", "NAO"]` and the
STATUS selector `["Todos", "VAGA", "CR"]` (app.py:154-162). These are the
constants `FilterOptions.NegroOptions`, `PcdOptions` and `StatusOptions`. A load
that fails stops the page before any filtering (app.py:136-140). `Roster.Load`
returns `Err` in that case, and `Dashboard.ShowCandidates` takes the table of a
successful load.

Three behaviours of the code worth knowing:

- The code offers the STATUS selector and uses the STATUS column without checking that the roster has it (app.py:162-163, 186, 267). Only that schema is modelled; the variant with ACERTOS instead of STATUS is not.
- The mean is guarded only by "the view is non-empty" (app.py:244). A view whose NOTA cells are all missing still shows the metric (as `nan`).
- Ties on all three keys keep their input order. pandas' multi-column `sort_values` sorts stably, and null scores go last for descending keys too. The model's `SortView` has both properties, and any sort with them gives the same sequence (`StableSortIsSortView`).

## Model

| member | source | states |
|---|---|---|
| Dates.ParseFormat | app.py:19 | Parsing the dd/mm/yyyy form of any calendar date gives that date back |
| Dates.SpellingParses | app.py:19 | A day written with two digits, one digit or a space and one digit, a month with two digits or one, and a four-digit year are read as that calendar date |
| Dates.ParsedSpelling | app.py:19 | Conversely, every text the parser accepts is such a spelling of the date it yields: day/month/year with those field forms and nothing else |
| Dates.PaddedCellIsFormat | app.py:19 | A zero-padded dd/mm/yyyy text that parses is exactly the display form of its date |
| Dates.FormatIsZeroPadded | app.py:259 | The display form is always the zero-padded dd/mm/yyyy shape |
| Roster.LoadOk | app.py:14-25 | A successful load keeps every row in file order, same count, each with its date converted and all other fields unchanged; exactly the blank or not-a-time cells give a missing date |
| Roster.LoadFails | app.py:19 | The load fails exactly when some DATA NASC cell is neither blank nor not-a-time and does not parse, and the error names the first such row |
| Ranking.CompareTieIsSameKey | app.py:29 | Two rows tie in the comparator exactly when NOTA, CE and DATA NASC are all equal |
| Ranking.RanksBeforeTotal | app.py:29 | Any two rows are ordered one way or the other |
| Ranking.RanksBeforeTransitive | app.py:29 | The ranking order is transitive |
| Ranking.SortViewSortedPermutation | app.py:27-29 | The sorted view is ordered by the comparator for every pair of rows and is a permutation of its input |
| Ranking.SortViewStable | app.py:29 | Rows tied on all three keys keep their input order |
| Ranking.RankingOrder | app.py:28-29 | Between adjacent rows NOTA does not rise; on equal NOTA, CE does not rise; on equal NOTA and CE the earlier birth date comes first and a missing one last |
| Ranking.MissingNotaLast | app.py:22-29 | After a row whose NOTA failed coercion, only rows without NOTA follow |
| Ranking.MissingCeLast | app.py:23-29 | Among rows with equal NOTA, after a row without CE only rows without CE follow |
| Ranking.MissingBirthLast | app.py:19-29 | Among rows with equal NOTA and CE, after a row whose birth date is NaT only rows without a date follow |
| Ranking.SortedTieOrderUnique | app.py:29 | Two sorted rearrangements that keep the same tie order are equal |
| Ranking.StableSortIsSortView | app.py:29 | Any sorted, stable rearrangement of a view equals SortView of it |
| Ranking.ThreeCandidateExample | app.py:28-29 | NOTA 90 ranks first; of two rows tied at NOTA 80 and CE 10, the one born 1980 precedes the one born 1990 |
| Filters.ApplyFilters | app.py:171-186 | The five conditional filter steps yield exactly the one-pass conjunctive filter of the table, an order-preserving subsequence of it |
| Filters.SelectIsSubsequence | app.py:171-186 | The filtered view is a subsequence of the table: rows unaltered, order kept |
| Filters.SelectCounts | app.py:173-186 | Each row matching every non-sentinel selection is kept as often as it occurs, every other row is dropped |
| Filters.NoConstraintKeepsAll | app.py:171-186 | With all five selectors at 'Todos'/'Todas' the view is the whole table |
| Filters.SelectIdempotent | app.py:173-186 | Filtering the filtered view with the same selection changes nothing |
| Filters.WhereCommute | app.py:173-186 | Two column filters applied in either order give the same rows in the same order |
| Filters.WhereIdempotent | app.py:174 | A column filter applied twice equals it applied once |
| Filters.NoMatchEmpty | app.py:173-186 | When no row matches the selection the view is empty |
| FilterOptions.ColumnValues | app.py:146 | The column list has one entry per row, the row's value in that column |
| FilterOptions.SortedDistinctSpec | app.py:146-150 | sorted(unique(values)) is strictly ascending and holds exactly the values of the input |
| FilterOptions.StrictlyAscendingUnique | app.py:146-150 | Strictly ascending lists with the same values are equal, so the option list does not depend on how it is sorted |
| FilterOptions.ColumnOptionsSpec | app.py:146-150 | The CARGO/LOCALIDADE list is the sentinel, then strictly ascending values, each occurring in the column, every column value among them |
| FilterOptions.DefaultsShowAll | app.py:146-163 | With every selector on its first option the filtered view is the whole table |
| Metrics.SummarizeSpec | app.py:232-246 | Total equals the view length; distinct CARGO and LOCALIDADE counts are at most it and zero exactly on an empty view; the mean shows exactly on a non-empty view |
| Metrics.DistinctCountIsOptionCount | app.py:238-241 | nunique of CARGO/LOCALIDADE equals the number of non-sentinel options built from the same rows |
| Metrics.SummarizeReordered | app.py:195-241 | Metrics depend only on the rows, not their order, so ranking does not change them |
| Projection.RestoreRender | app.py:259-262 | Reading a displayed row back (date parsed, position dropped) gives the original row, a missing date included |
| Projection.Project | app.py:256-262 | Row i of the display is at POSIÇÃO i+1 with DATA NASC as dd/mm/yyyy, or no text for a missing date, and every other field unchanged |
| Projection.DisplayedDateRespellsCell | app.py:259 | For a loaded row, a blank or not-a-time cell shows no date; any other cell shows the zero-padded spelling of the date it names, which is the cell's own text when the file wrote it zero-padded |
| Dashboard.ShowCandidates | app.py:194-262 | Metrics are those of the filtered rows; the listing is absent exactly when no row matches; otherwise row i is the i-th ranked filtered row rendered at POSIÇÃO i+1, with DATA NASC as the zero-padded dd/mm/yyyy text (none for a missing date) |
| Dashboard.UnknownCargoEmpty | app.py:235-246 | Filtering on a CARGO no row holds gives an empty view, zero counts and no mean |

## Left out

- Streamlit presentation: page config, CSS, titles, selectbox widgets, metric widgets, table column configuration and the green row styling of `color_vagas` (app.py:6-11, 33-133, 265-312). None of it has logic.
- The "Distribuição de Vagas" image toggle and its session-state and rerun flow (app.py:165-228). This is UI state kept by the framework.
- Reading the CSV and the `@st.cache_data` memoisation (app.py:13-16). The table is an input sequence, and loading is a function, so repeated loads are equal by construction.
- Writing the CSV export and its timestamped file name (app.py:315-321). This is serialisation plus a clock read. `Restore` models reading a displayed row back.
- `pd.to_numeric(errors='coerce')` (app.py:22-23): only its outcome is modelled, as `Option<int>` cells handed to the loader. Floating-point scores are fixed-point integers.
- Roster.Load: pandas also rejects dates outside its Timestamp range (1677-09-22 to 2262-04-11 at nanosecond resolution); the model accepts years 1 to 9999. The year pattern, and the second digit of a day from 10 to 29, also match non-ASCII decimal digits (Python's `\d`), which the model does not read; the month pattern is ASCII-only.
- The CSV reader's list of not-available markers: a cell the reader turns into NaN reaches the loader as `None`.
- The value of the NOTA mean and its `.2f` formatting (app.py:245-246): floating-point arithmetic. Only the guard that decides whether it is shown is modelled.
- The ACERTOS variant of the roster, which has no STATUS column. The code uses STATUS unconditionally.
- NaN in the text columns (CARGO, LOCALIDADE, NEGRO, PCD, STATUS): the model's cells are always strings.
- pandas' own sorting algorithm. The model sorts by insertion and proves that every stable sort by the same keys gives the same result.
