# US population dashboard: migration and selection logic in Dafny

The dashboard loads a table of U.S. state populations for 2010–2019. Each row
has the columns `states`, `year` and `population`. The user picks a year in a
sidebar, and the dashboard shows, per state, the population change since the
year before. That change is split into an "inbound migration" part (growth)
and an "outbound migration" part (shrinkage). The sidebar also ranks the
chosen year's rows by population for the "Top States" table.

This project models that logic as pure Dafny functions over a `seq<Record>`,
using exact integers, and proves what it promises:

- `table.dfy`, module `PopulationTable`. The record type and the year filter
  `df[df.year == y]`, which both the sidebar and the migration calculation
  use. It also defines a lookup by (state, year) key, which serves as a
  reference for the positional pairing.
- `migration.dfy`, module `Migration`. This is `calculate_migration_data`.
  It filters the table to the selected year and to the year before, re-indexes
  both selections from 0, and subtracts them position by position. The
  difference is then split with the two `.where` masks.
  - Pandas aligns the subtraction on the index. If the previous-year selection
    has no row at some position, the difference there is NaN, and both masks
    turn NaN into 0. The model writes NaN as `None`.
  - This case is real. The dashboard calls the function for the first year
    (2010) with no guard (lines 67 and 92). The `selected_year > 2010` test
    only guards the `iloc` reads that come after it.
  - If the selected year has no rows at all, the frame is empty. Assigning the
    all-NaN difference to it makes pandas re-index the frame to the
    difference's index. The result is then one row per previous-year row,
    with NaN as its state and 0 for both parts. The model gives such a row
    the state `None`. The dashboard never reaches this case, because the
    selected year always comes from the year list.
- `sidebar.dfy`, module `Sidebar`. It models:
  - the year list `list(df.year.unique())[::-1]`;
  - the population sort `sort_values(by="population", ascending=False)`;
  - the progress-bar bound `max(df_selected_year_sorted.population)`.

Proved properties:

- Inbound and outbound are never negative, and at most one of them is nonzero.
  Inbound minus outbound equals the paired population difference. Inbound is
  positive exactly when the population grew, and outbound exactly when it
  shrank.
- When the selected year has rows, the result has one row per selected-year
  row, in table order, and the states are carried through unchanged.
- A year with no predecessor gives all zeros. A year that is not in the table
  gives one stateless all-zero row per previous-year row. The result is empty
  exactly when the year before is missing too.
- Positional pairing equals a key-based join when (state, year) keys are
  unique and both year selections list the same states in the same order. A
  concrete table shows that the two can differ when this alignment fails.
- The year list holds each distinct year exactly once. It lists them in the
  reverse of the order in which they first appear.
- The sorted selection is a permutation of the chosen year's rows, ordered by
  population with the largest first. Its first row holds the maximum that
  bounds the progress bars.

What the code does, and does not do:

- It pairs the two years' rows by position, not by state. It never checks
  that the states match. `Aligned` states the assumption it makes.
- It raises no error, neither for a year missing from the table nor for
  selections that list different states or have different lengths. Unpaired
  positions get 0 for both parts. Rows whose states differ are subtracted
  anyway.
- Lines 67 and 92 call it for 2010, the first year, and get a frame of
  zeros.

Every member is a pure function of the table and the year, so two calls with
the same inputs give the same result.

## Model

| member | source | states |
|---|---|---|
| PopulationTable.FilterYear | streamlit_app_no_css.py:26 | every selected row has the requested year and there are no more rows than in the table |
| PopulationTable.FilterYearContents | streamlit_app_no_css.py:34-35 | the selection holds exactly the table's rows of that year, each with its multiplicity in the table, and no row of another year |
| PopulationTable.FilterYearAppend | streamlit_app_no_css.py:26 | filtering distributes over concatenation, so the selected rows keep their table order |
| PopulationTable.FilterYearEmpty | streamlit_app_no_css.py:35 | the selection is empty if and only if no row of the table has that year |
| PopulationTable.Lookup | streamlit_app_no_css.py:37 | reference key join: key lookup returns nothing if and only if no row has that (state, year) key |
| PopulationTable.LookupFinds | streamlit_app_no_css.py:37 | with unique keys, looking up any row's key returns that row's population |
| Migration.PopulationDifference | streamlit_app_no_css.py:37 | one difference per selected-year row; it is defined (not NaN) exactly at the positions the previous-year selection also has |
| Migration.Inbound | streamlit_app_no_css.py:38 | the inbound part is never negative, and it is positive exactly when the difference is defined and positive |
| Migration.Outbound | streamlit_app_no_css.py:39 | the outbound part is never negative, and it is positive exactly when the difference is defined and negative |
| Migration.CalculateMigrationData | streamlit_app_no_css.py:33-41 | if the selected year has rows, one row per selected-year row with its state unchanged, and otherwise one stateless row per previous-year row; both parts are non-negative and at most one is nonzero; inbound minus outbound equals the paired population difference; unpaired and stateless rows are 0 and 0 |
| Migration.PairedDifference | streamlit_app_no_css.py:37-39 | for a paired row, inbound minus outbound is the difference, inbound is positive iff the population grew, and outbound is positive iff it shrank |
| Migration.NoPreviousYearIsAllZero | streamlit_app_no_css.py:35-39 | when the table has no row of the previous year, every inbound and outbound value is 0 |
| Migration.UnknownYearGivesStatelessRows | streamlit_app_no_css.py:34-41 | a year with no rows raises no error: the result has one (NaN, 0, 0) row per previous-year row, and is empty exactly when the year before has no rows either |
| Migration.MigrationByKey | streamlit_app_no_css.py:34-37 | reference key join: it has one row per selected-year row |
| Migration.SelectedRowFound | streamlit_app_no_css.py:34-35 | with unique keys, every row of a year selection is found by key with its own population |
| Migration.PositionalMatchesKeyed | streamlit_app_no_css.py:34-37 | with unique keys and aligned selections, positional pairing gives exactly the key-join result |
| Migration.NetChangeByKey | streamlit_app_no_css.py:37 | under the same conditions, each row's inbound minus outbound is the state's population this year minus last year, both found by key |
| Migration.MisalignedPairingDiffers | streamlit_app_no_css.py:34-37 | a table with unique keys but misaligned state orders, on which positional pairing charges a state whose population did not change with the difference between its own population and another state's previous-year population |
| Sidebar.Unique | streamlit_app_no_css.py:24 | the distinct values: the same values as the input, with no repeats |
| Sidebar.UniqueKeepsFirstAppearanceOrder | streamlit_app_no_css.py:24 | the distinct values are listed in the order of their first appearance |
| Sidebar.ReverseUnique | streamlit_app_no_css.py:24 | reading the distinct values back to front keeps the same values with no repeats, listed in decreasing order of first appearance |
| Sidebar.YearList | streamlit_app_no_css.py:24 | the year list contains a year iff some row has it, holds no repeats, and lists years in the reverse of first-appearance order |
| Sidebar.SelectableYearHasRows | streamlit_app_no_css.py:25-26 | every year offered by the picker selects at least one row |
| Sidebar.Insert | streamlit_app_no_css.py:27 | inserting a row into a population-descending list keeps it descending and adds exactly that row |
| Sidebar.SortByPopulation | streamlit_app_no_css.py:27 | the result is ordered by population non-increasing and is a permutation of the input |
| Sidebar.SelectedYearSorted | streamlit_app_no_css.py:26-27 | the sorted selection is descending by population and is a permutation of exactly the table's rows of the chosen year |
| Sidebar.MaxPopulation | streamlit_app_no_css.py:111 | the maximum is at least every row's population and is attained by some row |
| Sidebar.SortedHeadIsMax | streamlit_app_no_css.py:111 | the first row of the sorted selection holds the maximum population, which equals the maximum over the unsorted selection |

## Left out

- Loading the CSV file (line 18): file I/O. The table is a parameter.
- All Streamlit calls are presentation through a framework that is not
  modelled. These are page configuration, sidebar, title, select boxes,
  columns, metrics, the data frame widget and the expander (lines 8-13,
  21-23, 25, 30, 62-110 and 112-120). The selected year is a parameter.
- The first/last metric reads (lines 69-87) are presentation and not
  modelled.
- The color-theme list (lines 29-30): it is only passed to a widget.
- The Altair scatter plot and theme (lines 15, 44-59): chart configuration.
- Numeric types are not modelled. With NaN present, pandas makes the
  difference columns floating point, and otherwise it uses 64-bit integers.
  The model uses exact integers throughout, with NaN written as `None`.
  Census populations are far below any overflow or rounding threshold. The
  `%f` display format (line 109) is not modelled.
- The `index` column that `reset_index` adds is not modelled, because line 41
  projects it away.
- Sidebar.SortByPopulation: does not fix the order of rows with equal
  populations, because pandas' default quicksort is not stable. The model
  uses a stable insertion sort but states only sortedness and permutation.
