# Table browser core: filtering, sorting and pagination

The program is a small Streamlit page over a PostgreSQL database. The user picks
a table. `filter_dataframe` then narrows the loaded frame column by column, with
one widget per column whose kind (categorical, numeric, datetime, text) decides
the predicate. `paginate_dataframe` then optionally sorts the result, cuts it
into pages with `split_frame`, and shows the page the user picked.

This project models that row pipeline on values and proves what it does.

- **Frames** (`frames.dfy`, `cells.dfy`): a frame is a list of column dtypes and
  a sequence of rows. Each row keeps its pandas index label, because
  `split_frame` slices by label. Cells are numbers, instants (`datetime64`
  values as integer ticks) or strings.
- **Column kinds** (`kinds.dfy`): the first-match classification. A categorical
  dtype, or fewer than 10 distinct values, makes a column categorical;
  otherwise it is numeric, then datetime, else text. The number of distinct
  values is taken on the rows the earlier filters left.
- **Filters** (`filters.dfy`, `pipeline.dfy`): the predicates are membership,
  inclusive range and substring. `FilterPipeline.FilterDataframe` is the loop
  itself, a method that narrows a row sequence one chosen column at a time.
  The date filter is skipped unless two dates are given. Its dates are
  calendar days, which `pd.to_datetime` turns into their midnights, so even the
  untouched date input ends at midnight of the column's last day. The text
  filter is skipped for empty input. The earlier conversion loop, where object columns
  that `to_datetime` accepts become datetime columns, is
  `FilterPipeline.ConvertTimestamps`. The widgets are inputs (`Answer`); `None`
  means the widget still shows its default.
- **Sort** (`sorting.dfy`): `sort_values(..., ignore_index=True)` is stated by its
  contract: a permutation of the row contents, ordered by the key, relabelled
  0..n-1. Descending is the reverse of ascending when the keys are distinct.
  The insertion sort inside is only a witness for that contract.
- **Pagination** (`pagination.dfy`): `split_frame` is modelled as written,
  with label-based `.loc[i : i + num_rows - 1]` slices. Beside it are
  positional chunking, the `total_pages` arithmetic, the page lookup, and the
  corrected page count and paginator.
- **Flow of `main`** (`app.dfy`): filtering then paginating a freshly loaded
  table, whose labels are 0..n-1.

Where a reading of the program's intent and its code differ, the model follows
the code:
- the page count is `ceil(n / b)` plus one more page when `b` does not divide
  `n` (not `ceil(n / b)`);
- the page number is not clamped to the pages that exist;
- the sort makes no stability promise;
- `.loc` slicing is by label, not by position.
- the date range ends at midnight of the end day, not at the end of that day.

## Model

All source paths are in `Phase3_Goup15/stage3/main.py`.

| member | source | states |
|---|---|---|
| Pagination.ChunksCount | Phase3_Goup15/stage3/main.py:59 | positional chunking yields ceil(n / k) chunks, one per start 0, k, 2k, … below n, and no chunk exactly when there are no rows |
| Pagination.ChunksShape | Phase3_Goup15/stage3/main.py:48-59 | every chunk is non-empty and holds at most k rows, and every chunk but the last holds exactly k |
| Pagination.ChunkAt | Phase3_Goup15/stage3/main.py:59 | chunk j starts inside the input and is the slice from j*k up to j*k + k or the end |
| Pagination.ChunksFlatten | Phase3_Goup15/stage3/main.py:59 | concatenating the chunks in order gives back the input, with nothing dropped or repeated |
| Pagination.CountBelowSplits | Phase3_Goup15/stage3/main.py:59 | on increasing labels, the rows labelled below a are exactly a prefix, whose length is the label search's result |
| Pagination.LocSelectsLabels | Phase3_Goup15/stage3/main.py:59 | `.loc[a : b]` (the model's `Loc`) on increasing labels holds exactly the rows labelled a..b, both ends included |
| Pagination.SplitFrame | Phase3_Goup15/stage3/main.py:59 | `split_frame` builds one page per start in `range(0, n, k)`, so ceil(n / k) pages |
| Pagination.SplitFramePage | Phase3_Goup15/stage3/main.py:59 | page j of `split_frame` holds exactly the rows labelled j*k up to j*k + k - 1 |
| Pagination.LocOnRangeIndex | Phase3_Goup15/stage3/main.py:59 | with labels 0..n-1, the label slice from a to e - 1 is the position slice from a to min(e, n) |
| Pagination.LocIsChunk | Phase3_Goup15/stage3/main.py:59 | with labels 0..n-1, the label slice for page j is positional chunk j |
| Pagination.SplitFrameShowsLowLabels | Phase3_Goup15/stage3/main.py:59 | all the pages of `split_frame` together hold exactly the rows labelled 0 up to ceil(n / k) * k - 1; rows labelled higher are on no page |
| Pagination.CountBelowOnRangeIndex | Phase3_Goup15/stage3/main.py:59 | with labels 0..n-1, the label search for a returns min(a, n), the positional bound |
| Pagination.SplitFrameOnRangeIndex | Phase3_Goup15/stage3/main.py:48-60 | with labels 0..n-1, `split_frame` equals positional chunking |
| Pagination.SplitFrameLosesFilteredRow | Phase3_Goup15/stage3/main.py:59 | rows labelled 0 and 30 with 25 rows per page: the row labelled 30 is on no page |
| Pagination.CeilDivBounds | Phase3_Goup15/stage3/main.py:96 | ceil(n / b) is 0 only for n = 0; it is n / b when b divides n, and otherwise (ceil - 1) * b < n < ceil * b |
| Pagination.TotalPages | Phase3_Goup15/stage3/main.py:95-96 | `total_pages` is 0 exactly for no rows, t * b == n when b divides n, and otherwise (t - 2) * b < n < (t - 1) * b: one page more than the rows fill |
| Pagination.TotalPagesVsChunks | Phase3_Goup15/stage3/main.py:95-96 | `total_pages` is the number of chunks when b divides n and one more otherwise, and it is 0 for an empty frame |
| Pagination.SelectPage | Phase3_Goup15/stage3/main.py:106 | `pages[current_page - 1]`; `None` is the IndexError (a definition, no contract) |
| Pagination.PaginateDataframe | Phase3_Goup15/stage3/main.py:62-108 | the paginator returns ceil(n / b) pages, shows page `current` exactly when it exists, and without a sort its pages are `split_frame` of the filtered rows |
| Pagination.EmptyFrameHasNoPageNumber | Phase3_Goup15/stage3/main.py:95-100 | with no rows, `total_pages` is 0 and no page number satisfies 1 <= current <= total_pages; the corrected count is 1 |
| Pagination.ThirtyRowsThreePageNumbers | Phase3_Goup15/stage3/main.py:95-106 | 30 rows, 25 per page: `total_pages` is 3, `split_frame` gives 2 pages, and page 3 shows nothing (IndexError) |
| Pagination.SortStepIncreasing | Phase3_Goup15/stage3/main.py:83-88 | either path of the sort stage leaves increasingly labelled rows increasingly labelled |
| Pagination.SortedPagesCoverRows | Phase3_Goup15/stage3/main.py:83-104 | after a sort, the pages are the positional chunks of the sorted rows: they concatenate to them exactly and have the chunk sizes |
| Pagination.UnsortedPagesShowLowLabels | Phase3_Goup15/stage3/main.py:86-104 | without a sort, the pages hold exactly the rows labelled below ceil(n / b) * b |
| Pagination.LastPageIndexError | Phase3_Goup15/stage3/main.py:95-106 | `pages[current_page - 1]` fails exactly when b does not divide n and the last offered page number is chosen; every other page number shows a page |
| Pagination.PageCountMatchesChunks | Phase3_Goup15/stage3/main.py:95-106 | (corrected) the page count equals the number of chunks, and each allowed page number shows rows (p-1)*b up to p*b or the end |
| Pagination.FixedPagesCoverRows | Phase3_Goup15/stage3/main.py:83-106 | (corrected) on both paths the pages concatenate to the (sorted) rows and have the chunk sizes; unsorted, they are the filtered rows themselves |
| ColumnKinds.Classify | Phase3_Goup15/stage3/main.py:138-171 | the kind is categorical iff the dtype is categorical or there are fewer than 10 distinct values; otherwise numeric, datetime or text iff the dtype is |
| ColumnKinds.NarrowingOnlyMakesCategorical | Phase3_Goup15/stage3/main.py:136-139 | dropping rows can only change a column's kind to categorical, and never away from it |
| Frames.Unique | Phase3_Goup15/stage3/main.py:142-143 | `unique()` as the set of the column's values (a definition, no contract) |
| Frames.NUnique | Phase3_Goup15/stage3/main.py:139 | `nunique()` is at most the number of rows, and 0 exactly when there are no rows |
| Frames.NUniqueShrinks | Phase3_Goup15/stage3/main.py:139 | a selection of rows has a subset of the distinct values and no more of them |
| Frames.SubKeepsIncreasing | Phase3_Goup15/stage3/main.py:145 | an ordered selection of increasingly labelled rows is increasingly labelled |
| Frames.MinScalar | Phase3_Goup15/stage3/main.py:147 | the minimum is at most every value of the column and is attained by some row |
| Frames.MaxScalar | Phase3_Goup15/stage3/main.py:148 | the maximum is at least every value of the column and is attained by some row |
| Cells.ContainsIffOccurs | Phase3_Goup15/stage3/main.py:175 | the containment test holds iff the pattern occurs at some offset of the string |
| Cells.CellLeTotal | Phase3_Goup15/stage3/main.py:83-85 | any two sort-key cells are comparable |
| Cells.CellLeTrans | Phase3_Goup15/stage3/main.py:83-85 | the key order is transitive |
| Cells.CellLeAntisym | Phase3_Goup15/stage3/main.py:83-85 | the key order is antisymmetric |
| Filters.Holds | Phase3_Goup15/stage3/main.py:139-175 | the three tests the masks apply to a row's cell: `isin` of the selected values, inclusive `between` and substring containment; a row without the column passes none (a definition, no contract) |
| Filters.Where | Phase3_Goup15/stage3/main.py:145 | a boolean mask keeps an ordered subsequence holding exactly the rows that satisfy every predicate |
| Filters.WhereMultiplicity | Phase3_Goup15/stage3/main.py:145 | the mask keeps every copy of a row that passes and no copy of one that fails, so duplicates are neither merged nor lost |
| Filters.WhereNonePass | Phase3_Goup15/stage3/main.py:145 | a mask no row satisfies leaves no rows |
| Filters.WhereThenWhere | Phase3_Goup15/stage3/main.py:136-175 | masking twice is masking once with both predicates |
| Filters.ApplyAllIsConjunction | Phase3_Goup15/stage3/main.py:136-176 | narrowing one predicate at a time keeps exactly the rows satisfying all of them, in order |
| Filters.WhereSamePreds | Phase3_Goup15/stage3/main.py:136-176 | the conjunctive mask depends only on which predicates are in the list |
| Filters.OrderOfFiltersIrrelevant | Phase3_Goup15/stage3/main.py:136-176 | applying the same predicates in another order gives the same rows in the same order |
| Filters.DefaultSelectionKeepsAll | Phase3_Goup15/stage3/main.py:140-145 | selecting all the distinct values keeps every row |
| Filters.DefaultRangeKeepsAll | Phase3_Goup15/stage3/main.py:147-157 | the default range from the column's minimum to its maximum keeps every row |
| Filters.InvertedRangeKeepsNothing | Phase3_Goup15/stage3/main.py:157 | an inclusive range with lower bound above upper bound keeps no row |
| FilterPipeline.RangeColumn | Phase3_Goup15/stage3/main.py:146-165 | a column reaching the numeric or datetime branch has rows, only numbers or instants, and a minimum strictly below its maximum |
| FilterPipeline.Resolve | Phase3_Goup15/stage3/main.py:139-175 | the predicate built for a column tests that column |
| FilterPipeline.Step | Phase3_Goup15/stage3/main.py:139-175 | one pass keeps a selection of its input rows and leaves them well-formed |
| FilterPipeline.CategoricalStep | Phase3_Goup15/stage3/main.py:139-145 | a categorical column keeps exactly the rows whose value was selected; by default, every row |
| FilterPipeline.NumericStep | Phase3_Goup15/stage3/main.py:146-157 | a numeric column keeps exactly the rows with lo <= v <= hi; by default, every row |
| FilterPipeline.TemporalStep | Phase3_Goup15/stage3/main.py:158-169 | a datetime column filters only when two dates are given, then keeps exactly the rows from midnight of the first day to midnight of the second, inclusive |
| FilterPipeline.UntouchedDateInput | Phase3_Goup15/stage3/main.py:159-169 | the untouched date input shows the days of the minimum and the maximum and keeps exactly the rows up to midnight of the maximum's day |
| FilterPipeline.UntouchedDateInputKeepsAll | Phase3_Goup15/stage3/main.py:159-169 | the untouched date input keeps every row exactly when the column's maximum is a midnight |
| FilterPipeline.UntouchedDateInputDropsLatest | Phase3_Goup15/stage3/main.py:159-169 | when the maximum is not a midnight, the untouched date input drops a row holding the maximum |
| FilterPipeline.DayRangeSelectsDays | Phase3_Goup15/stage3/main.py:166-169 | (corrected) the range from the first day's midnight to the last tick of the second day keeps exactly the rows whose calendar day lies between the two |
| FilterPipeline.FixedDefaultKeepsAll | Phase3_Goup15/stage3/main.py:159-169 | (corrected) the whole-day range between the days of the minimum and the maximum keeps every row |
| FilterPipeline.FixedTemporalStep | Phase3_Goup15/stage3/main.py:158-169 | (corrected) the date filter keeps exactly the rows whose day lies between the two chosen days, changes nothing without two days, and keeps every row when untouched |
| Cells.DayBounds | Phase3_Goup15/stage3/main.py:161-167 | an instant lies in [midnight of its day, next midnight), and equals its day's midnight exactly when it is a multiple of a day |
| Cells.AfterMidnight | Phase3_Goup15/stage3/main.py:166-169 | an instant is at or after midnight of day d exactly when its day is d or later |
| Cells.BeforeDayEnd | Phase3_Goup15/stage3/main.py:166-169 | an instant is at or before the last tick of day d exactly when its day is d or earlier |
| FilterPipeline.TextualStep | Phase3_Goup15/stage3/main.py:170-175 | empty text changes nothing; otherwise exactly the rows whose string contains the text are kept |
| FilterPipeline.Run | Phase3_Goup15/stage3/main.py:136-176 | the loop keeps a selection of its input rows and leaves them well-formed |
| FilterPipeline.RunAppend | Phase3_Goup15/stage3/main.py:136-176 | running the loop over one more column is one more pass over the rows left so far |
| FilterPipeline.RunIsConjunction | Phase3_Goup15/stage3/main.py:136-176 | the loop's result is the mask of all the predicates it resolved, and the one-at-a-time narrowing by them |
| FilterPipeline.RunKeepsOrder | Phase3_Goup15/stage3/main.py:136-176 | the loop returns an ordered subsequence of its input; increasing labels stay increasing |
| FilterPipeline.UntouchedWidgetsKeepAll | Phase3_Goup15/stage3/main.py:135-176 | with every widget at its default, and so with no filter column, the rows come back unchanged, provided every instant is a midnight (otherwise see UntouchedDateInputDropsLatest) |
| FilterPipeline.ConvertedShape | Phase3_Goup15/stage3/main.py:122-130 | conversion keeps rows, labels and non-converting columns, and turns into datetime exactly the object columns whose every value parses |
| FilterPipeline.ConvertTimestamps | Phase3_Goup15/stage3/main.py:120-130 | the column loop computes the converted frame |
| FilterPipeline.FilterDataframe | Phase3_Goup15/stage3/main.py:110-176 | the returned frame has the converted dtypes and the rows of the whole narrowing loop, is well-formed, and leaves its input as it was |
| SortStage.SortValues | Phase3_Goup15/stage3/main.py:83-85 | the sorted rows are a permutation of the input's cell tuples, ordered by the key in the chosen direction, and labelled 0..n-1 |
| SortStage.SortStep | Phase3_Goup15/stage3/main.py:75-88 | the sort stage keeps the row count and the multiset of cell tuples; with a sort it relabels 0..n-1 and orders by the key in the chosen direction; without one it returns the rows unchanged |
| SortStage.SortedUnique | Phase3_Goup15/stage3/main.py:83-85 | with distinct keys only one arrangement of the rows is sorted |
| SortStage.DistinctKeysPerm | Phase3_Goup15/stage3/main.py:83-85 | distinct keys do not depend on the row order |
| SortStage.DescendingReversesAscending | Phase3_Goup15/stage3/main.py:79-85 | with distinct keys, the descending sort is the ascending sort reversed |
| App.FreshTableFiltersIncreasing | Phase3_Goup15/stage3/main.py:184-185 | filtering a freshly loaded table keeps its labels increasing and every column present |
| App.UntouchedUnsortedShowsAll | Phase3_Goup15/stage3/main.py:184-186 | with the filter widgets at their defaults, every instant a midnight and no sort, the pages concatenate to the whole loaded table |
| App.Browse | Phase3_Goup15/stage3/main.py:178-186 | loading aside, the page view `main` produces is the paginator applied to the filtered rows |

## Left out

- `connect`, `load_data_from_table` and the table list query in `main` are database I/O. A loaded table is a `Frame` with labels 0..n-1.
- The Streamlit widgets and layout (`st.columns`, `st.radio`, `st.selectbox`, `st.multiselect`, `st.slider`, `st.date_input`, `st.text_input`, `st.number_input`, `st.markdown`, `st.dataframe`) are replaced by parameters. `st.number_input`'s bounds become a precondition on the page number (see Pagination.PaginateDataframe below). Showing the page is the `shown` field of the page view.
- The page size is any positive number, not only 25, 50 or 100.
- `pd.to_datetime` is a `parse` function parameter. The try/except is modelled as: a column converts exactly when every value parses. The conversion is approximated value by value: recent pandas infers one format per column from its first value, so a column whose values each parse but in mixed formats raises and stays an object column, which a per-value `parse` shared by all columns cannot express.
- `tz_localize(None)` is the identity, because instants are naive integer ticks.
- Timezone-aware values are not modelled.
- Numbers are integers: numeric cells and the slider's bounds are `int`, and the model uses only their order (`min`, `max`, `between`). Fractional values are not modelled.
- `float(...)` of the column's minimum and maximum gives the slider its bounds and its default value. The model takes them as exact. Above 2^53 a `float` can round the maximum down (or the minimum up), and the untouched slider then drops the rows holding those extremes; that rounding is not modelled. The slider `step` only sets the widget's granularity.
- `st.date_input` is modelled as returning calendar days: the day of an instant is the floor of its ticks over the ticks per day (`Cells.Day`, nanoseconds), and `pd.to_datetime` of a day is its midnight. Instants are naive nanosecond ticks.
- `str.contains` uses regular expressions by default. The model uses plain substring containment, because the regex engine is outside the model.
- `astype(str)` for non-string cells of an object column is not modelled: such a column holds strings.
- Missing values (NaN, NaT, None) and their effects are not modelled, for example on `nunique()` and `unique()`, which drop or keep them, on `between` and on sorting.
- Mixed-kind sort keys are not modelled: pandas may raise on them, while the model orders them by kind.
- The sort order of a categorical dtype is not modelled: pandas orders by category position, while the model uses the value order.
- SortStage.SortValues: states the sorted-permutation contract only. pandas' default sort is not stable. The model's tie order (from insertion sort) is not claimed to be pandas' order.
- Pagination.PaginateDataframe: requires 1 <= current <= `total_pages`, the number input's bounds. When the filters leave no rows, `total_pages` is 0, and `st.number_input(min_value=1, max_value=0)` raises before any page is shown. That failure is not modelled; Pagination.EmptyFrameHasNoPageNumber proves that no page number meets the bound (see Findings). App.Browse has the same requirement.
- Pagination.SplitFrame: requires increasing labels, which every frame reaching it has (a fresh load, a filtered selection of one, or a sorted frame). On other labels, `.loc` slicing may raise or select differently, and that is not modelled.

## Findings

| source | as written | input that shows it | evidently intended | confidence | as-written member | corrected member |
|---|---|---|---|---|---|---|
| Phase3_Goup15/stage3/main.py:59 | `split_frame` slices by label, `.loc[i : i + num_rows - 1]` for positions i = 0, k, 2k, …. When no sort was requested, the filtered frame keeps its original labels, which have gaps. | A table whose rows are labelled 0..30, filtered down to the rows labelled 0 and 30, 25 rows per page: the only page is `.loc[0:24]`, and the row labelled 30 is shown nowhere. Rows labelled 100..129 give two empty pages. | Chunk by position (`iloc`, or relabel first), so that the pages concatenate to the filtered rows | high (not executed) | Pagination.SplitFrameLosesFilteredRow | Pagination.FixedPagesCoverRows |
| Phase3_Goup15/stage3/main.py:95-96 | `total_pages = ceil(n / b) + (1 if n % b > 0 else 0)` counts one page too many when b does not divide n, and gives 0 pages for an empty frame | 30 rows, 25 per page (`Pagination.ThirtyRowsThreePageNumbers`): `total_pages` is 3 but there are 2 pages, so choosing page 3 evaluates `pages[2]` and raises IndexError. A filter that leaves no rows: `total_pages` is 0, so `st.number_input(min_value=1, max_value=0)` raises and no page number exists (`Pagination.EmptyFrameHasNoPageNumber`) | `max(1, ceil(n / b))` pages, every one of them shown | high (not executed) | Pagination.LastPageIndexError | Pagination.PageCountMatchesChunks |
| Phase3_Goup15/stage3/main.py:159-169 | the date input's default is the column's minimum and maximum, shown as calendar dates; `pd.to_datetime` turns them into midnights, so `between(start, end)` ends at midnight of the last day | a datetime column with at least 10 distinct values whose latest value is 12:00 on its day: the untouched widget gives `end_date` at 00:00 of that day and drops that row | the whole last day kept: compare calendar days, or end at the day's last instant | high (not executed) | FilterPipeline.UntouchedDateInputDropsLatest | FilterPipeline.FixedTemporalStep |
