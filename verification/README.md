# CORD-19 metadata pipeline, modelled in Dafny

This project models the core of a small analysis tool for the CORD-19 paper metadata table. There are two scripts:

- `analysis.py` is the batch report.
  - `clean_data` parses each row's publish time into a `year` column.
  - It drops the rows missing a title or a year and reports how many it dropped.
  - It adds an `abstract_word_count` column.
  - `basic_analysis` then computes three tables: publications per year ordered by year, the ten journals with the most papers, and the ten most common lower-cased title words longer than five characters.
- `app.py` is the interactive explorer.
  - `load_data` derives the same two columns but drops nothing.
  - The page computes `min_year` and `max_year` over the present years.
  - It keeps the rows whose year lies in the selected closed range.
  - For that subset it shows the paper count, a ten-row preview (title, journal, year), the year table and the top-journal table.

The project's modules:

- `Wrappers`: the `Option` type.
- `Seqs`: mapping, mask filtering, the subsequence order, and dropping missing cells.
- `Text`: Python's `str.split()` with no separator, over the `str.isspace()` character set.
- `Counter`: frequency tables, which are what `value_counts()` and `collections.Counter` compute. It also holds sorting by index or by count, and `most_common(n)`/`head(n)`.
- `Frame`: the row record `Paper` and the derived columns. It also holds the `DataFrame` class, whose columns are assigned in place.
- `Aggregation`: the year, journal and title-word tables.
- `Analysis`: `clean_data` and `basic_analysis`.
- `Explorer`: `load_data`, the year bounds, the range filter and the page.

A table is a `seq<Paper>`. A missing cell is `None`. A frame that the scripts update column by column is a `DataFrame` object whose `rows` field the methods reassign.

## Model

| member | source | states |
|---|---|---|
| Frame.DataFrame.AssignYear | analysis.py:34-36 | every row gets the year parsed from its publish time, missing where the publish time is missing or not a date; no row added or removed |
| Frame.DataFrame.AssignWordCount | analysis.py:45 | every row gets the whitespace-token count of its abstract (a missing abstract counts as empty text) |
| Frame.DataFrame.DropMissingTitleOrYear | analysis.py:40 | a fresh frame holding the rows that have both a title and a year; the original frame is left unchanged |
| Frame.AbstractWordCountSpec | analysis.py:45 | the count is the number of maximal runs of non-whitespace characters; 0 for a missing abstract; 0 exactly when the abstract is missing, empty or all whitespace |
| Frame.DerivedSpec | app.py:12-14 | deriving both columns keeps every row in place; title, abstract, journal and publish time stay unchanged; year comes from the publish time; the word count is always present |
| Text.Split | analysis.py:45 | every token is non-empty and contains no whitespace |
| Text.SplitToken | analysis.py:45 | a non-empty text without whitespace splits into exactly itself |
| Text.SplitAtSpace | analysis.py:45 | every whitespace character is a cut: the tokens of a + [c] + b are the tokens of a followed by those of b; with `Split([]) == []` and `Text.SplitToken` this fixes where every token begins and ends |
| Text.TokenAll | analysis.py:45 | a whitespace-free text is one token from end to end |
| Text.TokenLengthPrefix | analysis.py:45 | a token ends where whitespace or the end of the text begins, whatever follows |
| Text.WordCountIsRunCount | analysis.py:45 | the token count equals an independent count of run starts (non-space characters at the start or after a space) |
| Text.SplitKeepsAllText | analysis.py:45 | concatenating the tokens gives exactly the non-whitespace characters of the text, in order |
| Text.WordCountZero | analysis.py:45 | the count is 0 if and only if the text is all whitespace |
| Analysis.CleanData | analysis.py:32-47 | the caller's frame gains the year column; the result is a fresh frame holding the cleaned table; the dropped count is rows before minus rows after |
| Analysis.CleanSpec | analysis.py:40 | every cleaned row has a title, a year and its word count; the cleaned table is the fully derived table with incomplete rows removed, a subsequence in original order, each kept row appearing exactly as often as in the input |
| Analysis.CleanIsFilterOfDerived | analysis.py:40-45 | deriving the word count after the drop gives the same table as dropping from the fully derived table |
| Analysis.CleanRowsComplete | analysis.py:40-45 | every cleaned row has a title, a year and the word count of its abstract |
| Analysis.DroppedCount | analysis.py:39-42 | the dropped count equals the number of rows lacking a title or a parseable year, so it is never negative |
| Analysis.CleanYearCountsTotal | analysis.py:54 | after cleaning, the year table's counts add up to the number of cleaned rows |
| Analysis.UnparseableDateDropped | analysis.py:34-40 | for any table and any row whose publish time is missing or does not parse as a date, the derived form of that row does not occur in the cleaned table (multiplicity 0), whatever its title |
| Analysis.AbstractWordCountExamples | analysis.py:45 | "a b c" counts 3; a missing abstract counts 0 |
| Analysis.ReportYearsSpec | analysis.py:54-55 | the printed year table is the first min(10, n) entries of the full table, and every year not shown is later than every year shown |
| Aggregation.YearOccurrences | analysis.py:54 | a year's occurrences among the present years equal the rows whose year cell holds it |
| Aggregation.YearCountsAscending | analysis.py:54 | year keys are strictly ascending, and the counts sum to the number of present years |
| Aggregation.YearCountsExact | analysis.py:54 | each listed year's count is at least 1 and equals the number of rows with that year |
| Aggregation.YearCountsComplete | analysis.py:54 | every present year is listed |
| Aggregation.YearCountsSpec | analysis.py:54 | each year appears once, keys strictly ascending, counts at least 1 and exact, every present year listed, counts summing to the present years |
| Aggregation.YearsOfDatedRows | analysis.py:54 | in a table where every row has a year, no row is skipped when counting |
| Aggregation.TopJournalsSpec | analysis.py:58 | size is min(10, distinct journals); distinct keys; counts non-increasing; each count is the exact number of rows with that journal; with at most 10 distinct journals all appear; a journal left out has a count no larger than any listed one; missing journals are not counted |
| Aggregation.TopJournalsExact | analysis.py:58 | each listed journal's count is at least 1 and equals the number of rows with that journal |
| Aggregation.JournalOccurrences | analysis.py:58 | a row's journal is counted among the present journals with its full multiplicity |
| Aggregation.TitleWordsCount | analysis.py:62-63 | a word is counted once per occurrence among the lower-cased title tokens (repeats inside one title included) if it is longer than 5 characters, and not at all otherwise; missing titles contribute nothing |
| Aggregation.TitleWordsAppend | analysis.py:62-63 | the words of two tables are the words of each, concatenated |
| Aggregation.CommonTitleWordsSpec | analysis.py:64 | at most 10 distinct words, counts non-increasing, each count exact and each word longer than 5; with at most 10 distinct long words all are listed; a word left out has a count no larger than any listed one |
| Counter.TallySpec | analysis.py:63 | a tally has one entry per distinct element, each with its exact number of occurrences (at least 1), and totals the input length |
| Counter.TallySize | analysis.py:63 | a tally has as many entries as there are distinct elements |
| Counter.SortBy | analysis.py:54 | sorting keeps the length, the multiset of entries and every entry |
| Counter.SortBySpec | analysis.py:54 | the sorted table is ordered by rank and keeps its total and the distinctness of its keys |
| Counter.SortByKeyStrict | analysis.py:54 | a table with one entry per key, sorted by key, lists its keys strictly ascending |
| Counter.MostCommonSpec | analysis.py:64 | size min(n, entries); counts non-increasing; entries come from the table; all listed when the table is small; nothing left out beats a listed count |
| Counter.TopOfTally | analysis.py:58-64 | top n of a tally: size min(n, distinct); distinct keys; counts non-increasing and exact; all listed when there are few; nothing left out occurs more often than a listed element |
| Seqs.Filter | app.py:29-30 | the result is no longer than the input, and every kept row satisfies the mask |
| Seqs.FilterIsSubsequence | app.py:29-30 | filtering keeps the original order |
| Seqs.FilterCount | app.py:29-30 | filtering keeps every occurrence of a row that satisfies the mask and none of the others |
| Seqs.FilterUnique | app.py:29-30 | any order-keeping selection with those multiplicities is the filter |
| Seqs.FilterIdempotent | app.py:29-30 | applying the same mask twice selects the same rows as once |
| Seqs.FilterPartition | analysis.py:39-42 | the rows kept and the rows dropped add up to the input |
| Seqs.FilterKeepsAll | analysis.py:40 | filtering keeps everything if and only if every row satisfies the mask |
| Seqs.FilterMap | analysis.py:40-45 | deriving a column the mask does not read commutes with the filter |
| Seqs.Somes | app.py:24-25 | the present values of a column in order, as `dropna()` gives and as `value_counts()` counts them; ensures it is no longer than the column; its properties are `Seqs.SomesCount` and `Seqs.SomesEmpty` |
| Seqs.SomesCount | app.py:24-25 | dropping missing cells keeps each present value with its multiplicity |
| Seqs.SomesEmpty | app.py:24-25 | no value survives dropping missing cells if and only if every cell is missing |
| Seqs.SubsequenceMultiset | app.py:29-30 | a subsequence holds no element more often than its source |
| Explorer.LoadData | app.py:10-15 | a fresh frame with the year and word-count columns derived for every row |
| Explorer.MinOf | app.py:24 | the minimum is an element and is no larger than any element |
| Explorer.MaxOf | app.py:25 | the maximum is an element and is no smaller than any element |
| Explorer.YearBounds | app.py:24-25 | no bounds (the conversion fails) if and only if no row has a year; otherwise min_year ≤ max_year, both are years of some row, and every present year lies between them |
| Explorer.YearBoundsLemma | app.py:24-25 | the present years are empty exactly when every year is missing, and hold exactly the years of the year column |
| Explorer.FilterByYearSpec | app.py:29-30 | kept rows have a year in [lo, hi]; each row with such a year is kept with all its occurrences and no other row is; subsequence of the input; idempotent |
| Explorer.FullRangeKeepsDatedRows | app.py:26-30 | the slider's initial selection (min_year, max_year) keeps exactly the rows that have a year |
| Explorer.Preview | app.py:34 | the first min(10, n) rows, in order, cut to title, journal and year |
| Explorer.ExploreSpec | app.py:29-47 | the count is the filtered size; the preview has min(10, count) rows, row i being the title, journal and year of the subset's row i; year keys lie in [lo, hi], strictly ascending, with counts summing to the paper count; at most 10 journals |
| Explorer.FilteredYearsInRange | app.py:38 | every year in the filtered year table lies in [lo, hi] |
| Explorer.PageSpec | app.py:24-47 | the page fails exactly when no row has a year; otherwise every counted year lies between min_year and max_year |
| Text.WordCount | analysis.py:45 | definition (no contract): the number of tokens of `Text.Split`; its properties are `Text.WordCountIsRunCount` and `Text.WordCountZero` |
| Frame.AbstractWordCount | analysis.py:45 | definition (no contract): the word count of the abstract, missing counted as empty text; properties in `Frame.AbstractWordCountSpec` |
| Frame.Derived | app.py:12-14 | definition (no contract): both derived columns, year first; properties in `Frame.DerivedSpec` |
| Frame.DropIncomplete | analysis.py:40 | definition (no contract): the rows with a title and a year, in order; properties in `Analysis.CleanSpec` and `Analysis.DroppedCount` |
| Analysis.Clean | analysis.py:32-47 | definition (no contract): the table `clean_data` returns; properties in `Analysis.CleanSpec`, `Analysis.DroppedCount`, `Analysis.UnparseableDateDropped` |
| Analysis.BasicAnalysis | analysis.py:54-64 | definition (no contract): the first ten rows of the year table, the top journals and the common title words; properties in `Analysis.ReportYearsSpec`, `Aggregation.TopJournalsSpec`, `Aggregation.CommonTitleWordsSpec` |
| Counter.Tally | analysis.py:63 | definition (no contract): occurrence counts in order of first appearance; properties in `Counter.TallySpec` and `Counter.TallySize` |
| Counter.MostCommon | analysis.py:64 | definition (no contract): the first n entries of the table sorted by count, descending and stable; properties in `Counter.MostCommonSpec` |
| Aggregation.YearCounts | analysis.py:54 | definition (no contract): the year tally sorted by year; properties in `Aggregation.YearCountsSpec` |
| Aggregation.TopJournals | analysis.py:58 | definition (no contract): the ten most frequent present journals; properties in `Aggregation.TopJournalsSpec` |
| Aggregation.TitleWords | analysis.py:62-63 | definition (no contract): the tokens longer than 5 of every present, lower-cased title; properties in `Aggregation.TitleWordsCount` |
| Aggregation.CommonTitleWords | analysis.py:64 | definition (no contract): the ten most common title words; properties in `Aggregation.CommonTitleWordsSpec` |
| Explorer.FilterByYear | app.py:29-30 | definition (no contract): the rows with a year in [lo, hi]; properties in `Explorer.FilterByYearSpec` |
| Explorer.Explore | app.py:33-47 | definition (no contract): count, preview, year table and top journals of the filtered subset; properties in `Explorer.ExploreSpec` |
| Explorer.Page | app.py:24-47 | definition (no contract): no page where the bounds fail, else the page for the selection; properties in `Explorer.PageSpec` |
| Frame.YearOf | analysis.py:34-36 | definition (no contract): the year of one publish-time cell, missing when the cell is missing or does not parse; used by `Frame.DerivedSpec` and `Analysis.UnparseableDateDropped` |
| Frame.DeriveYear | analysis.py:34-36 | definition (no contract): every row's year set from its own publish time; the new state of `Frame.DataFrame.AssignYear` |
| Frame.DeriveWordCount | analysis.py:45 | definition (no contract): every row's word count set from its own abstract; the new state of `Frame.DataFrame.AssignWordCount` |
| Frame.HasTitleAndYear | analysis.py:40 | definition (no contract): the row has both a title and a year, the test of the drop; used by `Analysis.CleanSpec` |
| Explorer.InYearRange | app.py:29 | definition (no contract): the year is present and lies in [lo, hi], a missing year failing both comparisons; used by `Explorer.FilterByYearSpec` |

## Left out

- Reading the CSV file is not modelled: `pd.read_csv`, the not-found and other load errors with their `sys.exit(1)`, and the `print` calls. The loaders take the parsed rows as a parameter.
- `explore_data` is not modelled. It only prints the head, the info and the missing-value counts.
- `describe()` is not modelled. Its means, deviations and quartiles are floating-point.
- Plotting is not modelled: the matplotlib and seaborn figures in both scripts, and the histogram binning.
- The Streamlit page is not modelled: title, subheaders, widgets and `@st.cache_data`. The slider's result is a parameter of `Explorer.Page`, which requires `min_year ≤ lo ≤ hi ≤ max_year` whenever the bounds exist.
- `os.path.join` and `os.makedirs` are not modelled. They are filesystem plumbing.
- Date parsing is a parameter `DateParser` (text to an optional year). This covers `pd.to_datetime(..., errors='coerce')` followed by `.dt.year`. Format inference is pandas' own, and unparseable text gives `None`. The model parses each cell on its own; pandas infers one format for the whole column, so in pandas one row's year can depend on the other rows' publish times.
- The `publish_time` column keeps its raw text in the model. The datetime value pandas stores there is not modelled beyond its year.
- `str.lower()` is a parameter `CaseFolder`. The Unicode case table is library data.
- Years are modelled as integers. pandas holds them as floats because of NaN, but every present value is an integral year.
- `Counter.MostCommonSpec`, `Counter.TopOfTally`, `Aggregation.TopJournalsSpec`, `Aggregation.CommonTitleWordsSpec`: these state nothing about the order among equal counts. pandas documents no tie order for `value_counts()`. `Counter.most_common` orders ties by first appearance, and the model's stable sort over a first-appearance tally does the same, but no lemma states it.
