/**
 * The interactive explorer (app.py): the cached loader that derives the year and
 * word-count columns without dropping anything, the year bounds offered by the
 * slider, the year-range mask, and the count, preview and frequency tables shown
 * for the selected range.
 */
module Explorer {
  import opened Wrappers
  import Seqs
  import opened Counter
  import opened Frame
  import opened Aggregation

  /**
   * `load_data(filepath)`: a fresh frame from the CSV rows, with `publish_time`
   * parsed, `year` and `abstract_word_count` assigned in place. No row is dropped.
   */
  method LoadData(csv: seq<Paper>, parse: DateParser) returns (df: DataFrame)
    ensures fresh(df)
    ensures df.rows == Derived(csv, parse)
  {
    df := new DataFrame(csv);
    df.AssignYear(parse);
    df.AssignWordCount();
  }

  /** `Series.min()` of a non-empty column without missing cells. */
  function MinOf(xs: seq<int>): (m: int)
    requires xs != []
    ensures m in xs
    ensures forall i :: 0 <= i < |xs| ==> m <= xs[i]
    decreases |xs|
  {
    if |xs| == 1 then xs[0]
    else
      var rest := MinOf(xs[1..]);
      if xs[0] <= rest then xs[0] else rest
  }

  /** `Series.max()` of a non-empty column without missing cells. */
  function MaxOf(xs: seq<int>): (m: int)
    requires xs != []
    ensures m in xs
    ensures forall i :: 0 <= i < |xs| ==> xs[i] <= m
    decreases |xs|
  {
    if |xs| == 1 then xs[0]
    else
      var rest := MaxOf(xs[1..]);
      if xs[0] >= rest then xs[0] else rest
  }

  /**
   * `min_year` and `max_year`: the least and greatest present year. With no year at all, `min()` gives NaN and `int(NaN)` raises: that outcome is `None`.
   * Otherwise both bounds are years of some row, `min_year <= max_year`, and every
   * row's year lies between them.
   */
  function YearBounds(rows: seq<Paper>): (r: Option<(int, int)>)
    ensures r.None? <==> forall i :: 0 <= i < |rows| ==> rows[i].year.None?
    ensures r.Some? ==>
              && r.value.0 <= r.value.1
              && Some(r.value.0) in YearColumn(rows)
              && Some(r.value.1) in YearColumn(rows)
              && forall i :: 0 <= i < |rows| && rows[i].year.Some? ==> r.value.0 <= rows[i].year.value <= r.value.1
  {
    var ys := Years(rows);
    YearBoundsLemma(rows);
    if ys == [] then None else Some((MinOf(ys), MaxOf(ys)))
  }

  lemma YearBoundsLemma(rows: seq<Paper>)
    ensures Years(rows) == [] <==> forall i :: 0 <= i < |rows| ==> rows[i].year.None?
    ensures forall y :: y in Years(rows) <==> Some(y) in YearColumn(rows)
    ensures forall i :: 0 <= i < |rows| && rows[i].year.Some? ==> rows[i].year.value in Years(rows)
  {
    var col := YearColumn(rows);
    assert forall i :: 0 <= i < |rows| ==> col[i] == YearCell(rows[i]);
    Seqs.SomesEmpty(col);
    forall y ensures y in Years(rows) <==> Some(y) in col {
      Seqs.SomesCount(col, y);
    }
    forall i | 0 <= i < |rows| && rows[i].year.Some? ensures rows[i].year.value in Years(rows) {
      assert col[i] == Some(rows[i].year.value);
    }
  }

  /** The year-range mask: a missing year compares false both ways. */
  function InYearRange(lo: int, hi: int): Paper -> bool {
    (p: Paper) => p.year.Some? && lo <= p.year.value <= hi
  }

  /** The rows the mask selects. */
  function FilterByYear(rows: seq<Paper>, lo: int, hi: int): seq<Paper> {
    Seqs.Filter(rows, InYearRange(lo, hi))
  }

  /**
   * The filtered subset is exactly the rows with a year in `[lo, hi]`, each with
   * all its occurrences, in the original order (a subsequence); rows with a
   * missing year never pass; and filtering it again with the same range changes
   * nothing.
   */
  lemma FilterByYearSpec(rows: seq<Paper>, lo: int, hi: int)
    ensures forall i :: 0 <= i < |FilterByYear(rows, lo, hi)| ==>
              FilterByYear(rows, lo, hi)[i].year.Some? && lo <= FilterByYear(rows, lo, hi)[i].year.value <= hi
    ensures forall x :: multiset(FilterByYear(rows, lo, hi))[x] ==
              if x.year.Some? && lo <= x.year.value <= hi then multiset(rows)[x] else 0
    ensures Seqs.IsSubsequence(FilterByYear(rows, lo, hi), rows)
    ensures FilterByYear(FilterByYear(rows, lo, hi), lo, hi) == FilterByYear(rows, lo, hi)
  {
    Seqs.FilterIsSubsequence(rows, InYearRange(lo, hi));
    Seqs.FilterIdempotent(rows, InYearRange(lo, hi));
    forall x ensures multiset(FilterByYear(rows, lo, hi))[x] ==
                     if x.year.Some? && lo <= x.year.value <= hi then multiset(rows)[x] else 0
    {
      Seqs.FilterCount(rows, InYearRange(lo, hi), x);
    }
  }

  predicate HasYear(p: Paper) {
    p.year.Some?
  }

  /**
   * The slider starts at `(min_year, max_year)`: that selection keeps every row
   * that has a year.
   */
  lemma FullRangeKeepsDatedRows(rows: seq<Paper>, lo: int, hi: int)
    requires YearBounds(rows) == Some((lo, hi))
    ensures FilterByYear(rows, lo, hi) == Seqs.Filter(rows, HasYear)
  {
    Seqs.FilterCongruent(rows, InYearRange(lo, hi), HasYear);
  }

  /** The three columns the preview shows. */
  datatype PreviewRow = PreviewRow(title: Option<string>, journal: Option<string>, year: Option<int>)

  function PreviewColumns(p: Paper): PreviewRow {
    PreviewRow(p.title, p.journal, p.year)
  }

  /**
   * The preview: the first `min(10, n)` rows of the table, in order, cut down to title, journal and year.
   */
  function Preview(rows: seq<Paper>): (r: seq<PreviewRow>)
    ensures |r| == Min(10, |rows|)
    ensures forall i :: 0 <= i < |r| ==> r[i] == PreviewRow(rows[i].title, rows[i].journal, rows[i].year)
  {
    Seqs.Map(rows, PreviewColumns)[..Min(10, |rows|)]
  }

  /** What the page shows for one slider selection. */
  datatype View = View(
    paperCount: nat,
    preview: seq<PreviewRow>,
    yearCounts: seq<Entry<int>>,
    topJournals: seq<Entry<string>>)

  /** The count, the preview and the two frequency tables of the filtered subset. */
  function Explore(rows: seq<Paper>, lo: int, hi: int): View {
    var filtered := FilterByYear(rows, lo, hi);
    View(|filtered|, Preview(filtered), YearCounts(filtered), TopJournals(filtered))
  }

  /**
   * The page for a selection: the paper count is the size of the filtered subset;
   * the preview is its first `min(10, count)` rows, each cut to title, journal
   * and year; the year table lists only
   * years in `[lo, hi]`, strictly ascending, with counts adding up to the paper
   * count; the journal table has at most 10 entries.
   */
  lemma ExploreSpec(rows: seq<Paper>, lo: int, hi: int)
    ensures Explore(rows, lo, hi).paperCount == |FilterByYear(rows, lo, hi)|
    ensures |Explore(rows, lo, hi).preview| == Min(10, Explore(rows, lo, hi).paperCount)
    ensures forall i :: 0 <= i < |Explore(rows, lo, hi).preview| ==>
              Explore(rows, lo, hi).preview[i] == PreviewColumns(FilterByYear(rows, lo, hi)[i])
    ensures forall i :: 0 <= i < |Explore(rows, lo, hi).yearCounts| ==>
              lo <= Explore(rows, lo, hi).yearCounts[i].key <= hi
    ensures forall i, j :: 0 <= i < j < |Explore(rows, lo, hi).yearCounts| ==>
              Explore(rows, lo, hi).yearCounts[i].key < Explore(rows, lo, hi).yearCounts[j].key
    ensures Total(Explore(rows, lo, hi).yearCounts) == Explore(rows, lo, hi).paperCount
    ensures |Explore(rows, lo, hi).topJournals| <= 10
  {
    var filtered := FilterByYear(rows, lo, hi);
    YearCountsAscending(filtered);
    FilteredYearsInRange(rows, lo, hi);
    YearsOfDatedRows(filtered);
  }

  /** Every year counted for the filtered subset lies in the selected range. */
  lemma FilteredYearsInRange(rows: seq<Paper>, lo: int, hi: int)
    ensures forall i :: 0 <= i < |YearCounts(FilterByYear(rows, lo, hi))| ==>
              lo <= YearCounts(FilterByYear(rows, lo, hi))[i].key <= hi
  {
    var filtered := FilterByYear(rows, lo, hi);
    var counts := YearCounts(filtered);
    YearCountsExact(filtered);
    forall i | 0 <= i < |counts| ensures lo <= counts[i].key <= hi {
      var y := counts[i].key;
      assert Some(y) in multiset(YearColumn(filtered));
      var k :| 0 <= k < |filtered| && YearColumn(filtered)[k] == Some(y);
      assert YearColumn(filtered)[k] == YearCell(filtered[k]);
    }
  }

  /**
   * `main()` after loading: `None` where `int(NaN)` raises because no row has a
   * year; otherwise the page for the slider's selection.
   */
  function Page(loaded: seq<Paper>, selection: (int, int)): Option<View>
    requires YearBounds(loaded).Some? ==>
               YearBounds(loaded).value.0 <= selection.0 <= selection.1 <= YearBounds(loaded).value.1
  {
    match YearBounds(loaded)
    case None => None
    case Some(_) => Some(Explore(loaded, selection.0, selection.1))
  }

  /**
   * The page fails exactly when no row has a year; otherwise every year it counts
   * lies between `min_year` and `max_year`.
   */
  lemma PageSpec(loaded: seq<Paper>, selection: (int, int))
    requires YearBounds(loaded).Some? ==>
               YearBounds(loaded).value.0 <= selection.0 <= selection.1 <= YearBounds(loaded).value.1
    ensures Page(loaded, selection).None? <==> forall i :: 0 <= i < |loaded| ==> loaded[i].year.None?
    ensures Page(loaded, selection).Some? ==>
              forall i :: 0 <= i < |Page(loaded, selection).value.yearCounts| ==>
                YearBounds(loaded).value.0 <= Page(loaded, selection).value.yearCounts[i].key <= YearBounds(loaded).value.1
  {
    if YearBounds(loaded).Some? {
      ExploreSpec(loaded, selection.0, selection.1);
    }
  }
}
