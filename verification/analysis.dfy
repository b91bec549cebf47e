/**
 * The batch report (analysis.py): `clean_data`, which derives the year, drops the
 * rows missing a title or a year and derives the abstract word count, and the
 * frequency tables `basic_analysis` prints.
 */
module Analysis {
  import opened Wrappers
  import Seqs
  import Text
  import opened Counter
  import opened Frame
  import opened Aggregation

  /** The table `clean_data` returns, as a function of the table it is given. */
  function Clean(rows: seq<Paper>, parse: DateParser): seq<Paper> {
    DeriveWordCount(DropIncomplete(DeriveYear(rows, parse)))
  }

  /**
   * `clean_data(df)`: the caller's frame gains the parsed `year` column (the two
   * column assignments happen on it, before `dropna` rebinds `df` to a copy); the
   * returned frame is a new one holding the cleaned table; `dropped` is the number
   * the script reports, rows before minus rows after.
   */
  method CleanData(df: DataFrame, parse: DateParser) returns (cleaned: DataFrame, dropped: int)
    modifies df
    ensures df.rows == DeriveYear(old(df.rows), parse)
    ensures fresh(cleaned)
    ensures cleaned.rows == Clean(old(df.rows), parse)
    ensures dropped == |old(df.rows)| - |cleaned.rows|
  {
    df.AssignYear(parse);
    var before := df.Length();
    cleaned := df.DropMissingTitleOrYear();
    var after := cleaned.Length();
    dropped := before - after;
    cleaned.AssignWordCount();
  }

  /**
   * The cleaned table: every row has a title, a year and its abstract word count;
   * it is exactly the fully derived table (what app.py loads) with the rows missing
   * a title or a year removed, in the original order, each kept row unaltered.
   */
  lemma CleanSpec(rows: seq<Paper>, parse: DateParser)
    ensures forall i :: 0 <= i < |Clean(rows, parse)| ==>
              && Clean(rows, parse)[i].title.Some?
              && Clean(rows, parse)[i].year.Some?
              && Clean(rows, parse)[i].abstractWordCount == Some(AbstractWordCount(Clean(rows, parse)[i].abstractText))
    ensures Clean(rows, parse) == DropIncomplete(Derived(rows, parse))
    ensures Seqs.IsSubsequence(Clean(rows, parse), Derived(rows, parse))
    ensures forall x :: multiset(Clean(rows, parse))[x] ==
              if HasTitleAndYear(x) then multiset(Derived(rows, parse))[x] else 0
  {
    CleanRowsComplete(rows, parse);
    CleanIsFilterOfDerived(rows, parse);
    Seqs.FilterIsSubsequence(Derived(rows, parse), HasTitleAndYear);
    forall x ensures multiset(Clean(rows, parse))[x] ==
                     if HasTitleAndYear(x) then multiset(Derived(rows, parse))[x] else 0
    {
      Seqs.FilterCount(Derived(rows, parse), HasTitleAndYear, x);
    }
  }

  /** Dropping before or after deriving the word count gives the same table. */
  lemma CleanIsFilterOfDerived(rows: seq<Paper>, parse: DateParser)
    ensures Clean(rows, parse) == DropIncomplete(Derived(rows, parse))
  {
    Seqs.FilterMap(DeriveYear(rows, parse), SetWordCount, HasTitleAndYear, HasTitleAndYear);
  }

  /** Every cleaned row has a title, a year and the word count of its abstract. */
  lemma CleanRowsComplete(rows: seq<Paper>, parse: DateParser)
    ensures forall i :: 0 <= i < |Clean(rows, parse)| ==>
              && Clean(rows, parse)[i].title.Some?
              && Clean(rows, parse)[i].year.Some?
              && Clean(rows, parse)[i].abstractWordCount == Some(AbstractWordCount(Clean(rows, parse)[i].abstractText))
  {
    var kept := DropIncomplete(DeriveYear(rows, parse));
    var c := Clean(rows, parse);
    forall i | 0 <= i < |c|
      ensures c[i].title.Some? && c[i].year.Some? && c[i].abstractWordCount == Some(AbstractWordCount(c[i].abstractText))
    {
      assert c[i] == SetWordCount(kept[i]);
      assert HasTitleAndYear(kept[i]);
    }
  }

  /**
   * The reported drop count is never negative: it is the number of input rows that
   * lack a title or a parseable year.
   */
  lemma DroppedCount(rows: seq<Paper>, parse: DateParser)
    ensures |rows| - |Clean(rows, parse)| == |Seqs.Filter(DeriveYear(rows, parse), Seqs.Not(HasTitleAndYear))|
    ensures |Clean(rows, parse)| <= |rows|
  {
    Seqs.FilterPartition(DeriveYear(rows, parse), HasTitleAndYear);
  }

  /** After cleaning, the year table's counts add up to the number of cleaned rows. */
  lemma CleanYearCountsTotal(rows: seq<Paper>, parse: DateParser)
    ensures Total(YearCounts(Clean(rows, parse))) == |Clean(rows, parse)|
  {
    CleanSpec(rows, parse);
    YearCountsSpec(Clean(rows, parse));
    YearsOfDatedRows(Clean(rows, parse));
  }

  /**
   * A row whose publish time is missing or does not parse as a date gets no year,
   * so the cleaned table holds no trace of it: its derived form occurs there zero
   * times, whatever its title.
   */
  lemma UnparseableDateDropped(rows: seq<Paper>, parse: DateParser, i: nat)
    requires i < |rows| && YearOf(rows[i].publishTime, parse).None?
    ensures SetWordCount(SetYear(parse)(rows[i])) !in Clean(rows, parse)
    ensures multiset(Clean(rows, parse))[SetWordCount(SetYear(parse)(rows[i]))] == 0
  {
    var d := SetWordCount(SetYear(parse)(rows[i]));
    assert d.year.None?;
    CleanSpec(rows, parse);
  }

  /** An abstract of three space-separated words counts 3; a missing abstract counts 0. */
  lemma AbstractWordCountExamples()
    ensures AbstractWordCount(Some("a b c")) == 3
    ensures AbstractWordCount(None) == 0
  {
  }

  /** What `basic_analysis` prints, apart from `describe()`. */
  datatype Report = Report(
    yearsShown: seq<Entry<int>>,
    topJournals: seq<Entry<string>>,
    commonTitleWords: seq<Entry<string>>)

  /** The first ten rows of the year table, the top journals and the most common title words. */
  function BasicAnalysis(rows: seq<Paper>, lower: CaseFolder): Report {
    var years := YearCounts(rows);
    Report(years[..Min(10, |years|)], TopJournals(rows), CommonTitleWords(rows, lower))
  }

  /**
   * The printed year table holds the earliest (at most ten) years, ascending, with
   * their counts: every year of the table that is not shown is later than every
   * year that is.
   */
  lemma ReportYearsSpec(rows: seq<Paper>, lower: CaseFolder)
    ensures |BasicAnalysis(rows, lower).yearsShown| == Min(10, |YearCounts(rows)|)
    ensures forall i :: 0 <= i < |BasicAnalysis(rows, lower).yearsShown| ==>
              BasicAnalysis(rows, lower).yearsShown[i] == YearCounts(rows)[i]
    ensures forall i, j :: 0 <= i < |BasicAnalysis(rows, lower).yearsShown| <= j < |YearCounts(rows)| ==>
              BasicAnalysis(rows, lower).yearsShown[i].key < YearCounts(rows)[j].key
  {
    YearCountsSpec(rows);
  }
}
