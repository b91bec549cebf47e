/**
 * The read-only frequency views both scripts derive from a table: publications
 * per year (`value_counts().sort_index()`), the ten journals with most papers
 * (`value_counts().head(10)`), and the ten most common long title words
 * (`Counter(...).most_common(10)`).
 */
module Aggregation {
  import opened Wrappers
  import Seqs
  import Text
  import opened Counter
  import opened Frame

  function YearCell(p: Paper): Option<int> {
    p.year
  }

  function JournalCell(p: Paper): Option<string> {
    p.journal
  }

  /** The `year` column. */
  function YearColumn(rows: seq<Paper>): seq<Option<int>> {
    Seqs.Map(rows, YearCell)
  }

  /** The `journal` column. */
  function JournalColumn(rows: seq<Paper>): seq<Option<string>> {
    Seqs.Map(rows, JournalCell)
  }

  /** The present years, in row order (`value_counts()` skips missing cells). */
  function Years(rows: seq<Paper>): seq<int> {
    Seqs.Somes(YearColumn(rows))
  }

  /** The present journals, in row order. */
  function Journals(rows: seq<Paper>): seq<string> {
    Seqs.Somes(JournalColumn(rows))
  }

  /** The year frequency table, ordered by year. */
  function YearCounts(rows: seq<Paper>): seq<Entry<int>> {
    SortBy(Tally(Years(rows)), ByKey)
  }

  /** The ten journals with most papers, by count descending. */
  function TopJournals(rows: seq<Paper>): seq<Entry<string>> {
    MostCommon(Tally(Journals(rows)), 10)
  }

  /**
   * `str.lower()` on a whole title. The Unicode case mapping is library data, so
   * the model takes it as a parameter.
   */
  type CaseFolder = string -> string

  /** `len(word) > 5`. */
  predicate IsLongWord(w: string) {
    |w| > 5
  }

  /** The words one title cell contributes; a missing title (dropped by `dropna()`) gives none. */
  function TitleWordsOf(title: Option<string>, lower: CaseFolder): seq<string> {
    match title
    case None => []
    case Some(t) => Seqs.Filter(Text.Split(lower(t)), IsLongWord)
  }

  /** The long words of every non-missing, lower-cased title, title by title, in token order. */
  function TitleWords(rows: seq<Paper>, lower: CaseFolder): seq<string>
    decreases |rows|
  {
    if rows == [] then [] else TitleWordsOf(rows[0].title, lower) + TitleWords(rows[1..], lower)
  }

  /** The ten most common long title words. */
  function CommonTitleWords(rows: seq<Paper>, lower: CaseFolder): seq<Entry<string>> {
    MostCommon(Tally(TitleWords(rows, lower)), 10)
  }

  /**
   * An independent count: how many times `w` occurs among the whitespace tokens of
   * all lower-cased, non-missing titles, whatever its length.
   */
  function TitleOccurrences(rows: seq<Paper>, lower: CaseFolder, w: string): nat
    decreases |rows|
  {
    if rows == [] then 0
    else
      (match rows[0].title
       case None => 0
       case Some(t) => multiset(Text.Split(lower(t)))[w])
      + TitleOccurrences(rows[1..], lower, w)
  }

  /** The number of rows whose `year` cell holds `y`, present years only. */
  lemma YearOccurrences(rows: seq<Paper>, y: int)
    ensures multiset(Years(rows))[y] == multiset(YearColumn(rows))[Some(y)]
  {
    Seqs.SomesCount(YearColumn(rows), y);
  }

  lemma YearCountsAscending(rows: seq<Paper>)
    ensures forall i, j :: 0 <= i < j < |YearCounts(rows)| ==> YearCounts(rows)[i].key < YearCounts(rows)[j].key
    ensures Total(YearCounts(rows)) == |Years(rows)|
  {
    TallySpec(Years(rows));
    SortByKeyStrict(Tally(Years(rows)));
    SortBySpec(Tally(Years(rows)), ByKey);
  }

  lemma YearCountsExact(rows: seq<Paper>)
    ensures forall i :: 0 <= i < |YearCounts(rows)| ==>
              1 <= YearCounts(rows)[i].count == multiset(YearColumn(rows))[Some(YearCounts(rows)[i].key)]
  {
    var t := Tally(Years(rows));
    var r := YearCounts(rows);
    TallySpec(Years(rows));
    forall i | 0 <= i < |r| ensures 1 <= r[i].count == multiset(YearColumn(rows))[Some(r[i].key)] {
      var k :| 0 <= k < |t| && t[k] == r[i];
      YearOccurrences(rows, r[i].key);
    }
  }

  lemma YearCountsComplete(rows: seq<Paper>, i: nat)
    requires i < |rows| && rows[i].year.Some?
    ensures rows[i].year.value in KeysOf(YearCounts(rows))
  {
    var y := rows[i].year.value;
    assert YearColumn(rows)[i] == YearCell(rows[i]) == Some(y);
    YearOccurrences(rows, y);
    TallySpec(Years(rows));
    SortByKeys(Tally(Years(rows)), ByKey, y);
  }

  /**
   * The year table: keys strictly ascending (so each year once), every count at
   * least 1 and equal to the number of rows with that year, every year present in
   * the table listed, and the counts summing to the number of rows with a year.
   */
  lemma YearCountsSpec(rows: seq<Paper>)
    ensures forall i, j :: 0 <= i < j < |YearCounts(rows)| ==> YearCounts(rows)[i].key < YearCounts(rows)[j].key
    ensures forall i :: 0 <= i < |YearCounts(rows)| ==>
              1 <= YearCounts(rows)[i].count == multiset(YearColumn(rows))[Some(YearCounts(rows)[i].key)]
    ensures forall i :: 0 <= i < |rows| && rows[i].year.Some? ==> rows[i].year.value in KeysOf(YearCounts(rows))
    ensures Total(YearCounts(rows)) == |Years(rows)|
  {
    YearCountsAscending(rows);
    YearCountsExact(rows);
    forall i | 0 <= i < |rows| && rows[i].year.Some? ensures rows[i].year.value in KeysOf(YearCounts(rows)) {
      YearCountsComplete(rows, i);
    }
  }

  /** Every row that has a year contributes one entry of `Years`. */
  lemma YearsOfDatedRows(rows: seq<Paper>)
    requires forall i :: 0 <= i < |rows| ==> rows[i].year.Some?
    ensures |Years(rows)| == |rows|
  {
    forall i | 0 <= i < |rows| ensures YearColumn(rows)[i].Some? {
      assert YearColumn(rows)[i] == YearCell(rows[i]);
    }
    Seqs.SomesAllPresent(YearColumn(rows));
  }

  /**
   * The top-journal table: at most 10 entries, counts non-increasing, one entry per
   * journal, each count the number of rows with that journal (missing journals are
   * not counted); with at most 10 distinct journals all of them are listed, and a
   * journal left out never has more papers than a listed one.
   */
  lemma TopJournalsSpec(rows: seq<Paper>)
    ensures |TopJournals(rows)| == Min(10, |set j | j in Journals(rows)|)
    ensures DistinctKeys(TopJournals(rows))
    ensures forall i, j :: 0 <= i < j < |TopJournals(rows)| ==> TopJournals(rows)[i].count >= TopJournals(rows)[j].count
    ensures forall i :: 0 <= i < |TopJournals(rows)| ==>
              1 <= TopJournals(rows)[i].count == multiset(JournalColumn(rows))[Some(TopJournals(rows)[i].key)]
    ensures |set j | j in Journals(rows)| <= 10 ==>
              forall i :: 0 <= i < |rows| && rows[i].journal.Some? ==> rows[i].journal.value in KeysOf(TopJournals(rows))
    ensures forall i :: 0 <= i < |rows| && rows[i].journal.Some? && rows[i].journal.value !in KeysOf(TopJournals(rows)) ==>
              forall j :: 0 <= j < |TopJournals(rows)| ==> multiset(JournalColumn(rows))[rows[i].journal] <= TopJournals(rows)[j].count
  {
    TopOfTally(Journals(rows), 10);
    TopJournalsExact(rows);
    forall i | 0 <= i < |rows| && rows[i].journal.Some?
      ensures && rows[i].journal.value in Journals(rows)
              && multiset(JournalColumn(rows))[rows[i].journal] == multiset(Journals(rows))[rows[i].journal.value]
    {
      JournalOccurrences(rows, i);
    }
  }

  lemma TopJournalsExact(rows: seq<Paper>)
    ensures forall i :: 0 <= i < |TopJournals(rows)| ==>
              1 <= TopJournals(rows)[i].count == multiset(JournalColumn(rows))[Some(TopJournals(rows)[i].key)]
  {
    var r := TopJournals(rows);
    TopEntriesExact(Journals(rows), 10);
    forall i | 0 <= i < |r| ensures 1 <= r[i].count == multiset(JournalColumn(rows))[Some(r[i].key)] {
      Seqs.SomesCount(JournalColumn(rows), r[i].key);
    }
  }

  lemma JournalOccurrences(rows: seq<Paper>, i: nat)
    requires i < |rows| && rows[i].journal.Some?
    ensures rows[i].journal.value in Journals(rows)
    ensures multiset(JournalColumn(rows))[rows[i].journal] == multiset(Journals(rows))[rows[i].journal.value]
  {
    assert JournalColumn(rows)[i] == JournalCell(rows[i]) == rows[i].journal;
    Seqs.SomesCount(JournalColumn(rows), rows[i].journal.value);
  }

  /**
   * The title-word list keeps every occurrence of every word longer than 5
   * characters among the tokens of the lower-cased titles, repeats inside one title
   * included, and nothing else.
   */
  lemma {:induction false} TitleWordsCount(rows: seq<Paper>, lower: CaseFolder, w: string)
    ensures multiset(TitleWords(rows, lower))[w] == if |w| > 5 then TitleOccurrences(rows, lower, w) else 0
    decreases |rows|
  {
    if rows != [] {
      TitleWordsCount(rows[1..], lower, w);
      if rows[0].title.Some? {
        Seqs.FilterCount(Text.Split(lower(rows[0].title.value)), IsLongWord, w);
      }
    }
  }

  /** The words of a concatenation of tables are the words of the first followed by those of the second. */
  lemma {:induction false} TitleWordsAppend(a: seq<Paper>, b: seq<Paper>, lower: CaseFolder)
    ensures TitleWords(a + b, lower) == TitleWords(a, lower) + TitleWords(b, lower)
    decreases |a|
  {
    if a != [] {
      assert (a + b)[0] == a[0];
      assert (a + b)[1..] == a[1..] + b;
      TitleWordsAppend(a[1..], b, lower);
    } else {
      assert a + b == b;
    }
  }

  /**
   * The common-title-words list: at most 10 `(word, count)` pairs, counts
   * non-increasing, distinct words, each word longer than 5 characters with its
   * count the number of its occurrences among the lower-cased title tokens; with
   * at most 10 distinct long words all are listed, and a long word left out never
   * occurs more often than a listed one.
   */
  lemma CommonTitleWordsSpec(rows: seq<Paper>, lower: CaseFolder)
    ensures |CommonTitleWords(rows, lower)| == Min(10, |set w | w in TitleWords(rows, lower)|)
    ensures DistinctKeys(CommonTitleWords(rows, lower))
    ensures forall i, j :: 0 <= i < j < |CommonTitleWords(rows, lower)| ==>
              CommonTitleWords(rows, lower)[i].count >= CommonTitleWords(rows, lower)[j].count
    ensures forall i :: 0 <= i < |CommonTitleWords(rows, lower)| ==>
              && |CommonTitleWords(rows, lower)[i].key| > 5
              && 1 <= CommonTitleWords(rows, lower)[i].count
              && CommonTitleWords(rows, lower)[i].count == TitleOccurrences(rows, lower, CommonTitleWords(rows, lower)[i].key)
    ensures |set w | w in TitleWords(rows, lower)| <= 10 ==>
              forall w :: w in TitleWords(rows, lower) ==> w in KeysOf(CommonTitleWords(rows, lower))
    ensures forall w :: w in TitleWords(rows, lower) && w !in KeysOf(CommonTitleWords(rows, lower)) ==>
              forall j :: 0 <= j < |CommonTitleWords(rows, lower)| ==>
                TitleOccurrences(rows, lower, w) <= CommonTitleWords(rows, lower)[j].count
  {
    var ws := TitleWords(rows, lower);
    var r := CommonTitleWords(rows, lower);
    TopOfTally(ws, 10);
    forall i | 0 <= i < |r|
      ensures |r[i].key| > 5 && 1 <= r[i].count && r[i].count == TitleOccurrences(rows, lower, r[i].key)
    {
      TitleWordsCount(rows, lower, r[i].key);
    }
    forall w | w in ws && w !in KeysOf(r)
      ensures forall j :: 0 <= j < |r| ==> TitleOccurrences(rows, lower, w) <= r[j].count
    {
      TitleWordsCount(rows, lower, w);
    }
  }
}
