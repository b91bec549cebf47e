/**
 * The paper-metadata table shared by the batch report (analysis.py) and the
 * interactive explorer (app.py): one record per CSV row, the two derived columns
 * (`year`, `abstract_word_count`), and the DataFrame whose columns both scripts
 * assign in place.
 */
module Frame {
  import opened Wrappers
  import Seqs
  import Text

  /**
   * One row of the metadata table; `None` is a missing cell. `year` and
   * `abstractWordCount` are derived columns and stay `None` until derived.
   */
  datatype Paper = Paper(
    title: Option<string>,
    abstractText: Option<string>,
    journal: Option<string>,
    publishTime: Option<string>,
    year: Option<int>,
    abstractWordCount: Option<nat>)

  /**
   * `pd.to_datetime(..., errors='coerce')` followed by `.dt.year`, applied to one
   * non-missing `publish_time` text: the calendar year of the parsed date, or `None`
   * when the text is not a date. Date-format inference belongs to pandas, so the
   * model takes it as a parameter.
   */
  type DateParser = string -> Option<int>

  /** The `year` cell derived from a `publish_time` cell; a missing cell parses to NaT. */
  function YearOf(publishTime: Option<string>, parse: DateParser): Option<int> {
    match publishTime
    case None => None
    case Some(text) => parse(text)
  }

  /** The whitespace-token count of the abstract, a missing abstract counting as empty text. */
  function AbstractWordCount(abstractText: Option<string>): nat {
    Text.WordCount(abstractText.GetOr(""))
  }

  /** The year derivation of one row. */
  function SetYear(parse: DateParser): Paper -> Paper {
    (p: Paper) => p.(year := YearOf(p.publishTime, parse))
  }

  /** The word-count derivation of one row. */
  function SetWordCount(p: Paper): Paper {
    p.(abstractWordCount := Some(AbstractWordCount(p.abstractText)))
  }

  /** The row survives `dropna(subset=['title', 'year'])`. */
  predicate HasTitleAndYear(p: Paper) {
    p.title.Some? && p.year.Some?
  }

  function DeriveYear(rows: seq<Paper>, parse: DateParser): seq<Paper> {
    Seqs.Map(rows, SetYear(parse))
  }

  function DeriveWordCount(rows: seq<Paper>): seq<Paper> {
    Seqs.Map(rows, SetWordCount)
  }

  /** Both derived columns, in the order the scripts assign them. */
  function Derived(rows: seq<Paper>, parse: DateParser): seq<Paper> {
    DeriveWordCount(DeriveYear(rows, parse))
  }

  function DropIncomplete(rows: seq<Paper>): seq<Paper> {
    Seqs.Filter(rows, HasTitleAndYear)
  }

  /** A pandas DataFrame of paper records, whose columns are assigned in place. */
  class DataFrame {
    var rows: seq<Paper>

    constructor (rows: seq<Paper>)
      ensures this.rows == rows
    {
      this.rows := rows;
    }

    /** `df.shape[0]`. */
    function Length(): nat
      reads this
    {
      |rows|
    }

    /**
     * The publish-time parse and the `year` column assignment: every row gets the year of its publish time, missing where that is missing or
     * not a date; no row is added or removed and no other cell changes.
     */
    method AssignYear(parse: DateParser)
      modifies this
      ensures rows == DeriveYear(old(rows), parse)
    {
      rows := DeriveYear(rows, parse);
    }

    /**
     * The `abstract_word_count` column assignment: every row gets the token count of its abstract; no other cell changes.
     */
    method AssignWordCount()
      modifies this
      ensures rows == DeriveWordCount(old(rows))
    {
      rows := DeriveWordCount(rows);
    }

    /** Dropping the rows missing a title or a year: a new frame; this one is left as it is. */
    method DropMissingTitleOrYear() returns (kept: DataFrame)
      ensures fresh(kept)
      ensures kept.rows == DropIncomplete(rows)
    {
      kept := new DataFrame(DropIncomplete(rows));
    }
  }

  /**
   * The abstract word count is the number of maximal runs of non-whitespace
   * characters of the abstract, 0 for a missing abstract, and 0 exactly when the
   * abstract is missing, empty or all whitespace.
   */
  lemma AbstractWordCountSpec(abstractText: Option<string>)
    ensures abstractText.None? ==> AbstractWordCount(abstractText) == 0
    ensures abstractText.Some? ==> AbstractWordCount(abstractText) == Text.RunStarts(abstractText.value, true)
    ensures AbstractWordCount(abstractText) == 0 <==> abstractText.None? || Text.AllSpace(abstractText.value)
  {
    Text.WordCountIsRunCount(abstractText.GetOr(""));
    Text.WordCountZero(abstractText.GetOr(""));
  }

  /**
   * Deriving the columns keeps every row, in place: row `i` of the result is row `i`
   * of the input with `year` set from its publish time and `abstractWordCount` set
   * (never missing) from its abstract; title, abstract, journal and publish time are
   * unchanged.
   */
  lemma DerivedSpec(rows: seq<Paper>, parse: DateParser)
    ensures |Derived(rows, parse)| == |rows|
    ensures forall i :: 0 <= i < |rows| ==>
              var d := Derived(rows, parse)[i];
              && d.title == rows[i].title
              && d.abstractText == rows[i].abstractText
              && d.journal == rows[i].journal
              && d.publishTime == rows[i].publishTime
              && d.year == YearOf(rows[i].publishTime, parse)
              && d.abstractWordCount == Some(AbstractWordCount(rows[i].abstractText))
  {
    var y := DeriveYear(rows, parse);
    assert |y| == |rows|;
    forall i | 0 <= i < |rows| ensures y[i] == rows[i].(year := YearOf(rows[i].publishTime, parse)) {
      assert y[i] == SetYear(parse)(rows[i]);
    }
    assert |Derived(rows, parse)| == |y|;
    forall i | 0 <= i < |rows| ensures Derived(rows, parse)[i] == SetWordCount(y[i]) {
    }
  }
}
