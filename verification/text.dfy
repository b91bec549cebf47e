/**
 * Python's `str.split()` with no separator: the text is cut at runs of whitespace,
 * leading and trailing whitespace is ignored, and no empty token is produced.
 */
module Text {

  /**
   * The characters for which Python's `str.isspace()` holds, which are the
   * separators of `str.split()`: tab through carriage return, the four
   * information separators, space, NEL, no-break space and the Unicode space
   * separators, line separator and paragraph separator.
   */
  predicate IsSpace(c: char) {
    || '\t' <= c <= '\r'
    || '\U{1C}' <= c <= '\U{1F}'
    || c == ' '
    || c == '\U{85}'
    || c == '\U{A0}'
    || c == '\U{1680}'
    || '\U{2000}' <= c <= '\U{200A}'
    || c == '\U{2028}'
    || c == '\U{2029}'
    || c == '\U{202F}'
    || c == '\U{205F}'
    || c == '\U{3000}'
  }

  predicate NoSpace(s: string) {
    forall i :: 0 <= i < |s| ==> !IsSpace(s[i])
  }

  predicate AllSpace(s: string) {
    forall i :: 0 <= i < |s| ==> IsSpace(s[i])
  }

  /** Length of the longest whitespace-free prefix of `s`. */
  function TokenLength(s: string): (n: nat)
    ensures n <= |s|
    ensures NoSpace(s[..n])
    ensures n < |s| ==> IsSpace(s[n])
    ensures s != [] && !IsSpace(s[0]) ==> n > 0
    decreases |s|
  {
    if s == [] || IsSpace(s[0]) then 0 else 1 + TokenLength(s[1..])
  }

  /** `s.split()`: the maximal runs of non-whitespace characters of `s`, in order. */
  function Split(s: string): (r: seq<string>)
    ensures forall i :: 0 <= i < |r| ==> r[i] != [] && NoSpace(r[i])
    decreases |s|
  {
    if s == [] then []
    else if IsSpace(s[0]) then Split(s[1..])
    else
      var n := TokenLength(s);
      [s[..n]] + Split(s[n..])
  }

  /** `len(s.split())`. */
  function WordCount(s: string): nat {
    |Split(s)|
  }

  /**
   * An independent count of the maximal non-whitespace runs of `s`: the number of
   * positions holding a non-whitespace character that stands at the start of the
   * text (`atStart`) or right after a whitespace character.
   */
  function RunStarts(s: string, atStart: bool): nat
    decreases |s|
  {
    if s == [] then 0
    else (if atStart && !IsSpace(s[0]) then 1 else 0) + RunStarts(s[1..], IsSpace(s[0]))
  }

  /** The text with every whitespace character removed. */
  function NonSpace(s: string): (r: string)
    ensures NoSpace(r)
    decreases |s|
  {
    if s == [] then []
    else (if IsSpace(s[0]) then [] else [s[0]]) + NonSpace(s[1..])
  }

  /** The tokens laid end to end. */
  function Concat(ts: seq<string>): string
    decreases |ts|
  {
    if ts == [] then [] else ts[0] + Concat(ts[1..])
  }

  /** Inside a run, the count of run starts ignores whether the run began at a boundary. */
  lemma {:induction false} RunStartsInsideToken(s: string)
    ensures RunStarts(s, false) == RunStarts(s[TokenLength(s)..], false)
    decreases |s|
  {
    if s != [] && !IsSpace(s[0]) {
      RunStartsInsideToken(s[1..]);
      assert s[1..][TokenLength(s[1..])..] == s[TokenLength(s)..];
    }
  }

  /** The number of tokens `str.split()` yields is the number of maximal non-whitespace runs. */
  lemma {:induction false} WordCountIsRunCount(s: string)
    ensures WordCount(s) == RunStarts(s, true)
    decreases |s|
  {
    if s != [] {
      if IsSpace(s[0]) {
        WordCountIsRunCount(s[1..]);
      } else {
        var n := TokenLength(s);
        var rest := s[n..];
        WordCountIsRunCount(rest);
        RunStartsInsideToken(s[1..]);
        assert s[1..][TokenLength(s[1..])..] == rest;
        if rest != [] {
          assert rest[0] == s[n];
        }
        assert RunStarts(rest, false) == RunStarts(rest, true);
      }
    }
  }

  /** Laying the tokens end to end gives back exactly the non-whitespace characters of `s`. */
  lemma {:induction false} SplitKeepsAllText(s: string)
    ensures Concat(Split(s)) == NonSpace(s)
    decreases |s|
  {
    if s != [] && !IsSpace(s[0]) {
      var n := TokenLength(s);
      SplitKeepsAllText(s[n..]);
      NonSpaceOfToken(s, n);
    } else if s != [] {
      SplitKeepsAllText(s[1..]);
    }
  }

  lemma {:induction false} NonSpaceOfToken(s: string, n: nat)
    requires n <= |s| && NoSpace(s[..n])
    ensures NonSpace(s) == s[..n] + NonSpace(s[n..])
    decreases n
  {
    if n > 0 {
      assert s[1..][..n - 1] == s[1..n];
      NonSpaceOfToken(s[1..], n - 1);
      assert s[1..][n - 1..] == s[n..];
      assert s[..n] == [s[0]] + s[1..n];
    }
  }

  /** `str.split()` yields no token exactly when the text is empty or all whitespace. */
  lemma {:induction false} WordCountZero(s: string)
    ensures WordCount(s) == 0 <==> AllSpace(s)
    decreases |s|
  {
    if s != [] {
      WordCountZero(s[1..]);
      assert forall i :: 1 <= i < |s| ==> s[i] == s[1..][i - 1];
    }
  }

  /** A whitespace-free text is one token from end to end. */
  lemma TokenAll(t: string)
    requires NoSpace(t)
    ensures TokenLength(t) == |t|
  {
  }

  /** A token ends where whitespace (or the text) begins, whatever follows. */
  lemma {:induction false} TokenLengthPrefix(a: string, rest: string)
    requires NoSpace(a)
    requires rest == [] || IsSpace(rest[0])
    ensures TokenLength(a + rest) == |a|
    decreases |a|
  {
    if a != [] {
      assert (a + rest)[0] == a[0];
      assert (a + rest)[1..] == a[1..] + rest;
      TokenLengthPrefix(a[1..], rest);
    } else {
      assert a + rest == rest;
    }
  }

  /** A non-empty text without whitespace splits into itself alone. */
  lemma SplitToken(t: string)
    requires t != [] && NoSpace(t)
    ensures Split(t) == [t]
  {
    TokenAll(t);
    assert t[..|t|] == t;
    assert t[|t|..] == [];
  }

  /**
   * Every whitespace character is a cut: the tokens of `a + [c] + b` are those of
   * `a` followed by those of `b`. With `SplitToken` and `Split([]) == []` this
   * determines the tokens completely.
   */
  lemma {:induction false} SplitAtSpace(a: string, c: char, b: string)
    requires IsSpace(c)
    ensures Split(a + [c] + b) == Split(a) + Split(b)
    decreases |a|
  {
    var s := a + [c] + b;
    if a == [] {
      assert s == [c] + b;
      assert s[1..] == b;
    } else if IsSpace(a[0]) {
      assert s[0] == a[0];
      assert s[1..] == a[1..] + [c] + b;
      SplitAtSpace(a[1..], c, b);
    } else {
      var m := TokenLength(a);
      var rest := a[m..] + [c] + b;
      assert a[..m] + rest == s;
      assert rest[0] == if m < |a| then a[m] else c;
      TokenLengthPrefix(a[..m], rest);
      assert s[..m] == a[..m];
      assert s[m..] == rest;
      SplitAtSpace(a[m..], c, b);
    }
  }
}
