/** The quote-normalising step of the Titanic loader (code01.py, `load_dataset`).

    The raw file stores every row wrapped in one extra pair of double quotes,
    with the quotes inside the row doubled, as in the escaping rule of
    RFC 4180 section 2, rule 7. Each line is repaired in two steps (strip the
    enclosing pair, then turn every `""` into `"`), and the repaired lines are
    joined with line breaks into text for a standard CSV reader. */
module Loader {

  const QUOTE: char := '"'
  const LINE_BREAK: char := '\n'

  // ---------------------------------------------------------------------------
  // Step 1: strip the enclosing quotes
  // ---------------------------------------------------------------------------

  /** The line is non-empty, and its first and last characters are both a double quote. */
  predicate Enclosed(line: string)
  {
    |line| > 0 && line[0] == QUOTE && line[|line| - 1] == QUOTE
  }

  /** An enclosed line loses its first and last character; any other line is
      kept whole. A line made of a single quote becomes empty, because a slice
      from the second character to the one before the last is then empty. */
  function StripEnclosing(line: string): (r: string)
    ensures Enclosed(line) && |line| >= 2 ==> line == [QUOTE] + r + [QUOTE]
    ensures Enclosed(line) && |line| < 2 ==> r == []
    ensures !Enclosed(line) ==> r == line
  {
    if Enclosed(line) then
      if |line| < 2 then [] else line[1..|line| - 1]
    else
      line
  }

  // ---------------------------------------------------------------------------
  // Step 2: un-double the inner quotes
  // ---------------------------------------------------------------------------

  /** The characters of `s` other than the double quote, in order. */
  function NonQuotes(s: string): string
  {
    if s == [] then []
    else (if s[0] == QUOTE then [] else [s[0]]) + NonQuotes(s[1..])
  }

  /** `s` holds two adjacent double quotes somewhere. */
  predicate HasDoubledQuote(s: string)
  {
    exists i :: 0 <= i < |s| - 1 && s[i] == QUOTE && s[i + 1] == QUOTE
  }

  /** Replaces doubled quotes by single ones: scanning left to right, each pair
      of adjacent quotes that does not overlap an earlier replaced pair becomes
      one quote. Only quote characters are ever removed, so the line never grows. */
  function Unescape(s: string): (r: string)
    ensures |r| <= |s|
    ensures NonQuotes(r) == NonQuotes(s)
    decreases |s|
  {
    if |s| >= 2 && s[0] == QUOTE && s[1] == QUOTE then
      assert s[1..][1..] == s[2..];
      [QUOTE] + Unescape(s[2..])
    else if s == [] then
      []
    else
      assert ([s[0]] + Unescape(s[1..]))[1..] == Unescape(s[1..]);
      [s[0]] + Unescape(s[1..])
  }

  /** The repair applied to one raw line (code01.py lines 30-34). */
  function NormalizeLine(line: string): (r: string)
    ensures |r| <= |line|
    ensures NonQuotes(r) == NonQuotes(line)
  {
    var stripped := StripEnclosing(line);
    NonQuotesOfWrapped(stripped, line);
    Unescape(stripped)
  }

  lemma NonQuotesOfWrapped(stripped: string, line: string)
    requires stripped == StripEnclosing(line)
    ensures NonQuotes(stripped) == NonQuotes(line)
  {
    if Enclosed(line) {
      if |line| < 2 {
        assert line == [QUOTE];
        assert NonQuotes(line) == [] + NonQuotes(line[1..]);
      } else {
        NonQuotesConcat([QUOTE] + stripped, [QUOTE]);
        NonQuotesConcat([QUOTE], stripped);
        assert NonQuotes([QUOTE]) == [] + NonQuotes([]);
      }
    }
  }

  lemma {:induction false} NonQuotesConcat(a: string, b: string)
    ensures NonQuotes(a + b) == NonQuotes(a) + NonQuotes(b)
    decreases |a|
  {
    if a == [] {
      assert a + b == b;
    } else {
      assert (a + b)[1..] == a[1..] + b;
      NonQuotesConcat(a[1..], b);
    }
  }

  // ---------------------------------------------------------------------------
  // The escaping convention that normalisation undoes
  // ---------------------------------------------------------------------------

  /** Double every quote of `s`. */
  function Escape(s: string): (r: string)
    ensures |r| >= |s|
    ensures NonQuotes(r) == NonQuotes(s)
    decreases |s|
  {
    if s == [] then []
    else
      var head := if s[0] == QUOTE then [QUOTE, QUOTE] else [s[0]];
      NonQuotesConcat(head, Escape(s[1..]));
      assert NonQuotes([QUOTE, QUOTE]) == [] + NonQuotes([QUOTE]);
      assert NonQuotes([QUOTE]) == [] + NonQuotes([]);
      assert NonQuotes([s[0]]) == NonQuotes([s[0]] + []);
      NonQuotesConcat([s[0]], s[1..]);
      assert [s[0]] + s[1..] == s;
      head + Escape(s[1..])
  }

  /** The raw form of a row: enclosed in quotes, inner quotes doubled. */
  function Wrap(s: string): (r: string)
    ensures Enclosed(r) && |r| >= 2
  {
    [QUOTE] + Escape(s) + [QUOTE]
  }

  /** Un-doubling undoes doubling. */
  lemma {:induction false} UnescapeEscape(s: string)
    ensures Unescape(Escape(s)) == s
    decreases |s|
  {
    if s != [] {
      UnescapeEscape(s[1..]);
      var e := Escape(s);
      if s[0] == QUOTE {
        assert e == [QUOTE, QUOTE] + Escape(s[1..]);
        assert e[2..] == Escape(s[1..]);
      } else {
        assert e == [s[0]] + Escape(s[1..]);
        assert e[1..] == Escape(s[1..]);
      }
    }
  }

  /** Normalising a wrapped row gives the row back: the repair undoes exactly
      the "enclosed in double quotes, internal quotes escaped" convention. */
  lemma LineRoundTrip(s: string)
    ensures NormalizeLine(Wrap(s)) == s
  {
    var w := Wrap(s);
    assert StripEnclosing(w) == Escape(s) by {
      assert w[1..|w| - 1] == Escape(s);
    }
    UnescapeEscape(s);
  }

  /** A line without any quote passes through unchanged. */
  lemma {:induction false} UnquotedLineUnchanged(line: string)
    requires QUOTE !in line
    ensures NormalizeLine(line) == line
  {
    assert !Enclosed(line);
    UnescapeIdentity(line);
  }

  /** Unescaping leaves a string alone exactly when it holds no doubled quote. */
  lemma {:induction false} UnescapeFixedIff(s: string)
    ensures Unescape(s) == s <==> !HasDoubledQuote(s)
  {
    if HasDoubledQuote(s) {
      UnescapeShrinks(s);
    } else {
      UnescapeIdentity(s);
    }
  }

  lemma {:induction false} UnescapeIdentity(s: string)
    requires !HasDoubledQuote(s)
    ensures Unescape(s) == s
    decreases |s|
  {
    if s != [] {
      assert !(|s| >= 2 && s[0] == QUOTE && s[1] == QUOTE);
      forall i | 0 <= i < |s[1..]| - 1
        ensures !(s[1..][i] == QUOTE && s[1..][i + 1] == QUOTE)
      {
        assert s[1..][i] == s[i + 1] && s[1..][i + 1] == s[i + 2];
      }
      UnescapeIdentity(s[1..]);
    }
  }

  lemma {:induction false} UnescapeShrinks(s: string)
    requires HasDoubledQuote(s)
    ensures |Unescape(s)| < |s|
    decreases |s|
  {
    if !(s[0] == QUOTE && s[1] == QUOTE) {
      var i :| 0 <= i < |s| - 1 && s[i] == QUOTE && s[i + 1] == QUOTE;
      assert i > 0;
      assert s[1..][i - 1] == QUOTE && s[1..][i] == QUOTE;
      UnescapeShrinks(s[1..]);
    }
  }

  /** Runs of three or more quotes: the scan does not overlap pairs. */
  lemma QuoteRuns()
    ensures Unescape("\"\"\"") == "\"\""
    ensures Unescape("\"\"\"\"") == "\"\""
    ensures NormalizeLine("\"") == ""
    ensures NormalizeLine("\"\"\"\"") == "\""
  {
    assert "\"\"\"\""[2..] == "\"\"";
    assert "\"\"\""[2..] == "\"";
    assert "\"\"\"\""[1..3] == "\"\"";
  }

  /** A run of `k` quotes un-doubles to a run of `k / 2` rounded up: pairs are
      taken from the left, and an odd quote at the end is kept. */
  lemma {:induction false} QuoteRunHalves(k: nat)
    ensures Unescape(seq(k, _ => QUOTE)) == seq((k + 1) / 2, _ => QUOTE)
    decreases k
  {
    var run := seq(k, _ => QUOTE);
    if k >= 2 {
      QuoteRunHalves(k - 2);
      assert run[2..] == seq(k - 2, _ => QUOTE);
      assert [QUOTE] + seq((k - 1) / 2, _ => QUOTE) == seq((k + 1) / 2, _ => QUOTE);
    } else if k == 1 {
      assert run == [QUOTE];
      assert run[1..] == [];
    }
  }

  /** Normalisation never introduces a line break. */
  lemma NormalizeKeepsLineBreaksOut(line: string)
    requires LINE_BREAK !in line
    ensures LINE_BREAK !in NormalizeLine(line)
  {
    var r := NormalizeLine(line);
    if LINE_BREAK in r {
      NonQuotesKeeps(r, LINE_BREAK);
      NonQuotesKeeps(line, LINE_BREAK);
      assert false;
    }
  }

  /** A character other than the quote occurs in `s` iff it occurs in `NonQuotes(s)`. */
  lemma {:induction false} NonQuotesKeeps(s: string, c: char)
    requires c != QUOTE
    ensures c in s <==> c in NonQuotes(s)
    decreases |s|
  {
    if s != [] {
      NonQuotesKeeps(s[1..], c);
      assert c in s <==> c == s[0] || c in s[1..] by {
        assert s == [s[0]] + s[1..];
      }
    }
  }

  // ---------------------------------------------------------------------------
  // Joining the repaired lines
  // ---------------------------------------------------------------------------

  /** The total number of characters in `lines`. */
  function TotalLength(lines: seq<string>): nat
    decreases |lines|
  {
    if lines == [] then 0 else |lines[0]| + TotalLength(lines[1..])
  }

  /** The lines one after another, with one line break between neighbours and
      none after the last: the text starts with the first line and holds every
      character of the lines plus one separator per gap. */
  function Join(lines: seq<string>): (text: string)
    ensures |lines| == 0 ==> text == []
    ensures |lines| > 0 ==> lines[0] <= text
    ensures |lines| > 0 ==> |text| == TotalLength(lines) + |lines| - 1
    decreases |lines|
  {
    if |lines| == 0 then []
    else if |lines| == 1 then lines[0]
    else lines[0] + [LINE_BREAK] + Join(lines[1..])
  }

  /** The pieces of `text` between line breaks, in order; there is always at
      least one piece, even for empty text. */
  function Split(text: string): (lines: seq<string>)
    ensures |lines| >= 1
    decreases |text|
  {
    if text == [] then [[]]
    else
      var rest := Split(text[1..]);
      if text[0] == LINE_BREAK then [[]] + rest
      else [[text[0]] + rest[0]] + rest[1..]
  }

  lemma {:induction false} SplitPrefix(a: string, t: string)
    requires LINE_BREAK !in a
    ensures Split(a + t) == [a + Split(t)[0]] + Split(t)[1..]
    decreases |a|
  {
    if a != [] {
      assert (a + t)[1..] == a[1..] + t;
      assert LINE_BREAK !in a[1..] by {
        assert forall c :: c in a[1..] ==> c in a;
      }
      SplitPrefix(a[1..], t);
      assert [a[0]] + (a[1..] + Split(t)[0]) == a + Split(t)[0];
    } else {
      assert a + t == t;
      assert a + Split(t)[0] == Split(t)[0];
      assert Split(t) == [Split(t)[0]] + Split(t)[1..];
    }
  }

  /** Splitting the joined text gives the lines back, provided there is at
      least one line ("".split("\n") is [""], not []) and none holds a line break. */
  lemma {:induction false} SplitJoin(lines: seq<string>)
    requires |lines| > 0
    requires forall i :: 0 <= i < |lines| ==> LINE_BREAK !in lines[i]
    ensures Split(Join(lines)) == lines
    decreases |lines|
  {
    if |lines| == 1 {
      SplitPrefix(lines[0], []);
      assert Split([]) == [[]];
      assert lines[0] + [] == lines[0];
      assert lines == [lines[0]];
    } else {
      SplitJoin(lines[1..]);
      var tail := [LINE_BREAK] + Join(lines[1..]);
      assert lines[0] + [LINE_BREAK] + Join(lines[1..]) == lines[0] + tail;
      SplitPrefix(lines[0], tail);
      assert tail[1..] == Join(lines[1..]);
      assert Split(tail) == [[]] + lines[1..];
      assert Split(tail)[0] == [] && Split(tail)[1..] == lines[1..];
      assert lines[0] + [] == lines[0];
      assert lines == [lines[0]] + lines[1..];
    }
  }

  /** Joining the pieces of any text rebuilds the text. */
  lemma {:induction false} JoinSplit(text: string)
    ensures Join(Split(text)) == text
    decreases |text|
  {
    if text != [] {
      JoinSplit(text[1..]);
      var rest := Split(text[1..]);
      if text[0] == LINE_BREAK {
        assert ([[]] + rest)[1..] == rest;
        assert text == [] + [LINE_BREAK] + text[1..];
      } else {
        var pieces := [[text[0]] + rest[0]] + rest[1..];
        if |rest| == 1 {
          assert text == [text[0]] + text[1..];
        } else {
          assert pieces[1..] == rest[1..];
          assert Join(rest) == rest[0] + [LINE_BREAK] + Join(rest[1..]);
          assert text == [text[0]] + text[1..];
        }
      }
    }
  }

  /** The joined text of zero lines splits into one empty line. */
  lemma EmptyFileSplitsToOneLine()
    ensures Split(Join([])) == [[]]
  {
  }

  // ---------------------------------------------------------------------------
  // The loop of load_dataset
  // ---------------------------------------------------------------------------

  /** The loop at code01.py lines 27-37: repair each line in turn, appending it
      to `cleaned`, then join the repaired lines. The list keeps the number and
      order of the input lines, and when there is a line and none holds a line
      break, splitting the text on line breaks recovers the list. */
  method NormalizeText(lines: seq<string>) returns (cleaned: seq<string>, text: string)
    ensures |cleaned| == |lines|
    ensures forall i :: 0 <= i < |lines| ==> cleaned[i] == NormalizeLine(lines[i])
    ensures text == Join(cleaned)
    ensures |lines| > 0 && (forall i :: 0 <= i < |lines| ==> LINE_BREAK !in lines[i]) ==>
              Split(text) == cleaned
  {
    cleaned := [];
    for i := 0 to |lines|
      invariant |cleaned| == i
      invariant forall j :: 0 <= j < i ==> cleaned[j] == NormalizeLine(lines[j])
    {
      var line := lines[i];
      line := StripEnclosing(line);
      line := Unescape(line);
      cleaned := cleaned + [line];
    }
    text := Join(cleaned);
    if |lines| > 0 && (forall i :: 0 <= i < |lines| ==> LINE_BREAK !in lines[i]) {
      NormalizedLinesSplit(lines, cleaned);
    }
  }

  /** Repaired lines of a file without line breaks split back out of their join. */
  lemma NormalizedLinesSplit(lines: seq<string>, cleaned: seq<string>)
    requires |lines| > 0 && |cleaned| == |lines|
    requires forall i :: 0 <= i < |lines| ==> LINE_BREAK !in lines[i]
    requires forall i :: 0 <= i < |lines| ==> cleaned[i] == NormalizeLine(lines[i])
    ensures Split(Join(cleaned)) == cleaned
  {
    forall i | 0 <= i < |cleaned|
      ensures LINE_BREAK !in cleaned[i]
    {
      NormalizeKeepsLineBreaksOut(lines[i]);
    }
    SplitJoin(cleaned);
  }

  /** End to end on a well-formed file: rows without line breaks, each wrapped
      and escaped, normalise and join into text whose lines are the rows. */
  lemma {:induction false} WrappedFileRoundTrip(rows: seq<string>)
    requires |rows| > 0
    requires forall i :: 0 <= i < |rows| ==> LINE_BREAK !in rows[i]
    ensures Split(Join(seq(|rows|, i requires 0 <= i < |rows| => NormalizeLine(Wrap(rows[i]))))) == rows
  {
    var cleaned := seq(|rows|, i requires 0 <= i < |rows| => NormalizeLine(Wrap(rows[i])));
    forall i | 0 <= i < |rows|
      ensures cleaned[i] == rows[i]
    {
      LineRoundTrip(rows[i]);
    }
    assert cleaned == rows;
    SplitJoin(rows);
  }
}
