# Titanic data cleaning: a verified model

This project models the two data-handling steps of the Titanic cleaning script
`code01.py`:

- **Loading (`load_dataset`).** The raw file wraps every row in one extra pair
  of double quotes and doubles the quotes inside the row. This is the escaping
  rule of RFC 4180 section 2, rule 7. Each line is repaired in two steps. First,
  a line that both starts and ends with `"` loses its first and last character.
  Second, every `""` becomes `"`, in one left-to-right scan that never overlaps
  pairs. The repaired lines are then joined with `"\n"` (module `Loader`).
- **Cleaning (`clean_dataset`).** A table is a set of column names and a
  sequence of rows. Each row maps a column name to an optional cell, and
  `None` means the value is missing. Missing `Embarked` and `Cabin` cells are
  filled with the sentinel `"Not known"`. Then every row that still has a
  missing cell is dropped (module `Cleaner`). A frame without an `Embarked` or
  `Cabin` column makes the source raise a `KeyError`. The model returns
  `Failure(KeyError(...))` in that case, and it checks `Embarked` first.

The loader loop is imperative, so it is a method with loop invariants
(`Loader.NormalizeText`). Its line repair and its join are functions.
`clean_dataset` works on a private copy and returns a new frame, so it is a
pure function (`Cleaner.Clean`). Because frames are values here, the caller's
frame can never change.

Properties proved:

- The line repair inverts the row-wrapping convention.
- The repair removes only quote characters.
- A string is left unchanged by un-doubling exactly when it has no doubled quote.
- Splitting the joined text recovers the list of lines, provided there is at
  least one line and none contains a line break.
- The cleaned table has an independent description: which rows are kept, in
  what order, and with what values.
- After cleaning, no cell is missing.
- Cleaning is idempotent.

## Model

| member | source | states |
|---|---|---|
| `Loader.StripEnclosing` | code01.py:30-31 | a line that starts and ends with `"` is exactly the result wrapped in one quote on each side (a lone `"` becomes empty); any other line is returned unstripped |
| `Loader.Unescape` | code01.py:34 | replacing `""` by `"` never lengthens the line and keeps its non-quote characters in order |
| `Loader.NormalizeLine` | code01.py:30-34 | the repaired line is no longer than the raw line, and only quote characters are removed |
| `Loader.Escape` | code01.py:10-11 | doubling the quotes of a row never shortens it and keeps its non-quote characters |
| `Loader.Wrap` | code01.py:10-11 | the raw form of a row starts and ends with a quote, so the loader strips it |
| `Loader.UnescapeEscape` | code01.py:34 | un-doubling undoes doubling for every string |
| `Loader.LineRoundTrip` | code01.py:30-34 | repairing the raw form `"` + escaped row + `"` gives back exactly the row |
| `Loader.UnquotedLineUnchanged` | code01.py:30-34 | a line with no `"` passes through the repair unchanged |
| `Loader.UnescapeFixedIff` | code01.py:34 | un-doubling leaves a string unchanged if and only if it has no two adjacent quotes |
| `Loader.QuoteRuns` | code01.py:30-34 | pairs are replaced without overlap: `"""` becomes `""`, `""""` becomes `""`, a lone `"` line becomes empty, and a `""""` line becomes `"` |
| `Loader.QuoteRunHalves` | code01.py:34 | a run of `k` quotes becomes a run of `k / 2` quotes rounded up, for every `k`: pairs are taken from the left without overlap |
| `Loader.NormalizeKeepsLineBreaksOut` | code01.py:30-34 | the repair never introduces a line break |
| `Loader.Join` | code01.py:37 | joining no lines gives empty text; otherwise the text starts with the first line and its length is the lines' total length plus one separator per gap between neighbours |
| `Loader.SplitJoin` | code01.py:37 | splitting the joined text on `"\n"` gives back a non-empty list of lines that contain no line break |
| `Loader.JoinSplit` | code01.py:37 | joining the pieces of any text rebuilds the text, so splitting and joining are inverses |
| `Loader.EmptyFileSplitsToOneLine` | code01.py:37 | an empty list of lines joins into text that splits into one empty line, not into zero lines |
| `Loader.NormalizeText` | code01.py:27-37 | the cleaned list has one entry per input line, in order, each the repaired line; the text is their join; with at least one line and no line breaks, splitting the text gives back the cleaned list |
| `Loader.NormalizedLinesSplit` | code01.py:27-37 | when the file has at least one line and no line contains a line break, the repaired lines split back out of their joined text |
| `Loader.WrappedFileRoundTrip` | code01.py:27-37 | for a non-empty file of wrapped rows without line breaks, the normalised text splits back into exactly the original rows |
| `Cleaner.FillCell` | code01.py:61-62 | filling a column keeps the row's columns, gives a missing cell the sentinel, keeps a present cell, and leaves every other column unchanged |
| `Cleaner.FillNa` | code01.py:61-62 | filling a column keeps the frame's columns and row count and its rectangular shape; afterwards no row misses that column |
| `Cleaner.DropIncomplete` | code01.py:64 | every kept row is an input row with no missing cell, and no more rows are kept than were given |
| `Cleaner.DropNa` | code01.py:64 | dropping keeps the columns and the rectangular shape; every remaining row is complete |
| `Cleaner.Filled` | code01.py:61-62 | the reference form of a kept row: same columns, present cells unchanged, `Embarked` and `Cabin` always present |
| `Cleaner.Clean` | code01.py:59-66 | cleaning fails exactly when `Embarked` or `Cabin` is not a column, with `KeyError("Embarked")` taking precedence over `KeyError("Cabin")`; on success the columns are unchanged, no rows are added, no remaining row has a missing cell, and a rectangular frame stays rectangular |
| `Cleaner.FillTwiceIsFilled` | code01.py:61-62 | the two column fills applied to a row give its reference form; that form is complete exactly when the row has no missing cell outside `Embarked` and `Cabin` |
| `Cleaner.DropIncompleteSelects` | code01.py:64 | dropping returns the rows at the positions of the complete rows, in increasing order |
| `Cleaner.CleanKeepsFilledRows` | code01.py:59-66 | a row is kept if and only if none of its cells outside `Embarked` and `Cabin` is missing; kept rows keep their relative order and are their `Filled` form; the columns are unchanged |
| `Cleaner.CleanLeavesNoMissing` | code01.py:61-64 | after cleaning a rectangular frame, the result is rectangular, and no cell is missing in any column, `Embarked` and `Cabin` included |
| `Cleaner.CleanIdempotent` | code01.py:59-66 | cleaning an already cleaned frame succeeds and returns it unchanged |
| `Cleaner.DropCompleteUnchanged` | code01.py:64 | dropping keeps every row of a table whose rows are all complete |
| `Cleaner.CleanScenario` | code01.py:59-66 | a passenger missing only `Embarked` and `Cabin` is kept with `"Not known"` in both; a passenger missing `Age` is dropped even though `Embarked` and `Cabin` are present |

## Left out

- Reading the file (code01.py:24-25) is not modelled. This covers `open` with UTF-8 and `errors="replace"`, and `splitlines`, which also splits on `\r`, `\r\n` and other separators. The model takes the list of lines as input.
- `pd.read_csv` (code01.py:39) is not modelled. It is a foreign parser with its own NA inference, type coercion and column-count errors. The model stops at the normalised text.
- `save_dataset` (code01.py:80) and `main` (code01.py:83-98) are not modelled. They do file output and orchestrate fixed paths.
- The pandas index, dtypes and NaN floats are not modelled. A missing value is `None`. Columns form a set, so their order is not modelled. Order matters only when writing the file.
- `df.copy()` (code01.py:59) is captured only by value semantics. A frame is an immutable value, so `Clean` cannot change its argument; there is no aliasing to model.
