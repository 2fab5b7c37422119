/** The missing-value cleaning of the Titanic table (code01.py, `clean_dataset`).

    A table is a set of column names and a sequence of rows; a row maps each
    column to an optional cell, `None` being a missing value. Cleaning fills the
    missing cells of the `Embarked` and `Cabin` columns with the sentinel
    "Not known" and then drops every row that still has a missing cell. */
module Cleaner {

  import opened Wrappers

  const EMBARKED: string := "Embarked"
  const CABIN: string := "Cabin"
  const NOT_KNOWN: string := "Not known"

  type Row = map<string, Option<string>>

  datatype Frame = Frame(columns: set<string>, rows: seq<Row>)

  /** Reading a column the frame does not have (`df["Embarked"]`) raises. */
  datatype Error = KeyError(column: string)

  /** Every row has a cell, present or missing, for exactly the frame's columns. */
  predicate Rectangular(f: Frame)
  {
    forall i :: 0 <= i < |f.rows| ==> f.rows[i].Keys == f.columns
  }

  /** No cell of the row is missing. */
  predicate NoMissing(r: Row)
  {
    forall c :: c in r ==> r[c].Some?
  }

  // ---------------------------------------------------------------------------
  // The operations of clean_dataset
  // ---------------------------------------------------------------------------

  /** `fillna(value)` applied to the cell of one row in `column`: a missing
      cell gets the value, a present cell and every other column stay as they are. */
  function FillCell(r: Row, column: string, value: string): (r': Row)
    ensures r'.Keys == r.Keys
    ensures column in r ==> r'[column] == (if r[column].Some? then r[column] else Some(value))
    ensures forall c :: c in r && c != column ==> r'[c] == r[c]
  {
    if column in r && r[column].None? then r[column := Some(value)] else r
  }

  /** `df[column] = df[column].fillna(value)`: the frame keeps its columns and
      its rows, and no row is missing a value in `column` afterwards. */
  function FillNa(f: Frame, column: string, value: string): (g: Frame)
    ensures g.columns == f.columns && |g.rows| == |f.rows|
    ensures forall i :: 0 <= i < |f.rows| ==> g.rows[i] == FillCell(f.rows[i], column, value)
    ensures Rectangular(f) ==> Rectangular(g)
    ensures Rectangular(f) && column in f.columns ==>
              forall i :: 0 <= i < |g.rows| ==> g.rows[i][column].Some?
  {
    Frame(f.columns, seq(|f.rows|, i requires 0 <= i < |f.rows| => FillCell(f.rows[i], column, value)))
  }

  /** The rows without a missing cell, in their original order. Each kept row
      is one of the input rows, and none of them is missing a value. */
  function DropIncomplete(rows: seq<Row>): (kept: seq<Row>)
    ensures |kept| <= |rows|
    ensures forall k :: 0 <= k < |kept| ==> NoMissing(kept[k]) && kept[k] in rows
    decreases |rows|
  {
    if rows == [] then []
    else
      var last := rows[|rows| - 1];
      assert forall r :: r in rows[..|rows| - 1] ==> r in rows;
      DropIncomplete(rows[..|rows| - 1]) + (if NoMissing(last) then [last] else [])
  }

  /** `df.dropna()`: drop every row with a missing value in any column. */
  function DropNa(f: Frame): (g: Frame)
    ensures g.columns == f.columns
    ensures Rectangular(f) ==> Rectangular(g)
    ensures forall k :: 0 <= k < |g.rows| ==> NoMissing(g.rows[k])
  {
    Frame(f.columns, DropIncomplete(f.rows))
  }

  /** `clean_dataset(df)`: raises for a missing `Embarked` column, then for a
      missing `Cabin` column; otherwise fills both, then drops incomplete rows.
      The frame is a value, so the caller's frame is never altered (`df.copy()`). */
  function Clean(f: Frame): (r: Result<Frame, Error>)
    ensures r.Failure? <==> EMBARKED !in f.columns || CABIN !in f.columns
    ensures r.Failure? ==> r.error == KeyError(if EMBARKED !in f.columns then EMBARKED else CABIN)
    ensures r.Success? ==> r.value.columns == f.columns && |r.value.rows| <= |f.rows|
    ensures r.Success? ==> forall k :: 0 <= k < |r.value.rows| ==> NoMissing(r.value.rows[k])
    ensures r.Success? && Rectangular(f) ==> Rectangular(r.value)
  {
    if EMBARKED !in f.columns then Failure(KeyError(EMBARKED))
    else if CABIN !in f.columns then Failure(KeyError(CABIN))
    else
      var filled := FillNa(FillNa(f, EMBARKED, NOT_KNOWN), CABIN, NOT_KNOWN);
      Success(DropNa(filled))
  }

  // ---------------------------------------------------------------------------
  // An independent description of the cleaned table
  // ---------------------------------------------------------------------------

  /** The rows clean_dataset keeps: those whose only missing cells, if any,
      are in `Embarked` or `Cabin`. */
  predicate KeptByClean(r: Row)
  {
    forall c :: c in r && c != EMBARKED && c != CABIN ==> r[c].Some?
  }

  /** What a kept row looks like afterwards: missing `Embarked` and `Cabin`
      cells become "Not known", every other cell is the original one. */
  function Filled(r: Row): (r': Row)
    ensures r'.Keys == r.Keys
    ensures forall c :: c in r && r[c].Some? ==> r'[c] == r[c]
    ensures EMBARKED in r ==> r'[EMBARKED].Some?
    ensures CABIN in r ==> r'[CABIN].Some?
  {
    map c | c in r :: if (c == EMBARKED || c == CABIN) && r[c].None? then Some(NOT_KNOWN) else r[c]
  }

  /** The positions `i` where `mask[i]` holds, in increasing order. */
  function TrueIndices(mask: seq<bool>): (ks: seq<nat>)
    ensures forall k :: 0 <= k < |ks| ==> ks[k] < |mask| && mask[ks[k]]
    ensures forall k, l :: 0 <= k < l < |ks| ==> ks[k] < ks[l]
    ensures forall i :: 0 <= i < |mask| && mask[i] ==> i in ks
    decreases |mask|
  {
    if mask == [] then []
    else
      var n := |mask| - 1;
      var prefix := TrueIndices(mask[..n]);
      assert forall k :: 0 <= k < |prefix| ==> mask[prefix[k]] == mask[..n][prefix[k]];
      prefix + (if mask[n] then [n] else [])
  }

  function KeptMask(rows: seq<Row>): (mask: seq<bool>)
    ensures |mask| == |rows|
  {
    seq(|rows|, i requires 0 <= i < |rows| => KeptByClean(rows[i]))
  }

  /** The positions of the rows clean_dataset keeps, in increasing order. */
  function KeptIndices(rows: seq<Row>): seq<nat>
  {
    TrueIndices(KeptMask(rows))
  }

  // ---------------------------------------------------------------------------
  // Properties of clean_dataset
  // ---------------------------------------------------------------------------

  /** The two fills in a row are the reference `Filled`. */
  lemma FillTwiceIsFilled(r: Row)
    ensures FillCell(FillCell(r, EMBARKED, NOT_KNOWN), CABIN, NOT_KNOWN) == Filled(r)
    ensures NoMissing(Filled(r)) <==> KeptByClean(r)
  {
    var r2 := FillCell(FillCell(r, EMBARKED, NOT_KNOWN), CABIN, NOT_KNOWN);
    assert r2.Keys == Filled(r).Keys;
    forall c | c in r
      ensures r2[c] == Filled(r)[c]
    {
    }
  }

  /** Dropping incomplete rows selects the rows at the marked positions. */
  lemma {:induction false} DropIncompleteSelects(rows: seq<Row>, mask: seq<bool>)
    requires |mask| == |rows|
    requires forall i :: 0 <= i < |rows| ==> mask[i] == NoMissing(rows[i])
    ensures |DropIncomplete(rows)| == |TrueIndices(mask)|
    ensures forall k :: 0 <= k < |TrueIndices(mask)| ==>
              DropIncomplete(rows)[k] == rows[TrueIndices(mask)[k]]
    decreases |rows|
  {
    if rows != [] {
      var n := |rows| - 1;
      DropIncompleteSelects(rows[..n], mask[..n]);
    }
  }

  /** The cleaned table, described without the fills and drops: rows are kept
      iff nothing outside `Embarked`/`Cabin` is missing, they keep their
      relative order, and each is its `Filled` version. Together with the
      contract of `TrueIndices` (positions in increasing order) this is the
      whole row behaviour of clean_dataset. */
  lemma CleanKeepsFilledRows(f: Frame, g: Frame)
    requires Clean(f) == Success(g)
    ensures g.columns == f.columns
    ensures forall i :: 0 <= i < |f.rows| ==> (i in KeptIndices(f.rows) <==> KeptByClean(f.rows[i]))
    ensures |g.rows| == |KeptIndices(f.rows)|
    ensures forall k :: 0 <= k < |KeptIndices(f.rows)| ==> g.rows[k] == Filled(f.rows[KeptIndices(f.rows)[k]])
  {
    var filled := FillNa(FillNa(f, EMBARKED, NOT_KNOWN), CABIN, NOT_KNOWN);
    var mask := KeptMask(f.rows);
    forall i | 0 <= i < |f.rows|
      ensures filled.rows[i] == Filled(f.rows[i])
      ensures mask[i] == NoMissing(filled.rows[i])
    {
      FillTwiceIsFilled(f.rows[i]);
    }
    DropIncompleteSelects(filled.rows, mask);
  }

  /** After cleaning a well-formed frame, no cell of any column is missing. */
  lemma CleanLeavesNoMissing(f: Frame, g: Frame)
    requires Rectangular(f)
    requires Clean(f) == Success(g)
    ensures Rectangular(g) && g.columns == f.columns
    ensures forall k, c :: 0 <= k < |g.rows| && c in g.columns ==> g.rows[k][c].Some?
    ensures forall k :: 0 <= k < |g.rows| ==> g.rows[k][EMBARKED].Some? && g.rows[k][CABIN].Some?
  {
  }

  /** Cleaning a cleaned table changes nothing. */
  lemma CleanIdempotent(f: Frame, g: Frame)
    requires Clean(f) == Success(g)
    ensures Clean(g) == Success(g)
  {
    forall k | 0 <= k < |g.rows|
      ensures FillCell(g.rows[k], EMBARKED, NOT_KNOWN) == g.rows[k]
      ensures FillCell(g.rows[k], CABIN, NOT_KNOWN) == g.rows[k]
    {
    }
    var once := FillNa(g, EMBARKED, NOT_KNOWN);
    assert once.rows == g.rows;
    var twice := FillNa(once, CABIN, NOT_KNOWN);
    assert twice.rows == g.rows;
    DropCompleteUnchanged(g.rows);
  }

  /** Rows that are all complete are all kept. */
  lemma {:induction false} DropCompleteUnchanged(rows: seq<Row>)
    requires forall k :: 0 <= k < |rows| ==> NoMissing(rows[k])
    ensures DropIncomplete(rows) == rows
    decreases |rows|
  {
    if rows != [] {
      var n := |rows| - 1;
      DropCompleteUnchanged(rows[..n]);
      assert rows[..n] + [rows[n]] == rows;
    }
  }

  /** The example of the cleaning rule: a passenger missing only `Embarked`
      and `Cabin` is kept with the sentinel; one missing `Age` is dropped even
      though `Embarked` and `Cabin` are present. */
  lemma CleanScenario()
    ensures
      var cols := {"Name", "Age", EMBARKED, CABIN};
      var alice := map["Name" := Some("Alice"), "Age" := Some("30"), EMBARKED := None, CABIN := None];
      var bob := map["Name" := Some("Bob"), "Age" := None, EMBARKED := Some("S"), CABIN := Some("C85")];
      var aliceFilled := map["Name" := Some("Alice"), "Age" := Some("30"),
                             EMBARKED := Some(NOT_KNOWN), CABIN := Some(NOT_KNOWN)];
      Clean(Frame(cols, [alice, bob])) == Success(Frame(cols, [aliceFilled]))
  {
    var cols := {"Name", "Age", EMBARKED, CABIN};
    var alice := map["Name" := Some("Alice"), "Age" := Some("30"), EMBARKED := None, CABIN := None];
    var bob := map["Name" := Some("Bob"), "Age" := None, EMBARKED := Some("S"), CABIN := Some("C85")];
    var aliceFilled := map["Name" := Some("Alice"), "Age" := Some("30"),
                           EMBARKED := Some(NOT_KNOWN), CABIN := Some(NOT_KNOWN)];
    var f := Frame(cols, [alice, bob]);
    assert KeptByClean(alice);
    assert !KeptByClean(bob) by {
      assert "Age" in bob && bob["Age"].None?;
    }
    assert KeptMask(f.rows) == [true, false];
    assert KeptIndices(f.rows) == [0] by {
      assert [true, false][..1] == [true];
      assert [true][..0] == [];
    }
    var g := Clean(f).value;
    CleanKeepsFilledRows(f, g);
    assert g.rows == [Filled(alice)];
    FilledAlice(alice, aliceFilled);
  }

  lemma FilledAlice(alice: Row, aliceFilled: Row)
    requires alice == map["Name" := Some("Alice"), "Age" := Some("30"), EMBARKED := None, CABIN := None]
    requires aliceFilled == map["Name" := Some("Alice"), "Age" := Some("30"),
                                EMBARKED := Some(NOT_KNOWN), CABIN := Some(NOT_KNOWN)]
    ensures Filled(alice) == aliceFilled
  {
    assert alice.Keys == aliceFilled.Keys;
  }
}
