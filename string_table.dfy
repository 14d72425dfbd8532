/** The translation table: `load_strings` in translations/build_game_locres.py
    turns the rows of the translators' CSV file into a map from stable
    identifier to Russian text. Tokenising the CSV is the `csv` library's
    job; here the header and the rows arrive already split. */
module StringTable {
  import opened Wrappers
  import opened Text

  /** One row as `csv.DictReader` yields it: column name to cell, with
      `None` for the cells of a row shorter than the header. */
  type Row = map<string, Option<string>>

  /** `load_strings` stops the program when a required column is absent;
      the message lists the absent columns in sorted order. */
  datatype LoadError = MissingColumns(columns: seq<string>)

  /** The columns the file must have, in Python's sorted order. */
  const Required: seq<string> := ["english", "id", "russian"]

  /** Python's `<` on `str`: lexicographic by code point. */
  predicate Below(a: string, b: string)
  {
    if a == [] then b != []
    else b != [] && (a[0] < b[0] || (a[0] == b[0] && Below(a[1..], b[1..])))
  }

  /** `sorted(required - set(fieldnames or []))`: a header of `None` (an
      empty file) has no columns at all. */
  function Absent(header: Option<seq<string>>): (missing: seq<string>)
    ensures forall c :: c in missing <==> c in Required && (header.None? || c !in header.value)
    ensures forall i, j :: 0 <= i < j < |missing| ==> Below(missing[i], missing[j])
  {
    var names := if header.Some? then header.value else [];
    (if "english" in names then [] else ["english"])
    + (if "id" in names then [] else ["id"])
    + (if "russian" in names then [] else ["russian"])
  }

  /** `(row.get(column) or "")`. */
  function Cell(row: Row, column: string): string
  {
    if column in row && row[column].Some? then row[column].value else ""
  }

  function RowId(row: Row): string
  {
    Strip(Cell(row, "id"))
  }

  function RowText(row: Row): string
  {
    Strip(Cell(row, "russian"))
  }

  /** A row enters the table only when both its stripped id and its
      stripped Russian text are non-empty. */
  predicate Kept(row: Row)
  {
    RowId(row) != "" && RowText(row) != ""
  }

  /** The map the row loop builds: each kept row in turn sets its id to its
      text, so a later row overwrites an earlier one with the same id. */
  function Table(rows: seq<Row>): map<string, string>
  {
    if rows == [] then map[]
    else
      var table := Table(rows[..|rows| - 1]);
      var row := rows[|rows| - 1];
      if Kept(row) then table[RowId(row) := RowText(row)] else table
  }

  /** What `load_strings` returns, or the error it stops with. */
  function Load(header: Option<seq<string>>, rows: seq<Row>): Result<map<string, string>, LoadError>
  {
    var missing := Absent(header);
    if missing != [] then Failure(MissingColumns(missing)) else Success(Table(rows))
  }

  /** The column check, then the row loop of `load_strings`. */
  method LoadStrings(header: Option<seq<string>>, rows: seq<Row>) returns (r: Result<map<string, string>, LoadError>)
    ensures r == Load(header, rows)
  {
    var missing := Absent(header);
    if missing != [] {
      return Failure(MissingColumns(missing));
    }
    var mapping: map<string, string> := map[];
    var i := 0;
    while i < |rows|
      invariant 0 <= i <= |rows|
      invariant mapping == Table(rows[..i])
    {
      var row := rows[i];
      var tid := Strip(Cell(row, "id"));
      var ru := Strip(Cell(row, "russian"));
      if tid != "" && ru != "" {
        mapping := mapping[tid := ru];
      }
      assert rows[..i + 1][..i] == rows[..i];
      i := i + 1;
    }
    assert rows[..i] == rows;
    return Success(mapping);
  }

  /** Loading fails exactly when a required column is absent, and then
      names every absent column. */
  lemma LoadFailsIffColumnAbsent(header: Option<seq<string>>, rows: seq<Row>)
    ensures Load(header, rows).Failure? <==>
              exists c :: c in Required && (header.None? || c !in header.value)
    ensures Load(header, rows).Failure? ==>
              forall c :: c in Load(header, rows).error.columns <==>
                c in Required && (header.None? || c !in header.value)
  {
    var missing := Absent(header);
    if exists c :: c in Required && (header.None? || c !in header.value) {
      var c :| c in Required && (header.None? || c !in header.value);
      assert c in missing;
    }
    if missing != [] {
      assert missing[0] in missing;
    }
  }

  /** Every key and every value of the table is non-empty and stripped. */
  lemma {:induction false} TableClean(rows: seq<Row>)
    ensures forall k :: k in Table(rows) ==>
              k != "" && IsStripped(k) && Table(rows)[k] != "" && IsStripped(Table(rows)[k])
  {
    if rows != [] {
      TableClean(rows[..|rows| - 1]);
      var row := rows[|rows| - 1];
      StripSpec(Cell(row, "id"));
      StripSpec(Cell(row, "russian"));
    }
  }

  /** The ids of the kept rows. */
  function KeptIds(rows: seq<Row>): set<string>
  {
    set i | 0 <= i < |rows| && Kept(rows[i]) :: RowId(rows[i])
  }

  /** The kept ids of a non-empty list of rows: those of all rows but the
      last, and the last row's id when it is kept. */
  lemma KeptIdsSnoc(rows: seq<Row>)
    requires rows != []
    ensures KeptIds(rows) == KeptIds(rows[..|rows| - 1]) + LastKeptId(rows)
  {
    KeptIdsGrow(rows);
    KeptIdsShrink(rows);
  }

  function LastKeptId(rows: seq<Row>): set<string>
    requires rows != []
  {
    var last := rows[|rows| - 1];
    if Kept(last) then {RowId(last)} else {}
  }

  lemma KeptIdsGrow(rows: seq<Row>)
    requires rows != []
    ensures KeptIds(rows[..|rows| - 1]) + LastKeptId(rows) <= KeptIds(rows)
  {
    var init := rows[..|rows| - 1];
    forall k | k in KeptIds(init) ensures k in KeptIds(rows) {
      var i :| 0 <= i < |init| && Kept(init[i]) && RowId(init[i]) == k;
      assert rows[i] == init[i];
    }
  }

  lemma KeptIdsShrink(rows: seq<Row>)
    requires rows != []
    ensures KeptIds(rows) <= KeptIds(rows[..|rows| - 1]) + LastKeptId(rows)
  {
    var init := rows[..|rows| - 1];
    forall k | k in KeptIds(rows) ensures k in KeptIds(init) + LastKeptId(rows) {
      var i :| 0 <= i < |rows| && Kept(rows[i]) && RowId(rows[i]) == k;
      if i < |init| {
        assert init[i] == rows[i];
        assert k in KeptIds(init);
      } else {
        assert rows[i] == rows[|rows| - 1];
        assert k in LastKeptId(rows);
      }
    }
  }

  /** The keys of the table are exactly the ids of the kept rows. */
  lemma {:induction false} TableKeys(rows: seq<Row>)
    ensures Table(rows).Keys == KeptIds(rows)
  {
    if rows != [] {
      TableKeys(rows[..|rows| - 1]);
      KeptIdsSnoc(rows);
    }
  }

  /** The last kept row with a given id decides that id's text. */
  lemma {:induction false} TableLastWins(rows: seq<Row>, i: nat)
    requires i < |rows| && Kept(rows[i])
    requires forall j :: i < j < |rows| && Kept(rows[j]) ==> RowId(rows[j]) != RowId(rows[i])
    ensures RowId(rows[i]) in Table(rows) && Table(rows)[RowId(rows[i])] == RowText(rows[i])
  {
    if i < |rows| - 1 {
      var init := rows[..|rows| - 1];
      assert init[i] == rows[i];
      forall j | i < j < |init| && Kept(init[j]) ensures RowId(init[j]) != RowId(init[i]) {
        assert init[j] == rows[j];
      }
      TableLastWins(init, i);
    }
  }
}
