/** The cleaning pipeline of utils/transform.py. The pure functions state
    what each step and the whole of clean_data do to a table; the
    DataFrame class performs the same steps in place, as the pandas code
    does, and each of its methods is proved to agree with its function. */
module Transform {
  import opened Wrappers
  import opened Errors
  import opened Text
  import Dates
  import opened Tables

  // ---------------------------------------------------------------------
  // Column-wise text operations

  /** The per-cell functions that clean_data passes to Series.apply. */
  datatype TextOp =
    | StripLower     // strip_and_lower_str
    | RemoveEscapes  // re.sub('\\\\.\w{1,3}', '', x)
    | StripOnly      // x.strip()        (transform.py)
    | LegacyEscapes  // re.sub('\\\\.*(\s|$)', '', x)   (transform.py)
    | LowerOnly      // x.lower()        (transform.py)

  function ApplyOp(op: TextOp, s: string): string {
    match op
    case StripLower => StripAndLower(s)
    case RemoveEscapes => RemoveUndecoded(s)
    case StripOnly => Strip(s)
    case LegacyEscapes => StripFromBackslash(s)
    case LowerOnly => Lower(s)
  }

  /** The exception the operation raises on a null cell: a missing
      attribute for the string methods, a type error inside re.sub. */
  function NullError(op: TextOp): PyError {
    match op
    case StripLower => AttributeError("strip")
    case StripOnly => AttributeError("strip")
    case LowerOnly => AttributeError("lower")
    case RemoveEscapes => TypeError
    case LegacyEscapes => TypeError
  }

  /** The exception raised when the column does not exist: remove_undecoded_chars
      indexes the frame (df[col]); every other call site reads an attribute
      (df.title, df.journal, df.drug). */
  function MissingError(op: TextOp, col: string): PyError {
    if op == RemoveEscapes then KeyError(col) else AttributeError(col)
  }

  function ApplyToCell(op: TextOp, c: Cell): Cell {
    if c.Some? then Some(ApplyOp(op, c.value)) else None
  }

  function ApplyToRows(rows: seq<Row>, col: string, op: TextOp): (r: seq<Row>)
    ensures |r| == |rows|
  {
    seq(|rows|, k requires 0 <= k < |rows| => rows[k][col := ApplyToCell(op, Get(rows[k], col))])
  }

  /** df[col] = df[col].apply(op). */
  function Applied(t: Table, col: string, op: TextOp): Result<Table, PyError> {
    if col !in t.columns then Err(MissingError(op, col))
    else if HasNull(t.rows, col) then Err(NullError(op))
    else Ok(Table(t.columns, ApplyToRows(t.rows, col, op)))
  }

  /** The operation fails exactly on a missing column or a null cell, and
      otherwise keeps the table's shape. */
  lemma AppliedSpec(t: Table, col: string, op: TextOp)
    requires WellFormed(t)
    ensures Applied(t, col, op).Err? <==> col !in t.columns || HasNull(t.rows, col)
    ensures Applied(t, col, op).Ok? ==>
              var r := Applied(t, col, op).value;
              WellFormed(r) && r.columns == t.columns && |r.rows| == |t.rows|
  {
    if Applied(t, col, op).Ok? {
      var r := Applied(t, col, op).value;
      forall k | 0 <= k < |t.rows|
        ensures r.rows[k].Keys == ColumnSet(r.columns)
      {
        assert col in ColumnSet(t.columns);
      }
    }
  }

  /** When the operation succeeds, each cell of the column is the
      operation applied to the old cell, and the row's other cells are
      as before. */
  lemma AppliedRow(t: Table, col: string, op: TextOp, k: nat)
    requires Applied(t, col, op).Ok? && k < |t.rows|
    ensures var r := Applied(t, col, op).value;
            && Get(t.rows[k], col).Some?
            && Get(r.rows[k], col) == Some(ApplyOp(op, Get(t.rows[k], col).value))
            && forall d :: d != col ==> Get(r.rows[k], d) == Get(t.rows[k], d)
  {
    assert !Get(t.rows[k], col).None?;
  }

  // ---------------------------------------------------------------------
  // uniform_dates

  /** pd.to_datetime(x).strftime('%d/%m/%Y') on one cell: a null cell has no
      strftime, a text no format recognises makes the parser raise. */
  function RenderDate(c: Cell, parse: Dates.DateParser): Result<string, PyError> {
    if c.None? then Err(AttributeError("strftime"))
    else if parse(c.value).None? then Err(DateParseError(c.value))
    else Ok(Dates.Render(parse(c.value).value))
  }

  /** The date column re-rendered row by row; the first row that fails
      decides the error. */
  function RenderDates(rows: seq<Row>, parse: Dates.DateParser): (r: Result<seq<Row>, PyError>)
    ensures r.Ok? ==> |r.value| == |rows|
  {
    if rows == [] then Ok([])
    else
      var init :- RenderDates(rows[..|rows| - 1], parse);
      var d :- RenderDate(Get(rows[|rows| - 1], "date"), parse);
      Ok(init + [rows[|rows| - 1]["date" := Some(d)]])
  }

  /** The rendering fails exactly when some row's date cell fails, and then
      with the error of the first such row; otherwise each row gets its
      rendered date and nothing else changes. */
  lemma RenderDatesSpec(rows: seq<Row>, parse: Dates.DateParser)
    ensures RenderDates(rows, parse).Err? <==> exists k :: 0 <= k < |rows| && RenderDate(Get(rows[k], "date"), parse).Err?
    ensures RenderDates(rows, parse).Err? ==>
              exists k :: 0 <= k < |rows| && RenderDate(Get(rows[k], "date"), parse) == Err(RenderDates(rows, parse).error)
                          && forall j :: 0 <= j < k ==> RenderDate(Get(rows[j], "date"), parse).Ok?
    ensures RenderDates(rows, parse).Ok? ==>
              forall k :: 0 <= k < |rows| ==>
                RenderDates(rows, parse).value[k] == rows[k]["date" := Some(RenderDate(Get(rows[k], "date"), parse).value)]
  {
    RenderDatesErr(rows, parse);
    RenderDatesOk(rows, parse);
  }

  lemma {:induction false} RenderDatesErr(rows: seq<Row>, parse: Dates.DateParser)
    ensures RenderDates(rows, parse).Err? <==> exists k :: 0 <= k < |rows| && RenderDate(Get(rows[k], "date"), parse).Err?
    ensures RenderDates(rows, parse).Err? ==>
              exists k :: 0 <= k < |rows| && RenderDate(Get(rows[k], "date"), parse) == Err(RenderDates(rows, parse).error)
                          && forall j :: 0 <= j < k ==> RenderDate(Get(rows[j], "date"), parse).Ok?
  {
    if rows != [] {
      var init := rows[..|rows| - 1];
      RenderDatesErr(init, parse);
      assert forall k :: 0 <= k < |init| ==> init[k] == rows[k];
      if RenderDates(init, parse).Err? {
        var k :| 0 <= k < |init| && RenderDate(Get(init[k], "date"), parse) == Err(RenderDates(init, parse).error)
                 && forall j :: 0 <= j < k ==> RenderDate(Get(init[j], "date"), parse).Ok?;
        assert RenderDate(Get(rows[k], "date"), parse) == Err(RenderDates(rows, parse).error);
      }
    }
  }

  lemma {:induction false} RenderDatesOk(rows: seq<Row>, parse: Dates.DateParser)
    ensures RenderDates(rows, parse).Ok? ==> forall k :: 0 <= k < |rows| ==> RenderDate(Get(rows[k], "date"), parse).Ok?
    ensures RenderDates(rows, parse).Ok? ==>
              forall k :: 0 <= k < |rows| ==>
                RenderDates(rows, parse).value[k] == rows[k]["date" := Some(RenderDate(Get(rows[k], "date"), parse).value)]
  {
    if rows != [] {
      var init := rows[..|rows| - 1];
      RenderDatesOk(init, parse);
      assert forall k :: 0 <= k < |init| ==> init[k] == rows[k];
    }
  }

  /** uniform_dates: AttributeError when the table has no date column. */
  function UniformDated(t: Table, parse: Dates.DateParser): Result<Table, PyError> {
    if "date" !in t.columns then Err(AttributeError("date"))
    else
      var rows :- RenderDates(t.rows, parse);
      Ok(Table(t.columns, rows))
  }

  /** A re-dated table keeps its shape, and every date cell now holds the
      DD/MM/YYYY rendering of the date the parser read from the old cell. */
  lemma UniformDatedSpec(t: Table, parse: Dates.DateParser)
    requires WellFormed(t)
    ensures UniformDated(t, parse).Ok? ==>
              var r := UniformDated(t, parse).value;
              && WellFormed(r) && r.columns == t.columns && |r.rows| == |t.rows|
              && forall k :: 0 <= k < |t.rows| ==>
                   && Get(t.rows[k], "date").Some?
                   && parse(Get(t.rows[k], "date").value).Some?
                   && Get(r.rows[k], "date") == Some(Dates.Render(parse(Get(t.rows[k], "date").value).value))
                   && (forall d :: d != "date" ==> Get(r.rows[k], d) == Get(t.rows[k], d))
  {
    RenderDatesSpec(t.rows, parse);
    if UniformDated(t, parse).Ok? {
      var r := UniformDated(t, parse).value;
      forall k | 0 <= k < |t.rows|
        ensures r.rows[k].Keys == ColumnSet(r.columns)
        ensures RenderDate(Get(t.rows[k], "date"), parse).Ok?
      {
        assert "date" in ColumnSet(t.columns);
      }
    }
  }

  // ---------------------------------------------------------------------
  // clean_data

  /** The title branch of clean_data (lines 92-100). */
  function CleanTitled(t: Table, parse: Dates.DateParser): Result<Table, PyError> {
    var t1 :- TitlesAtLeast(t, 1);
    var t2 :- Deduplicated(t1, "title");
    var t6 :- NormalisedTexts(t2);
    UniformDated(t6, parse)
  }

  /** Lines 94-98: title and journal stripped and lowercased, then cleared
      of escapes. */
  function NormalisedTexts(t: Table): Result<Table, PyError> {
    var t3 :- Applied(t, "title", StripLower);
    var t4 :- Applied(t3, "journal", StripLower);
    var t5 :- Applied(t4, "title", RemoveEscapes);
    Applied(t5, "journal", RemoveEscapes)
  }

  /** The title and journal of each row are normalised; nothing else changes. */
  lemma NormalisedTextsRows(t: Table)
    requires WellFormed(t) && NormalisedTexts(t).Ok?
    ensures var r := NormalisedTexts(t).value;
            && WellFormed(r) && r.columns == t.columns && |r.rows| == |t.rows|
            && forall k :: 0 <= k < |t.rows| ==>
                 && TitleOf(t.rows[k]).Some? && Get(t.rows[k], "journal").Some?
                 && TitleOf(r.rows[k]) == Some(RemoveUndecoded(StripAndLower(TitleOf(t.rows[k]).value)))
                 && Get(r.rows[k], "journal") == Some(RemoveUndecoded(StripAndLower(Get(t.rows[k], "journal").value)))
                 && forall d :: d != "title" && d != "journal" ==> Get(r.rows[k], d) == Get(t.rows[k], d)
  {
    var t3 := Applied(t, "title", StripLower).value;
    AppliedSpec(t, "title", StripLower);
    var t4 := Applied(t3, "journal", StripLower).value;
    AppliedSpec(t3, "journal", StripLower);
    var t5 := Applied(t4, "title", RemoveEscapes).value;
    AppliedSpec(t4, "title", RemoveEscapes);
    AppliedSpec(t5, "journal", RemoveEscapes);
    forall k | 0 <= k < |t.rows|
      ensures TitleOf(t.rows[k]).Some? && Get(t.rows[k], "journal").Some?
      ensures TitleOf(NormalisedTexts(t).value.rows[k]) == Some(RemoveUndecoded(StripAndLower(TitleOf(t.rows[k]).value)))
      ensures Get(NormalisedTexts(t).value.rows[k], "journal") == Some(RemoveUndecoded(StripAndLower(Get(t.rows[k], "journal").value)))
      ensures forall d :: d != "title" && d != "journal" ==> Get(NormalisedTexts(t).value.rows[k], d) == Get(t.rows[k], d)
    {
      NormalisedRow(t, k);
    }
  }

  /** One row of NormalisedTextsRows. */
  lemma NormalisedRow(t: Table, k: nat)
    requires NormalisedTexts(t).Ok? && k < |t.rows|
    ensures TitleOf(t.rows[k]).Some? && Get(t.rows[k], "journal").Some?
    ensures TitleOf(NormalisedTexts(t).value.rows[k]) == Some(RemoveUndecoded(StripAndLower(TitleOf(t.rows[k]).value)))
    ensures Get(NormalisedTexts(t).value.rows[k], "journal") == Some(RemoveUndecoded(StripAndLower(Get(t.rows[k], "journal").value)))
    ensures forall d :: d != "title" && d != "journal" ==> Get(NormalisedTexts(t).value.rows[k], d) == Get(t.rows[k], d)
  {
    var t3 := Applied(t, "title", StripLower).value;
    var t4 := Applied(t3, "journal", StripLower).value;
    var t5 := Applied(t4, "title", RemoveEscapes).value;
    AppliedRow(t, "title", StripLower, k);
    AppliedRow(t3, "journal", StripLower, k);
    AppliedRow(t4, "title", RemoveEscapes, k);
    AppliedRow(t5, "journal", RemoveEscapes, k);
  }

  /** The drugs branch of clean_data (lines 104-105). */
  function CleanDrugs(t: Table): Result<Table, PyError> {
    var t1 :- Deduplicated(t, "atccode");
    Applied(t1, "drug", StripLower)
  }

  /** The table clean_data starts its title or drugs branch from: "nan"
      texts made null, and a clinical-trials table renamed and merged by
      title. */
  function Prepared(t: Table): Table {
    var t0 := NanFixed(t);
    if "scientific_title" in t0.columns then GroupsMerged(Renamed(t0, "scientific_title", "title"), "title")
    else t0
  }

  /** clean_data as a function of the input table. */
  function Cleaned(t: Table, parse: Dates.DateParser): Result<Table, PyError> {
    var p := Prepared(t);
    if "title" in p.columns then CleanTitled(p, parse) else CleanDrugs(p)
  }

  /** The rows the title branch keeps: the first row of each non-empty
      title, before any text is normalised. */
  function TitleSurvivors(rows: seq<Row>): seq<Row> {
    KeepFirst(LongTitles(rows, 1), "title")
  }

  lemma SurvivorsFromTable(t: Table)
    requires WellFormed(t)
    ensures forall x :: x in TitleSurvivors(t.rows) ==> x in t.rows && LongTitle(x, 1) && x.Keys == ColumnSet(t.columns)
  {
    forall x | x in TitleSurvivors(t.rows)
      ensures x in t.rows && LongTitle(x, 1) && x.Keys == ColumnSet(t.columns)
    {
      var k :| 0 <= k < |t.rows| && t.rows[k] == x;
    }
  }

  /** What the title branch does to each surviving row: title and journal
      are stripped, lowercased and cleared of escapes, the date is
      re-rendered, and every other cell is kept. The branch fails when a
      survivor's journal or date cannot be cleaned. */
  lemma CleanTitledRows(t: Table, parse: Dates.DateParser)
    requires WellFormed(t) && CleanTitled(t, parse).Ok?
    ensures var r := CleanTitled(t, parse).value;
            var kept := TitleSurvivors(t.rows);
            && WellFormed(r) && r.columns == t.columns && |r.rows| == |kept|
            && forall k :: 0 <= k < |kept| ==>
                 && TitleOf(kept[k]).Some? && Get(kept[k], "journal").Some? && Get(kept[k], "date").Some?
                 && parse(Get(kept[k], "date").value).Some?
                 && TitleOf(r.rows[k]) == Some(RemoveUndecoded(StripAndLower(TitleOf(kept[k]).value)))
                 && Get(r.rows[k], "journal") == Some(RemoveUndecoded(StripAndLower(Get(kept[k], "journal").value)))
                 && Get(r.rows[k], "date") == Some(Dates.Render(parse(Get(kept[k], "date").value).value))
                 && forall d :: d != "title" && d != "journal" && d != "date" ==> Get(r.rows[k], d) == Get(kept[k], d)
  {
    FilteredTable(t);
    var t2 := Table(t.columns, TitleSurvivors(t.rows));
    NormalisedTextsRows(t2);
    UniformDatedSpec(NormalisedTexts(t2).value, parse);
  }

  /** The first two steps of the title branch leave the survivors, in a
      well-formed frame. */
  lemma FilteredTable(t: Table)
    requires WellFormed(t) && TitlesAtLeast(t, 1).Ok?
    ensures Deduplicated(TitlesAtLeast(t, 1).value, "title") == Ok(Table(t.columns, TitleSurvivors(t.rows)))
    ensures WellFormed(Table(t.columns, TitleSurvivors(t.rows)))
  {
    SurvivorsFromTable(t);
  }

  /** After the title branch no title or journal holds an upper-case
      letter, and every date reads back as a DD/MM/YYYY date. */
  lemma CleanTitledShape(t: Table, parse: Dates.DateParser)
    requires WellFormed(t) && CleanTitled(t, parse).Ok?
    ensures var r := CleanTitled(t, parse).value;
            forall k :: 0 <= k < |r.rows| ==>
              && TitleOf(r.rows[k]).Some? && NoUpper(TitleOf(r.rows[k]).value)
              && Get(r.rows[k], "journal").Some? && NoUpper(Get(r.rows[k], "journal").value)
              && Get(r.rows[k], "date").Some? && Dates.ReadRendered(Get(r.rows[k], "date").value).Some?
  {
    CleanTitledRows(t, parse);
    var r := CleanTitled(t, parse).value;
    var kept := TitleSurvivors(t.rows);
    forall k | 0 <= k < |r.rows|
      ensures NoUpper(TitleOf(r.rows[k]).value) && NoUpper(Get(r.rows[k], "journal").value)
      ensures Dates.ReadRendered(Get(r.rows[k], "date").value).Some?
    {
      RemoveUndecodedNoUpper(StripAndLower(TitleOf(kept[k]).value));
      RemoveUndecodedNoUpper(StripAndLower(Get(kept[k], "journal").value));
      Dates.RenderRoundTrip(parse(Get(kept[k], "date").value).value);
    }
  }

  /** The title branch fails with TypeError on a null title (len is taken
      before anything else), and with AttributeError when there is no
      journal column. */
  lemma CleanTitledErrors(t: Table, parse: Dates.DateParser)
    requires WellFormed(t) && "title" in t.columns
    ensures HasNull(t.rows, "title") ==> CleanTitled(t, parse) == Err(TypeError)
    ensures !HasNull(t.rows, "title") && "journal" !in t.columns ==> CleanTitled(t, parse) == Err(AttributeError("journal"))
  {
    if !HasNull(t.rows, "title") {
      var t1 := TitlesAtLeast(t, 1).value;
      var t2 := Deduplicated(t1, "title").value;
      forall k | 0 <= k < |t2.rows| ensures Get(t2.rows[k], "title").Some? {
        assert t2.rows[k] in t1.rows;
      }
    }
  }

  /** A row whose title is non-empty and carried by no other row survives
      the title filter and the deduplication. */
  lemma UniqueTitleSurvives(rows: seq<Row>, x: Row)
    requires forall k :: 0 <= k < |rows| ==> TitleOf(rows[k]).Some?
    requires x in rows && LongTitle(x, 1)
    requires forall y :: y in rows && TitleOf(y) == TitleOf(x) ==> y == x
    ensures x in TitleSurvivors(rows)
  {
    var t1 := LongTitles(rows, 1);
    var kept := KeepFirst(t1, "title");
    KeepFirstKeys(t1, "title", DedupKey(x, "title"));
    assert KeySeen(t1, "title", DedupKey(x, "title")) by {
      var j :| 0 <= j < |t1| && t1[j] == x;
    }
    var j :| 0 <= j < |kept| && DedupKey(kept[j], "title") == DedupKey(x, "title");
    var y := kept[j];
    assert y in rows;
    assert TitleOf(y).Some? by {
      var m :| 0 <= m < |rows| && rows[m] == y;
    }
    SameKeySameCell(y, x, "title");
    assert y == x;
  }

  /** A surviving row with a null journal makes strip fail: the title
      branch ends in AttributeError('strip'). */
  lemma NullJournalFails(t: Table, parse: Dates.DateParser, x: Row)
    requires WellFormed(t) && "title" in t.columns && "journal" in t.columns
    requires forall k :: 0 <= k < |t.rows| ==> TitleOf(t.rows[k]).Some?
    requires x in TitleSurvivors(t.rows) && Get(x, "journal") == None
    ensures CleanTitled(t, parse) == Err(AttributeError("strip"))
  {
    SurvivorsFromTable(t);
    var t1 := TitlesAtLeast(t, 1).value;
    var t2 := Deduplicated(t1, "title").value;
    assert t2.rows == TitleSurvivors(t.rows);
    forall k | 0 <= k < |t2.rows| ensures TitleOf(t2.rows[k]).Some? {
      assert t2.rows[k] in t.rows;
    }
    assert !HasNull(t2.rows, "title");
    var j :| 0 <= j < |t2.rows| && t2.rows[j] == x;
    var t3 := Applied(t2, "title", StripLower).value;
    AppliedRow(t2, "title", StripLower, j);
    assert Get(t3.rows[j], "journal") == None;
  }

  /** A journal cell holding the text "nan" is made null by fix_nan and then
      makes strip fail: a row whose title is non-empty and unique and whose
      journal is "nan" turns the whole clean into AttributeError('strip'),
      not into an empty journal. */
  lemma NanJournalFails(t: Table, parse: Dates.DateParser, i: nat)
    requires WellFormed(t) && "title" in t.columns && "journal" in t.columns && "scientific_title" !in t.columns
    requires forall k :: 0 <= k < |t.rows| ==> TitleOf(t.rows[k]).Some? && TitleOf(t.rows[k]) != Some("nan")
    requires i < |t.rows| && |TitleOf(t.rows[i]).value| >= 1 && Get(t.rows[i], "journal") == Some("nan")
    requires forall k :: 0 <= k < |t.rows| && k != i ==> TitleOf(t.rows[k]) != TitleOf(t.rows[i])
    ensures Cleaned(t, parse) == Err(AttributeError("strip"))
  {
    NanFixedCells(t);
    var p := NanFixed(t);
    assert Prepared(t) == p;
    var z := p.rows[i];
    assert Get(z, "journal") == None;
    UniqueAfterNanFix(t, i);
    UniqueTitleSurvives(p.rows, z);
    NullJournalFails(p, parse, z);
  }

  /** A title no other row carries stays unique after fix_nan. */
  lemma UniqueAfterNanFix(t: Table, i: nat)
    requires WellFormed(t) && "title" in t.columns
    requires forall k :: 0 <= k < |t.rows| ==> TitleOf(t.rows[k]) != Some("nan")
    requires i < |t.rows| && forall k :: 0 <= k < |t.rows| && k != i ==> TitleOf(t.rows[k]) != TitleOf(t.rows[i])
    ensures var p := NanFixed(t);
            && |p.rows| == |t.rows|
            && (forall k :: 0 <= k < |p.rows| ==> TitleOf(p.rows[k]).Some? == TitleOf(t.rows[k]).Some?)
            && TitleOf(p.rows[i]) == TitleOf(t.rows[i])
            && forall y :: y in p.rows && TitleOf(y) == TitleOf(p.rows[i]) ==> y == p.rows[i]
  {
    NanFixedCells(t);
    NanFixedTitles(t);
    var p := NanFixed(t);
    forall y | y in p.rows && TitleOf(y) == TitleOf(p.rows[i]) ensures y == p.rows[i] {
      var k :| 0 <= k < |p.rows| && p.rows[k] == y;
      assert TitleOf(t.rows[k]) == TitleOf(t.rows[i]);
    }
  }

  /** fix_nan leaves titles other than "nan" as they are. */
  lemma NanFixedTitles(t: Table)
    requires WellFormed(t) && "title" in t.columns
    requires forall k :: 0 <= k < |t.rows| ==> TitleOf(t.rows[k]) != Some("nan")
    ensures forall k :: 0 <= k < |t.rows| ==> TitleOf(NanFixed(t).rows[k]) == TitleOf(t.rows[k])
  {
    NanFixedCells(t);
    forall k | 0 <= k < |t.rows| ensures TitleOf(NanFixed(t).rows[k]) == TitleOf(t.rows[k]) {
      assert Get(NanFixed(t).rows[k], "title") == Get(t.rows[k], "title");
    }
  }

  /** The documented order is "strip, then drop empty titles", but the code
      drops empty titles first: a title made only of whitespace survives the
      filter and comes out as the empty text. */
  lemma BlankTitleBecomesEmpty(s: string)
    requires |s| >= 1 && forall k :: 0 <= k < |s| ==> IsSpace(s[k])
    ensures LongTitle(map["title" := Some(s)], 1)
    ensures RemoveUndecoded(StripAndLower(s)) == ""
  {
    StripAllSpaces(s);
  }

  /** Two rows with different non-empty titles both survive. */
  lemma TwoTitlesSurvive(a: Row, b: Row)
    requires LongTitle(a, 1) && LongTitle(b, 1) && TitleOf(a) != TitleOf(b)
    ensures TitleSurvivors([a, b]) == [a, b]
  {
    var rows := [a, b];
    assert rows[..1] == [a];
    assert [a][..0] == [];
    assert LongTitles([a], 1) == [a];
    assert LongTitles(rows, 1) == rows;
    assert KeepFirst([a], "title") == [a];
    assert DedupKey(a, "title") != DedupKey(b, "title") by {
      assert DedupKey(a, "title")["title"] == a["title"];
      assert DedupKey(b, "title")["title"] == b["title"];
    }
    assert !KeySeen([a], "title", DedupKey(b, "title"));
  }

  /** drop_duplicates compares titles before they are normalised, so two
      rows whose titles differ only in case both survive and then carry the
      same title. */
  lemma TitlesMayRepeat()
    ensures var rows := [map["title" := Some("Aspirin")], map["title" := Some("aspirin")]];
            && TitleSurvivors(rows) == rows
            && StripAndLower("Aspirin") == StripAndLower("aspirin")
  {
    var a: Row := map["title" := Some("Aspirin")];
    var b: Row := map["title" := Some("aspirin")];
    assert TitleOf(a) != TitleOf(b) by {
      assert "Aspirin"[0] != "aspirin"[0];
    }
    TwoTitlesSurvive(a, b);
    SameWordLowered();
  }

  lemma SameWordLowered()
    ensures StripAndLower("Aspirin") == "aspirin" == StripAndLower("aspirin")
  {
    CapitalisedWordLowered();
    LowercaseWordKept();
  }

  lemma CapitalisedWordLowered()
    ensures StripAndLower("Aspirin") == "aspirin"
  {
    StripUnpadded("Aspirin");
    assert Lower("Aspirin") == "aspirin";
  }

  lemma LowercaseWordKept()
    ensures StripAndLower("aspirin") == "aspirin"
  {
    StripUnpadded("aspirin");
    LowerShape("aspirin");
  }

  /** The drugs branch keeps the first row of each atccode, so the codes
      are distinct, and strips and lowercases each kept drug name. */
  lemma CleanDrugsRows(t: Table)
    requires WellFormed(t) && CleanDrugs(t).Ok?
    ensures var r := CleanDrugs(t).value;
            var kept := KeepFirst(t.rows, "atccode");
            && WellFormed(r) && r.columns == t.columns && |r.rows| == |kept|
            && (forall i, j :: 0 <= i < j < |r.rows| ==> Get(r.rows[i], "atccode") != Get(r.rows[j], "atccode"))
            && forall k :: 0 <= k < |kept| ==>
                 && Get(kept[k], "drug").Some?
                 && Get(r.rows[k], "drug") == Some(StripAndLower(Get(kept[k], "drug").value))
                 && forall d :: d != "drug" ==> Get(r.rows[k], d) == Get(kept[k], d)
  {
    DeduplicatedDistinct(t, "atccode");
    var t1 := Deduplicated(t, "atccode").value;
    AppliedSpec(t1, "drug", StripLower);
    forall k | 0 <= k < |t1.rows|
      ensures Get(t1.rows[k], "drug").Some?
      ensures Get(CleanDrugs(t).value.rows[k], "drug") == Some(StripAndLower(Get(t1.rows[k], "drug").value))
      ensures forall d :: d != "drug" ==> Get(CleanDrugs(t).value.rows[k], d) == Get(t1.rows[k], d)
    {
      AppliedRow(t1, "drug", StripLower, k);
    }
  }

  /** The drugs branch fails with KeyError without an atccode column, with
      AttributeError without a drug column. */
  lemma CleanDrugsErrors(t: Table)
    requires WellFormed(t)
    ensures "atccode" !in t.columns ==> CleanDrugs(t) == Err(KeyError("atccode"))
    ensures "atccode" in t.columns && "drug" !in t.columns ==> CleanDrugs(t) == Err(AttributeError("drug"))
  {
  }

  /** After fix_nan and the rename, the titles are the scientific titles
      other than "nan". */
  lemma RenamedTitles(t: Table)
    requires WellFormed(t) && "scientific_title" in t.columns && "title" !in t.columns
    ensures var m := Renamed(NanFixed(t), "scientific_title", "title");
            && WellFormed(m) && "title" in m.columns && "scientific_title" !in m.columns
            && forall x :: HasValue(m.rows, "title", x) <==> x != "nan" && HasValue(t.rows, "scientific_title", x)
  {
    NanFixedCells(t);
    var n := NanFixed(t);
    RenamedCells(n, "scientific_title", "title");
    var m := Renamed(n, "scientific_title", "title");
    forall x
      ensures HasValue(m.rows, "title", x) <==> x != "nan" && HasValue(t.rows, "scientific_title", x)
    {
      if HasValue(m.rows, "title", x) {
        var k :| 0 <= k < |m.rows| && Get(m.rows[k], "title") == Some(x);
        assert Get(n.rows[k], "scientific_title") == Some(x);
      }
      if x != "nan" && HasValue(t.rows, "scientific_title", x) {
        var k :| 0 <= k < |t.rows| && Get(t.rows[k], "scientific_title") == Some(x);
        assert Get(m.rows[k], "title") == Some(x);
      }
    }
  }

  /** A clinical-trials table is renamed and merged: the result has a title
      column and no scientific_title, one row per distinct title, and its
      titles are exactly the non-null scientific titles of the input other
      than "nan". */
  lemma PreparedTrials(t: Table)
    requires WellFormed(t) && "scientific_title" in t.columns && "title" !in t.columns
    ensures var p := Prepared(t);
            && WellFormed(p) && "title" in p.columns && "scientific_title" !in p.columns
            && (forall i, j :: 0 <= i < j < |p.rows| ==> TitleOf(p.rows[i]) != TitleOf(p.rows[j]))
            && (forall k :: 0 <= k < |p.rows| ==> TitleOf(p.rows[k]).Some?)
            && forall x :: HasValue(p.rows, "title", x) <==> x != "nan" && HasValue(t.rows, "scientific_title", x)
  {
    RenamedTitles(t);
    var m := Renamed(NanFixed(t), "scientific_title", "title");
    GroupsMergedKeys(m, "title");
    assert Prepared(t) == GroupsMerged(m, "title");
  }

  // ---------------------------------------------------------------------
  // The frame the pandas code mutates

  class DataFrame {
    var columns: seq<string>
    var rows: seq<Row>

    ghost predicate Valid()
      reads this
    {
      WellFormed(Table(columns, rows))
    }

    function Value(): Table
      reads this
    {
      Table(columns, rows)
    }

    constructor (t: Table)
      requires WellFormed(t)
      ensures Valid() && Value() == t
    {
      columns := t.columns;
      rows := t.rows;
    }

    /** fix_nan: column by column, every "nan" cell becomes null. */
    method FixNan()
      requires Valid()
      modifies this
      ensures Valid() && Value() == NanFixed(old(Value()))
    {
      NanFixedCells(Value());
      ghost var original := rows;
      FixNanRowsNone(rows);
      assert ColumnSet(columns[..0]) == {};
      var i := 0;
      while i < |columns|
        invariant 0 <= i <= |columns|
        invariant columns == old(columns)
        invariant rows == FixNanRows(original, ColumnSet(columns[..i]))
      {
        var c := columns[i];
        rows := FixNanRows(rows, {c});
        FixNanRowsStep(original, ColumnSet(columns[..i]), c);
        assert ColumnSet(columns[..i + 1]) == ColumnSet(columns[..i]) + {c} by {
          assert columns[..i + 1] == columns[..i] + [c];
        }
        i := i + 1;
      }
      assert columns[..i] == columns;
    }

    /** rename_title: the column oldName takes the label "title"; a missing
        oldName leaves the frame as it is. A frame holding both labels is
        outside the model, since pandas would then carry two columns named
        "title". */
    method RenameTitle(oldName: string)
      requires Valid()
      requires oldName in columns && oldName != "title" ==> "title" !in columns
      modifies this
      ensures Valid() && Value() == Renamed(old(Value()), oldName, "title")
    {
      var t := Renamed(Value(), oldName, "title");
      RenamedWellFormed(Value(), oldName, "title");
      columns, rows := t.columns, t.rows;
    }

    /** drop_duplicates_df: keep the first row of each key; an empty subset
        compares whole rows. On an error the frame is left as it was. */
    method DropDuplicates(subset: string) returns (err: Option<PyError>)
      requires Valid()
      modifies this
      ensures Valid()
      ensures Deduplicated(old(Value()), subset).Ok? ==> err == None && Value() == Deduplicated(old(Value()), subset).value
      ensures Deduplicated(old(Value()), subset).Err? ==> err == Some(Deduplicated(old(Value()), subset).error) && Value() == old(Value())
    {
      var r := Deduplicated(Value(), subset);
      if r.Err? {
        return Some(r.error);
      }
      forall x | x in r.value.rows ensures x.Keys == ColumnSet(columns) {
        var k :| 0 <= k < |rows| && rows[k] == x;
      }
      columns, rows := r.value.columns, r.value.rows;
      err := None;
    }

    /** drop_records_with_empty_titles: drop the rows whose title is the
        empty text (and, in transform.py, shorter than three characters). */
    method DropShortTitles(minLen: nat) returns (err: Option<PyError>)
      requires Valid()
      modifies this
      ensures Valid()
      ensures TitlesAtLeast(old(Value()), minLen).Ok? ==> err == None && Value() == TitlesAtLeast(old(Value()), minLen).value
      ensures TitlesAtLeast(old(Value()), minLen).Err? ==> err == Some(TitlesAtLeast(old(Value()), minLen).error) && Value() == old(Value())
    {
      var r := TitlesAtLeast(Value(), minLen);
      if r.Err? {
        return Some(r.error);
      }
      forall x | x in r.value.rows ensures x.Keys == ColumnSet(columns) {
        var k :| 0 <= k < |rows| && rows[k] == x;
      }
      columns, rows := r.value.columns, r.value.rows;
      err := None;
    }

    method DropRecordsWithEmptyTitles() returns (err: Option<PyError>)
      requires Valid()
      modifies this
      ensures Valid()
      ensures TitlesAtLeast(old(Value()), 1).Ok? ==> err == None && Value() == TitlesAtLeast(old(Value()), 1).value
      ensures TitlesAtLeast(old(Value()), 1).Err? ==> err == Some(TitlesAtLeast(old(Value()), 1).error) && Value() == old(Value())
    {
      err := DropShortTitles(1);
    }

    /** df[col] = df[col].apply(op); on an error the frame is left as it was. */
    method ApplyToColumn(col: string, op: TextOp) returns (err: Option<PyError>)
      requires Valid()
      modifies this
      ensures Valid()
      ensures Applied(old(Value()), col, op).Ok? ==> err == None && Value() == Applied(old(Value()), col, op).value
      ensures Applied(old(Value()), col, op).Err? ==> err == Some(Applied(old(Value()), col, op).error) && Value() == old(Value())
    {
      var r := Applied(Value(), col, op);
      AppliedSpec(Value(), col, op);
      if r.Err? {
        return Some(r.error);
      }
      columns, rows := r.value.columns, r.value.rows;
      err := None;
    }

    /** remove_undecoded_chars(df, col). */
    method RemoveUndecodedChars(col: string) returns (err: Option<PyError>)
      requires Valid()
      modifies this
      ensures Valid()
      ensures Applied(old(Value()), col, RemoveEscapes).Ok? ==> err == None && Value() == Applied(old(Value()), col, RemoveEscapes).value
      ensures Applied(old(Value()), col, RemoveEscapes).Err? ==> err == Some(Applied(old(Value()), col, RemoveEscapes).error) && Value() == old(Value())
    {
      err := ApplyToColumn(col, RemoveEscapes);
    }

    /** uniform_dates(df); on an error the frame is left as it was. */
    method UniformDates(parse: Dates.DateParser) returns (err: Option<PyError>)
      requires Valid()
      modifies this
      ensures Valid()
      ensures UniformDated(old(Value()), parse).Ok? ==> err == None && Value() == UniformDated(old(Value()), parse).value
      ensures UniformDated(old(Value()), parse).Err? ==> err == Some(UniformDated(old(Value()), parse).error) && Value() == old(Value())
    {
      var r := UniformDated(Value(), parse);
      UniformDatedSpec(Value(), parse);
      if r.Err? {
        return Some(r.error);
      }
      columns, rows := r.value.columns, r.value.rows;
      err := None;
    }
  }

  /** Renaming keeps a frame well formed whenever it does not create a
      second column with the new label. */
  lemma RenamedWellFormed(t: Table, from: string, to: string)
    requires WellFormed(t)
    requires from in t.columns && from != to ==> to !in t.columns
    ensures WellFormed(Renamed(t, from, to))
  {
    var r := Renamed(t, from, to);
    if from in t.columns && from != to {
      RenamedCells(t, from, to);
    } else if from == to {
      assert r.columns == t.columns;
      forall k | 0 <= k < |t.rows| ensures r.rows[k] == t.rows[k] {
        if from in t.rows[k] {
          assert RenameRow(t.rows[k], from, to) == t.rows[k];
        }
      }
    } else {
      assert r.columns == t.columns;
      forall k | 0 <= k < |t.rows| ensures r.rows[k] == t.rows[k] {
        assert from !in t.rows[k];
      }
    }
  }

  /** fill_group_values(df, c): a new frame with one merged row per
      distinct non-null value of c; groupby raises KeyError when c is not
      a column. */
  method FillGroupValues(df: DataFrame, c: string) returns (r: Result<DataFrame, PyError>)
    requires df.Valid()
    ensures c !in df.columns ==> r == Err(KeyError(c))
    ensures c in df.columns ==> r.Ok? && fresh(r.value) && r.value.Valid() && r.value.Value() == GroupsMerged(df.Value(), c)
  {
    if c !in df.columns {
      return Err(KeyError(c));
    }
    GroupsMergedKeyCells(df.Value(), c);
    var filled := new DataFrame(GroupsMerged(df.Value(), c));
    r := Ok(filled);
  }

  /** clean_data(df): the frame is fixed in place; a clinical-trials frame
      is then replaced by its merged copy, and the title or drugs branch
      runs on whichever frame is current. The frame handed back is the
      input itself unless a scientific_title column made a merged copy. */
  method CleanData(df: DataFrame, parse: Dates.DateParser) returns (r: Result<DataFrame, PyError>)
    requires df.Valid()
    requires !("scientific_title" in df.columns && "title" in df.columns)
    modifies df
    ensures r.Ok? <==> Cleaned(old(df.Value()), parse).Ok?
    ensures r.Ok? ==> r.value.Valid() && r.value.Value() == Cleaned(old(df.Value()), parse).value
    ensures r.Err? ==> r.error == Cleaned(old(df.Value()), parse).error
    ensures r.Ok? && "scientific_title" !in old(df.columns) ==> r.value == df
  {
    df.FixNan();
    var frame := df;
    if "scientific_title" in df.columns {
      df.RenameTitle("scientific_title");
      RenamedCells(NanFixed(old(df.Value())), "scientific_title", "title");
      var filled := FillGroupValues(df, "title");
      frame := filled.value;
    }
    ghost var p := frame.Value();
    assert p == Prepared(old(df.Value()));
    var err: Option<PyError>;
    if "title" in frame.columns {
      err := frame.DropRecordsWithEmptyTitles();
      if err.Some? { return Err(err.value); }
      // the title column exists by now, so this step cannot fail
      err := frame.DropDuplicates("title");
      err := frame.ApplyToColumn("title", StripLower);
      if err.Some? { return Err(err.value); }
      err := frame.ApplyToColumn("journal", StripLower);
      if err.Some? { return Err(err.value); }
      err := frame.RemoveUndecodedChars("title");
      if err.Some? { return Err(err.value); }
      err := frame.RemoveUndecodedChars("journal");
      if err.Some? { return Err(err.value); }
      err := frame.UniformDates(parse);
      if err.Some? { return Err(err.value); }
    } else {
      err := frame.DropDuplicates("atccode");
      if err.Some? { return Err(err.value); }
      err := frame.ApplyToColumn("drug", StripLower);
      if err.Some? { return Err(err.value); }
    }
    r := Ok(frame);
  }
}
