/** The older cleaning pipeline of transform.py. It shares the steps of
    utils/transform.py but orders them differently: duplicates are dropped
    on the raw title, titles are stripped, titles shorter than three
    characters are dropped, escapes are cut with a coarser expression, the
    title is lowercased and the dates are re-rendered. The journal is left
    as it is and a clinical-trials table is only renamed, never merged.
    Its generate_graph is Graph.GenerateGraph with the Legacy variant. */
module LegacyTransform {
  import opened Wrappers
  import opened Errors
  import opened Text
  import Dates
  import opened Tables
  import Transform

  /** The table the title or drugs branch starts from: "nan" texts made
      null and scientific_title renamed to title (lines 26-30). */
  function Prepared(t: Table): Table {
    var t0 := NanFixed(t);
    if "scientific_title" in t0.columns then Renamed(t0, "scientific_title", "title") else t0
  }

  /** The title branch (lines 34-43). */
  function CleanTitled(t: Table, parse: Dates.DateParser): Result<Table, PyError> {
    var t1 :- Deduplicated(t, "title");
    var t2 :- Transform.Applied(t1, "title", Transform.StripOnly);
    var t3 :- TitlesAtLeast(t2, 3);
    var t5 :- LoweredTitles(t3);
    Transform.UniformDated(t5, parse)
  }

  /** Lines 39-41: the titles cut at their first escape, then lowercased. */
  function LoweredTitles(t: Table): Result<Table, PyError> {
    var t4 :- Transform.Applied(t, "title", Transform.LegacyEscapes);
    Transform.Applied(t4, "title", Transform.LowerOnly)
  }

  /** Each title is cut and lowercased; nothing else changes. */
  lemma LoweredTitlesRows(t: Table)
    requires WellFormed(t) && LoweredTitles(t).Ok?
    ensures var r := LoweredTitles(t).value;
            && WellFormed(r) && r.columns == t.columns && |r.rows| == |t.rows|
            && forall k :: 0 <= k < |t.rows| ==>
                 && TitleOf(t.rows[k]).Some?
                 && TitleOf(r.rows[k]) == Some(Lower(StripFromBackslash(TitleOf(t.rows[k]).value)))
                 && forall d :: d != "title" ==> Get(r.rows[k], d) == Get(t.rows[k], d)
  {
    Transform.AppliedSpec(t, "title", Transform.LegacyEscapes);
    var t4 := Transform.Applied(t, "title", Transform.LegacyEscapes).value;
    Transform.AppliedSpec(t4, "title", Transform.LowerOnly);
    forall k | 0 <= k < |t.rows|
      ensures TitleOf(t.rows[k]).Some?
      ensures TitleOf(LoweredTitles(t).value.rows[k]) == Some(Lower(StripFromBackslash(TitleOf(t.rows[k]).value)))
      ensures forall d :: d != "title" ==> Get(LoweredTitles(t).value.rows[k], d) == Get(t.rows[k], d)
    {
      Transform.AppliedRow(t, "title", Transform.LegacyEscapes, k);
      Transform.AppliedRow(t4, "title", Transform.LowerOnly, k);
    }
  }

  /** clean_data of transform.py as a function of the input table; the
      drugs branch (lines 48-50) is the one of utils/transform.py. */
  function Cleaned(t: Table, parse: Dates.DateParser): Result<Table, PyError> {
    var p := Prepared(t);
    if "title" in p.columns then CleanTitled(p, parse) else Transform.CleanDrugs(p)
  }

  /** The rows the title branch keeps, with their titles stripped: the
      first row of each raw title whose stripped title has at least three
      characters. */
  function Survivors(rows: seq<Row>): seq<Row> {
    LongTitles(Transform.ApplyToRows(KeepFirst(rows, "title"), "title", Transform.StripOnly), 3)
  }

  /** A survivor is a first row of its raw title with that title stripped,
      and every such row whose stripped title is long enough survives. */
  lemma SurvivorsSpec(rows: seq<Row>)
    ensures forall x :: x in Survivors(rows) <==>
              exists y :: y in KeepFirst(rows, "title") && Stripped(y, x)
  {
    forall x ensures x in Survivors(rows) <==> exists y :: y in KeepFirst(rows, "title") && Stripped(y, x) {
      if x in Survivors(rows) {
        SurvivorFromFirst(rows, x);
      }
      if exists y :: y in KeepFirst(rows, "title") && Stripped(y, x) {
        var y :| y in KeepFirst(rows, "title") && Stripped(y, x);
        FirstSurvives(rows, y);
      }
    }
  }

  /** x is the row y with its title stripped, and that title is long enough. */
  predicate Stripped(y: Row, x: Row) {
    TitleOf(y).Some? && |Strip(TitleOf(y).value)| >= 3 && x == y["title" := Some(Strip(TitleOf(y).value))]
  }

  lemma SurvivorFromFirst(rows: seq<Row>, x: Row)
    requires x in Survivors(rows)
    ensures exists y :: y in KeepFirst(rows, "title") && Stripped(y, x)
  {
    var kept := KeepFirst(rows, "title");
    var stripped := Transform.ApplyToRows(kept, "title", Transform.StripOnly);
    var j :| 0 <= j < |stripped| && stripped[j] == x;
    assert kept[j] in kept && Stripped(kept[j], x);
  }

  lemma FirstSurvives(rows: seq<Row>, y: Row)
    requires y in KeepFirst(rows, "title") && TitleOf(y).Some? && |Strip(TitleOf(y).value)| >= 3
    ensures y["title" := Some(Strip(TitleOf(y).value))] in Survivors(rows)
  {
    var kept := KeepFirst(rows, "title");
    var stripped := Transform.ApplyToRows(kept, "title", Transform.StripOnly);
    var j :| 0 <= j < |kept| && kept[j] == y;
    assert stripped[j] == y["title" := Some(Strip(TitleOf(y).value))];
  }

  /** Keeping some rows of a well-formed table keeps it well formed. */
  lemma SubTableWellFormed(t: Table, s: Table)
    requires WellFormed(t) && s.columns == t.columns
    requires forall x :: x in s.rows ==> x in t.rows
    ensures WellFormed(s)
  {
    forall k | 0 <= k < |s.rows| ensures s.rows[k].Keys == ColumnSet(s.columns) {
      assert s.rows[k] in t.rows;
    }
  }

  /** The stripped survivors of the first three steps. */
  lemma FilteredRows(t: Table)
    requires WellFormed(t) && "title" in t.columns
    requires Transform.Applied(Deduplicated(t, "title").value, "title", Transform.StripOnly).Ok?
    ensures var t2 := Transform.Applied(Deduplicated(t, "title").value, "title", Transform.StripOnly).value;
            && TitlesAtLeast(t2, 3).Ok?
            && WellFormed(TitlesAtLeast(t2, 3).value)
            && TitlesAtLeast(t2, 3).value.columns == t.columns
            && TitlesAtLeast(t2, 3).value.rows == Survivors(t.rows)
  {
    DeduplicatedDistinct(t, "title");
    var t1 := Deduplicated(t, "title").value;
    Transform.AppliedSpec(t1, "title", Transform.StripOnly);
    var t2 := Transform.Applied(t1, "title", Transform.StripOnly).value;
    SubTableWellFormed(t2, TitlesAtLeast(t2, 3).value);
  }

  /** What the title branch does to each survivor: the stripped title is
      cut at its first escape and lowercased, the date is re-rendered, and
      every other cell, the journal included, is kept. */
  lemma CleanTitledRows(t: Table, parse: Dates.DateParser)
    requires WellFormed(t) && "title" in t.columns && CleanTitled(t, parse).Ok?
    ensures var r := CleanTitled(t, parse).value;
            var s := Survivors(t.rows);
            && WellFormed(r) && r.columns == t.columns && |r.rows| == |s|
            && forall k :: 0 <= k < |s| ==>
                 && TitleOf(s[k]).Some? && |TitleOf(s[k]).value| >= 3
                 && Get(s[k], "date").Some? && parse(Get(s[k], "date").value).Some?
                 && TitleOf(r.rows[k]) == Some(Lower(StripFromBackslash(TitleOf(s[k]).value)))
                 && Get(r.rows[k], "date") == Some(Dates.Render(parse(Get(s[k], "date").value).value))
                 && forall d :: d != "title" && d != "date" ==> Get(r.rows[k], d) == Get(s[k], d)
  {
    FilteredRows(t);
    var t1 := Deduplicated(t, "title").value;
    var t2 := Transform.Applied(t1, "title", Transform.StripOnly).value;
    var t3 := TitlesAtLeast(t2, 3).value;
    assert t3.rows == Survivors(t.rows);
    forall k | 0 <= k < |t3.rows| ensures |TitleOf(t3.rows[k]).value| >= 3 {
      assert t3.rows[k] in t3.rows;
    }
    LoweredTitlesRows(t3);
    Transform.UniformDatedSpec(LoweredTitles(t3).value, parse);
  }

  /** After the title branch no title holds an upper-case letter and every
      date reads back as a DD/MM/YYYY date. */
  lemma CleanTitledShape(t: Table, parse: Dates.DateParser)
    requires WellFormed(t) && "title" in t.columns && CleanTitled(t, parse).Ok?
    ensures var r := CleanTitled(t, parse).value;
            forall k :: 0 <= k < |r.rows| ==>
              && TitleOf(r.rows[k]).Some? && NoUpper(TitleOf(r.rows[k]).value)
              && Get(r.rows[k], "date").Some? && Dates.ReadRendered(Get(r.rows[k], "date").value).Some?
  {
    CleanTitledRows(t, parse);
    var r := CleanTitled(t, parse).value;
    var s := Survivors(t.rows);
    forall k | 0 <= k < |r.rows|
      ensures NoUpper(TitleOf(r.rows[k]).value)
      ensures Dates.ReadRendered(Get(r.rows[k], "date").value).Some?
    {
      LowerShape(StripFromBackslash(TitleOf(s[k]).value));
      Dates.RenderRoundTrip(parse(Get(s[k], "date").value).value);
    }
  }

  /** drop_duplicates keeps the first row of each title, null included. */
  lemma DedupKeepsNull(t: Table)
    requires WellFormed(t) && "title" in t.columns && HasNull(t.rows, "title")
    ensures Deduplicated(t, "title").Ok? && HasNull(Deduplicated(t, "title").value.rows, "title")
  {
    DeduplicatedDistinct(t, "title");
    var t1 := Deduplicated(t, "title").value;
    var k :| 0 <= k < |t.rows| && Get(t.rows[k], "title").None?;
    var key := DedupKey(t.rows[k], "title");
    assert "title" in t.rows[k] by {
      assert "title" in ColumnSet(t.columns);
    }
    assert key == map["title" := None];
    KeepFirstKeys(t.rows, "title", key);
    var j :| 0 <= j < |t1.rows| && DedupKey(t1.rows[j], "title") == key;
    assert "title" in t1.rows[j] by {
      assert "title" in ColumnSet(t1.columns);
    }
    assert DedupKey(t1.rows[j], "title")["title"] == t1.rows[j]["title"];
    assert Get(t1.rows[j], "title").None?;
  }

  /** Duplicates are dropped before anything else and a null title is kept,
      so it reaches strip and the branch fails with AttributeError('strip'). */
  lemma NullTitleFails(t: Table, parse: Dates.DateParser)
    requires WellFormed(t) && "title" in t.columns && HasNull(t.rows, "title")
    ensures CleanTitled(t, parse) == Err(AttributeError("strip"))
  {
    DedupKeepsNull(t);
    var t1 := Deduplicated(t, "title").value;
    assert Transform.Applied(t1, "title", Transform.StripOnly) == Err(AttributeError("strip"));
  }

  /** The length filter runs before the escapes are cut, so a title can
      come out shorter than three characters. */
  lemma ShortTitleAfterFilter()
    ensures LongTitle(map["title" := Some(Strip("ab\\xc3"))], 3)
    ensures Lower(StripFromBackslash(Strip("ab\\xc3"))) == "ab"
  {
    StripUnpadded("ab\\xc3");
    assert LeadingSpaces("ab\\xc3") == 0;
    assert StripFromBackslash("\\xc3") == "";
    assert StripFromBackslash("b\\xc3") == "b";
    assert StripFromBackslash("ab\\xc3") == "ab";
  }

  /** clean_data of transform.py: every step changes the frame in place,
      and the frame is returned. */
  method CleanData(df: Transform.DataFrame, parse: Dates.DateParser) returns (err: Option<PyError>)
    requires df.Valid()
    requires !("scientific_title" in df.columns && "title" in df.columns)
    modifies df
    ensures Cleaned(old(df.Value()), parse).Ok? ==> err == None && df.Valid() && df.Value() == Cleaned(old(df.Value()), parse).value
    ensures Cleaned(old(df.Value()), parse).Err? ==> err == Some(Cleaned(old(df.Value()), parse).error)
  {
    df.FixNan();
    if "scientific_title" in df.columns {
      RenamedCells(NanFixed(old(df.Value())), "scientific_title", "title");
      df.RenameTitle("scientific_title");
    }
    assert df.Value() == Prepared(old(df.Value()));
    if "title" in df.columns {
      err := df.DropDuplicates("title");
      if err.Some? { return; }
      err := df.ApplyToColumn("title", Transform.StripOnly);
      if err.Some? { return; }
      err := df.DropShortTitles(3);
      if err.Some? { return; }
      err := df.ApplyToColumn("title", Transform.LegacyEscapes);
      if err.Some? { return; }
      err := df.ApplyToColumn("title", Transform.LowerOnly);
      if err.Some? { return; }
      err := df.UniformDates(parse);
    } else {
      err := df.DropDuplicates("atccode");
      if err.Some? { return; }
      err := df.ApplyToColumn("drug", Transform.StripLower);
    }
  }
}
