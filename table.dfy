/** Tables as the cleaning code sees them: a list of column labels and a
    list of rows, each row mapping every label to a text cell or to null.
    The pure functions here state what each cleaning step does to a
    table; the DataFrame class in transform.dfy applies them in place. */
module Tables {
  import opened Wrappers
  import opened Errors

  type Cell = Option<string>

  type Row = map<string, Cell>

  datatype Table = Table(columns: seq<string>, rows: seq<Row>)

  function ColumnSet(cols: seq<string>): set<string> {
    set c | c in cols
  }

  /** Distinct column labels, and every row holds a cell for exactly those. */
  ghost predicate WellFormed(t: Table) {
    && (forall i, j :: 0 <= i < j < |t.columns| ==> t.columns[i] != t.columns[j])
    && (forall k :: 0 <= k < |t.rows| ==> t.rows[k].Keys == ColumnSet(t.columns))
  }

  /** The cell of column c, null when the row has no such column. */
  function Get(r: Row, c: string): Cell {
    if c in r then r[c] else None
  }

  function TitleOf(r: Row): Cell {
    Get(r, "title")
  }

  /** Some row holds null in column c. */
  predicate HasNull(rows: seq<Row>, c: string) {
    exists k :: 0 <= k < |rows| && Get(rows[k], c).None?
  }

  // ---------------------------------------------------------------------
  // fix_nan

  function NanToNull(c: Cell): Cell {
    if c == Some("nan") then None else c
  }

  /** The row with every "nan" cell of the columns cs made null. */
  function FixNanRow(r: Row, cs: set<string>): Row {
    map k | k in r :: if k in cs then NanToNull(r[k]) else r[k]
  }

  function FixNanRows(rows: seq<Row>, cs: set<string>): (r: seq<Row>)
    ensures |r| == |rows|
    ensures forall k :: 0 <= k < |rows| ==> r[k] == FixNanRow(rows[k], cs)
  {
    seq(|rows|, k requires 0 <= k < |rows| => FixNanRow(rows[k], cs))
  }

  /** fix_nan applied to every column of the table. */
  function NanFixed(t: Table): Table {
    Table(t.columns, FixNanRows(t.rows, ColumnSet(t.columns)))
  }

  /** Every cell equal to "nan", in every column, becomes null; every other
      cell, and the columns, stay as they were. */
  lemma NanFixedCells(t: Table)
    requires WellFormed(t)
    ensures WellFormed(NanFixed(t))
    ensures NanFixed(t).columns == t.columns && |NanFixed(t).rows| == |t.rows|
    ensures forall k, c :: 0 <= k < |t.rows| && c in t.columns ==>
              Get(NanFixed(t).rows[k], c) == (if Get(t.rows[k], c) == Some("nan") then None else Get(t.rows[k], c))
  {
  }

  /** No "nan" text survives, so a second pass changes nothing. */
  lemma NanFixedIdempotent(t: Table)
    ensures forall k, c :: 0 <= k < |t.rows| && c in t.columns ==> Get(NanFixed(t).rows[k], c) != Some("nan")
    ensures NanFixed(NanFixed(t)) == NanFixed(t)
  {
    var once := NanFixed(t);
    var twice := NanFixed(once);
    var cs := ColumnSet(t.columns);
    forall k | 0 <= k < |t.rows|
      ensures twice.rows[k] == once.rows[k]
    {
      assert FixNanRow(once.rows[k], cs) == once.rows[k];
    }
  }

  /** Fixing the columns of A and then column c is fixing A + {c}. */
  lemma FixNanRowsStep(rows: seq<Row>, cs: set<string>, c: string)
    ensures FixNanRows(FixNanRows(rows, cs), {c}) == FixNanRows(rows, cs + {c})
  {
    var lhs := FixNanRows(FixNanRows(rows, cs), {c});
    forall k | 0 <= k < |rows|
      ensures lhs[k] == FixNanRows(rows, cs + {c})[k]
    {
      assert FixNanRow(FixNanRow(rows[k], cs), {c}) == FixNanRow(rows[k], cs + {c});
    }
  }

  lemma FixNanRowsNone(rows: seq<Row>)
    ensures FixNanRows(rows, {}) == rows
  {
    forall k | 0 <= k < |rows|
      ensures FixNanRows(rows, {})[k] == rows[k]
    {
      assert FixNanRow(rows[k], {}) == rows[k];
    }
  }

  // ---------------------------------------------------------------------
  // rename_title

  function RenameRow(r: Row, from: string, to: string): Row {
    if from in r then (r - {from})[to := r[from]] else r
  }

  function RenameLabel(c: string, from: string, to: string): string {
    if c == from then to else c
  }

  /** rename(columns={from: to}). */
  function Renamed(t: Table, from: string, to: string): (r: Table)
    ensures |r.columns| == |t.columns| && |r.rows| == |t.rows|
  {
    Table(seq(|t.columns|, i requires 0 <= i < |t.columns| => RenameLabel(t.columns[i], from, to)),
          seq(|t.rows|, k requires 0 <= k < |t.rows| => RenameRow(t.rows[k], from, to)))
  }

  /** The column `from` now holds its cells under the label `to`, in the
      same position; every other column is untouched. */
  lemma RenamedCells(t: Table, from: string, to: string)
    requires WellFormed(t) && from in t.columns && to !in t.columns
    ensures WellFormed(Renamed(t, from, to))
    ensures to in Renamed(t, from, to).columns && from !in Renamed(t, from, to).columns
    ensures forall i :: 0 <= i < |t.columns| && t.columns[i] != from ==> Renamed(t, from, to).columns[i] == t.columns[i]
    ensures forall k :: 0 <= k < |t.rows| ==> Get(Renamed(t, from, to).rows[k], to) == Get(t.rows[k], from)
    ensures forall k, c :: 0 <= k < |t.rows| && c != from && c != to ==> Get(Renamed(t, from, to).rows[k], c) == Get(t.rows[k], c)
  {
    var r := Renamed(t, from, to);
    var i :| 0 <= i < |t.columns| && t.columns[i] == from;
    assert r.columns[i] == to;
    assert ColumnSet(r.columns) == ColumnSet(t.columns) - {from} + {to} by {
      forall c | c in ColumnSet(t.columns) - {from} + {to}
        ensures c in ColumnSet(r.columns)
      {
        if c != to {
          var j :| 0 <= j < |t.columns| && t.columns[j] == c;
          assert r.columns[j] == c;
        }
      }
    }
    forall k | 0 <= k < |t.rows|
      ensures r.rows[k].Keys == ColumnSet(r.columns)
    {
      assert from in t.rows[k];
    }
  }

  // ---------------------------------------------------------------------
  // fill_group_values and merge_rows

  /** Some row holds x in column c. */
  predicate HasValue(rows: seq<Row>, c: string, x: string) {
    exists k :: 0 <= k < |rows| && Get(rows[k], c) == Some(x)
  }

  /** The group keys of groupby(c, sort=False): the distinct non-null
      values of column c in order of first appearance (null keys are
      dropped). */
  function GroupKeys(rows: seq<Row>, c: string): seq<string> {
    if rows == [] then []
    else
      var ks := GroupKeys(rows[..|rows| - 1], c);
      var v := Get(rows[|rows| - 1], c);
      if v.Some? && v.value !in ks then ks + [v.value] else ks
  }

  /** The rows of the group whose key is x, in table order. */
  function GroupRows(rows: seq<Row>, c: string, x: string): seq<Row> {
    if rows == [] then []
    else
      var g := GroupRows(rows[..|rows| - 1], c, x);
      if Get(rows[|rows| - 1], c) == Some(x) then g + [rows[|rows| - 1]] else g
  }

  /** Index of the first row holding x in column c. */
  function FirstWith(rows: seq<Row>, c: string, x: string): (k: nat)
    requires HasValue(rows, c, x)
    ensures k < |rows| && Get(rows[k], c) == Some(x)
    ensures forall j :: 0 <= j < k ==> Get(rows[j], c) != Some(x)
  {
    var init := rows[..|rows| - 1];
    if HasValue(init, c, x) then
      var k := FirstWith(init, c, x);
      assert forall j :: 0 <= j < k ==> init[j] == rows[j];
      k
    else
      assert forall j :: 0 <= j < |init| ==> init[j] == rows[j];
      |rows| - 1
  }

  /** The first row holding x does not move when rows are appended. */
  lemma FirstWithPrefix(rows: seq<Row>, c: string, x: string)
    requires |rows| > 0 && HasValue(rows[..|rows| - 1], c, x)
    ensures HasValue(rows, c, x) && FirstWith(rows, c, x) == FirstWith(rows[..|rows| - 1], c, x)
  {
    var init := rows[..|rows| - 1];
    var k :| 0 <= k < |init| && Get(init[k], c) == Some(x);
    assert rows[k] == init[k];
  }

  /** The group keys are distinct, and they are exactly the non-null values
      of the column. */
  lemma {:induction false} GroupKeysSpec(rows: seq<Row>, c: string)
    ensures forall i, j :: 0 <= i < j < |GroupKeys(rows, c)| ==> GroupKeys(rows, c)[i] != GroupKeys(rows, c)[j]
    ensures forall x :: x in GroupKeys(rows, c) <==> HasValue(rows, c, x)
  {
    if rows != [] {
      var init := rows[..|rows| - 1];
      GroupKeysSpec(init, c);
      forall x
        ensures HasValue(rows, c, x) <==> HasValue(init, c, x) || Get(rows[|rows| - 1], c) == Some(x)
      {
        if HasValue(rows, c, x) {
          var k :| 0 <= k < |rows| && Get(rows[k], c) == Some(x);
          if k < |rows| - 1 { assert init[k] == rows[k]; }
        }
        if HasValue(init, c, x) {
          var k :| 0 <= k < |init| && Get(init[k], c) == Some(x);
          assert rows[k] == init[k];
        }
      }
    }
  }

  /** Groups come in order of first appearance (sort=False): an earlier key
      was first seen on an earlier row. */
  lemma {:induction false} GroupKeysOrder(rows: seq<Row>, c: string, i: nat, j: nat)
    requires i < j < |GroupKeys(rows, c)|
    ensures HasValue(rows, c, GroupKeys(rows, c)[i]) && HasValue(rows, c, GroupKeys(rows, c)[j])
            && FirstWith(rows, c, GroupKeys(rows, c)[i]) < FirstWith(rows, c, GroupKeys(rows, c)[j])
  {
    GroupKeysSpec(rows, c);
    var init := rows[..|rows| - 1];
    var ks := GroupKeys(rows, c);
    GroupKeysSpec(init, c);
    var x, y := ks[i], ks[j];
    assert HasValue(init, c, x) by {
      if i < |GroupKeys(init, c)| {
        assert x in GroupKeys(init, c);
      }
    }
    FirstWithPrefix(rows, c, x);
    if j < |GroupKeys(init, c)| {
      assert ks[..|GroupKeys(init, c)|] == GroupKeys(init, c);
      assert y == GroupKeys(init, c)[j];
      GroupKeysOrder(init, c, i, j);
      FirstWithPrefix(rows, c, y);
    } else {
      assert !HasValue(init, c, y);
      assert FirstWith(rows, c, y) == |rows| - 1;
    }
  }

  /** A group holds exactly the rows carrying its key, and starts with the
      first of them. */
  lemma {:induction false} GroupRowsSpec(rows: seq<Row>, c: string, x: string)
    ensures forall r :: r in GroupRows(rows, c, x) <==> r in rows && Get(r, c) == Some(x)
    ensures HasValue(rows, c, x) ==> |GroupRows(rows, c, x)| > 0 && GroupRows(rows, c, x)[0] == rows[FirstWith(rows, c, x)]
  {
    if rows != [] {
      var init := rows[..|rows| - 1];
      GroupRowsSpec(init, c, x);
      assert rows == init + [rows[|rows| - 1]];
      if HasValue(rows, c, x) {
        if HasValue(init, c, x) {
          FirstWithPrefix(rows, c, x);
          assert GroupRows(rows, c, x)[0] == GroupRows(init, c, x)[0];
          assert init[FirstWith(init, c, x)] == rows[FirstWith(init, c, x)];
        } else {
          assert GroupRows(init, c, x) == [] by {
            if GroupRows(init, c, x) != [] {
              assert GroupRows(init, c, x)[0] in GroupRows(init, c, x);
              assert false;
            }
          }
        }
      }
    }
  }

  /** The column c of a group of rows. */
  function ColumnOf(g: seq<Row>, c: string): (col: seq<Cell>)
    ensures |col| == |g|
  {
    seq(|g|, k requires 0 <= k < |g| => Get(g[k], c))
  }

  /** ffill() on one column: a null takes the last non-null value above it. */
  function FFillFrom(col: seq<Cell>, last: Cell): (r: seq<Cell>)
    ensures |r| == |col|
  {
    if col == [] then []
    else
      var v := if col[0].Some? then col[0] else last;
      [v] + FFillFrom(col[1..], v)
  }

  function FFill(col: seq<Cell>): (r: seq<Cell>)
    ensures |r| == |col|
  {
    FFillFrom(col, None)
  }

  /** bfill() on one column: a null takes the first non-null value below it. */
  function BFill(col: seq<Cell>): (r: seq<Cell>)
    ensures |r| == |col|
  {
    if col == [] then []
    else
      var rest := BFill(col[1..]);
      [if col[0].Some? then col[0] else if rest == [] then None else rest[0]] + rest
  }

  /** The first non-null cell of a column, or null when it has none. */
  function FirstNonNull(col: seq<Cell>): (r: Cell)
    ensures r.None? <==> forall k :: 0 <= k < |col| ==> col[k].None?
    ensures r.Some? ==> exists k :: 0 <= k < |col| && col[k] == r && forall j :: 0 <= j < k ==> col[j].None?
  {
    if col == [] then None
    else if col[0].Some? then col[0]
    else
      var r := FirstNonNull(col[1..]);
      assert forall k :: 1 <= k < |col| ==> col[k] == col[1..][k - 1];
      r
  }

  /** merge_rows: ffill().bfill().iloc[0] on one group, column by column. */
  function MergeRows(g: seq<Row>, cols: seq<string>): Row
    requires |g| > 0
  {
    map c | c in cols :: BFill(FFill(ColumnOf(g, c)))[0]
  }

  /** Filling forward, then backward, then keeping the first row yields, in
      each column, the first non-null value of that column. */
  lemma {:induction false} FillThenFirst(col: seq<Cell>)
    requires |col| > 0
    ensures BFill(FFill(col))[0] == FirstNonNull(col)
  {
    if col[0].None? && |col| > 1 {
      assert FFill(col) == [None] + FFill(col[1..]);
      FillThenFirst(col[1..]);
    }
  }

  /** fill_group_values(df, c): one merged row per group, in group order. */
  function GroupsMerged(t: Table, c: string): (r: Table)
    ensures r.columns == t.columns && |r.rows| == |GroupKeys(t.rows, c)|
  {
    var ks := GroupKeys(t.rows, c);
    Table(t.columns, seq(|ks|, i requires 0 <= i < |ks| =>
      GroupKeysSpec(t.rows, c);
      assert ks[i] in ks;
      GroupRowsSpec(t.rows, c, ks[i]);
      MergeRows(GroupRows(t.rows, c, ks[i]), t.columns)))
  }

  /** The merged table keeps the columns and holds one row per distinct
      non-null key, in order of first appearance; each of its cells is the
      first non-null value of that column within the key's group, so the
      columns are filled independently of one another. */
  lemma GroupsMergedSpec(t: Table, c: string)
    requires WellFormed(t) && c in t.columns
    ensures WellFormed(GroupsMerged(t, c))
    ensures forall i :: 0 <= i < |GroupKeys(t.rows, c)| ==>
              Get(GroupsMerged(t, c).rows[i], c) == Some(GroupKeys(t.rows, c)[i])
    ensures forall i, d :: 0 <= i < |GroupKeys(t.rows, c)| && d in t.columns ==>
              Get(GroupsMerged(t, c).rows[i], d) == FirstNonNull(ColumnOf(GroupRows(t.rows, c, GroupKeys(t.rows, c)[i]), d))
  {
    GroupsMergedKeyCells(t, c);
    var r := GroupsMerged(t, c);
    var ks := GroupKeys(t.rows, c);
    GroupKeysSpec(t.rows, c);
    forall i, d | 0 <= i < |ks| && d in t.columns
      ensures Get(r.rows[i], d) == FirstNonNull(ColumnOf(GroupRows(t.rows, c, ks[i]), d))
    {
      assert ks[i] in ks;
      GroupRowsSpec(t.rows, c, ks[i]);
      FillThenFirst(ColumnOf(GroupRows(t.rows, c, ks[i]), d));
    }
  }

  /** The merged table is well formed and its i-th row carries the i-th key. */
  lemma GroupsMergedKeyCells(t: Table, c: string)
    requires WellFormed(t) && c in t.columns
    ensures WellFormed(GroupsMerged(t, c))
    ensures forall i :: 0 <= i < |GroupKeys(t.rows, c)| ==>
              Get(GroupsMerged(t, c).rows[i], c) == Some(GroupKeys(t.rows, c)[i])
  {
    var r := GroupsMerged(t, c);
    var ks := GroupKeys(t.rows, c);
    GroupKeysSpec(t.rows, c);
    forall i | 0 <= i < |ks|
      ensures Get(r.rows[i], c) == Some(ks[i])
    {
      assert ks[i] in ks;
      GroupRowsSpec(t.rows, c, ks[i]);
      var g := GroupRows(t.rows, c, ks[i]);
      assert g[0] in g;
      assert ColumnOf(g, c)[0] == Some(ks[i]);
    }
  }

  /** The merged table's keys are distinct and non-null, and they are
      exactly the values the key column held. */
  lemma GroupsMergedKeys(t: Table, c: string)
    requires WellFormed(t) && c in t.columns
    ensures var r := GroupsMerged(t, c);
            && WellFormed(r) && r.columns == t.columns
            && (forall i, j :: 0 <= i < j < |r.rows| ==> Get(r.rows[i], c) != Get(r.rows[j], c))
            && (forall k :: 0 <= k < |r.rows| ==> Get(r.rows[k], c).Some?)
            && forall x :: HasValue(r.rows, c, x) <==> HasValue(t.rows, c, x)
  {
    GroupsMergedKeyCells(t, c);
    GroupKeysSpec(t.rows, c);
    KeyColumn(GroupsMerged(t, c).rows, c, GroupKeys(t.rows, c));
  }

  /** Rows whose column c holds the keys ks, one each, in order. */
  lemma KeyColumn(rows: seq<Row>, c: string, ks: seq<string>)
    requires |rows| == |ks| && forall i :: 0 <= i < |ks| ==> Get(rows[i], c) == Some(ks[i])
    requires forall i, j :: 0 <= i < j < |ks| ==> ks[i] != ks[j]
    ensures forall i, j :: 0 <= i < j < |rows| ==> Get(rows[i], c) != Get(rows[j], c)
    ensures forall x :: HasValue(rows, c, x) <==> x in ks
  {
    forall x
      ensures HasValue(rows, c, x) <==> x in ks
    {
      if HasValue(rows, c, x) {
        var k :| 0 <= k < |rows| && Get(rows[k], c) == Some(x);
        assert ks[k] == x;
      }
      if x in ks {
        var k :| 0 <= k < |ks| && ks[k] == x;
        assert Get(rows[k], c) == Some(x);
      }
    }
  }

  // ---------------------------------------------------------------------
  // drop_records_with_empty_titles (and the legacy len < 3 filter)

  /** The row's title is present and has at least minLen characters. */
  predicate LongTitle(r: Row, minLen: nat) {
    TitleOf(r).Some? && |TitleOf(r).value| >= minLen
  }

  /** The rows whose title has at least minLen characters, in table order. */
  function LongTitles(rows: seq<Row>, minLen: nat): (r: seq<Row>)
    ensures |r| <= |rows|
    ensures forall x :: x in r <==> x in rows && LongTitle(x, minLen)
  {
    if rows == [] then []
    else
      var kept := LongTitles(rows[..|rows| - 1], minLen);
      assert rows == rows[..|rows| - 1] + [rows[|rows| - 1]];
      if LongTitle(rows[|rows| - 1], minLen) then kept + [rows[|rows| - 1]] else kept
  }

  /** The filter keeps the table order: filtering two consecutive pieces is
      filtering each and joining the results. */
  lemma {:induction false} LongTitlesAppend(a: seq<Row>, b: seq<Row>, minLen: nat)
    ensures LongTitles(a + b, minLen) == LongTitles(a, minLen) + LongTitles(b, minLen)
  {
    if b != [] {
      var b' := b[..|b| - 1];
      assert (a + b)[..|a + b| - 1] == a + b';
      LongTitlesAppend(a, b', minLen);
    } else {
      assert a + b == a;
    }
  }

  /** df.drop(df[df.title.map(len) < minLen].index): AttributeError when the
      table has no title column, TypeError when len meets a null title,
      otherwise the rows with long enough titles. */
  function TitlesAtLeast(t: Table, minLen: nat): (r: Result<Table, PyError>)
    ensures "title" !in t.columns ==> r == Err(AttributeError("title"))
    ensures "title" in t.columns && HasNull(t.rows, "title") ==> r == Err(TypeError)
    ensures r.Ok? ==> r.value.columns == t.columns
                      && forall x :: x in r.value.rows <==> x in t.rows && |TitleOf(x).value| >= minLen
  {
    if "title" !in t.columns then Err(AttributeError("title"))
    else if HasNull(t.rows, "title") then Err(TypeError)
    else
      assert forall x :: x in t.rows ==> TitleOf(x).Some? by {
        forall x | x in t.rows ensures TitleOf(x).Some? {
          var k :| 0 <= k < |t.rows| && t.rows[k] == x;
        }
      }
      Ok(Table(t.columns, LongTitles(t.rows, minLen)))
  }

  // ---------------------------------------------------------------------
  // drop_duplicates_df

  /** What drop_duplicates compares: the whole row when no subset is given
      (an empty label), otherwise the row's cell in the subset column. */
  function DedupKey(r: Row, subset: string): Row {
    if subset == "" then r else map c | c in r && c == subset :: r[c]
  }

  /** Some row has the key k. */
  predicate KeySeen(rows: seq<Row>, subset: string, k: Row) {
    exists j :: 0 <= j < |rows| && DedupKey(rows[j], subset) == k
  }

  /** drop_duplicates(keep='first'): a row is kept when no earlier row has
      its key. */
  function KeepFirst(rows: seq<Row>, subset: string): (r: seq<Row>)
    ensures |r| <= |rows|
    ensures forall x :: x in r ==> x in rows
    ensures forall i, j :: 0 <= i < j < |r| ==> DedupKey(r[i], subset) != DedupKey(r[j], subset)
  {
    if rows == [] then []
    else
      var init := rows[..|rows| - 1];
      var last := rows[|rows| - 1];
      var kept := KeepFirst(init, subset);
      if KeySeen(init, subset, DedupKey(last, subset)) then kept
      else
        assert forall x :: x in kept ==> DedupKey(x, subset) != DedupKey(last, subset) by {
          forall x | x in kept ensures DedupKey(x, subset) != DedupKey(last, subset) {
            var j :| 0 <= j < |init| && init[j] == x;
          }
        }
        kept + [last]
  }

  /** Index of the first row with key k. */
  function FirstWithKey(rows: seq<Row>, subset: string, k: Row): (i: nat)
    requires KeySeen(rows, subset, k)
    ensures i < |rows| && DedupKey(rows[i], subset) == k
    ensures forall j :: 0 <= j < i ==> DedupKey(rows[j], subset) != k
  {
    var init := rows[..|rows| - 1];
    if KeySeen(init, subset, k) then
      var i := FirstWithKey(init, subset, k);
      assert forall j :: 0 <= j < i ==> init[j] == rows[j];
      i
    else
      assert forall j :: 0 <= j < |init| ==> init[j] == rows[j];
      |rows| - 1
  }

  /** The keys are split between the rows before the last one and the last. */
  lemma KeySeenSplit(rows: seq<Row>, subset: string, k: Row)
    requires rows != []
    ensures KeySeen(rows, subset, k) <==> KeySeen(rows[..|rows| - 1], subset, k) || DedupKey(rows[|rows| - 1], subset) == k
  {
    var init := rows[..|rows| - 1];
    if KeySeen(init, subset, k) {
      var j :| 0 <= j < |init| && DedupKey(init[j], subset) == k;
      assert rows[j] == init[j];
    }
    if KeySeen(rows, subset, k) && DedupKey(rows[|rows| - 1], subset) != k {
      var j :| 0 <= j < |rows| && DedupKey(rows[j], subset) == k;
      assert rows[j] == init[j];
    }
  }

  /** Every key of the table survives deduplication, and no other appears. */
  lemma {:induction false} KeepFirstKeys(rows: seq<Row>, subset: string, k: Row)
    ensures KeySeen(KeepFirst(rows, subset), subset, k) <==> KeySeen(rows, subset, k)
  {
    if rows != [] {
      var init := rows[..|rows| - 1];
      var last := rows[|rows| - 1];
      var kept0 := KeepFirst(init, subset);
      var kept := KeepFirst(rows, subset);
      KeepFirstKeys(init, subset, k);
      KeySeenSplit(rows, subset, k);
      if kept != kept0 {
        assert kept == kept0 + [last];
        KeySeenSplit(kept, subset, k);
        assert kept[..|kept| - 1] == kept0;
      }
    }
  }

  /** The row kept for a key is the first row that carried it. */
  lemma {:induction false} KeepFirstFirst(rows: seq<Row>, subset: string, x: Row)
    requires x in KeepFirst(rows, subset)
    ensures KeySeen(rows, subset, DedupKey(x, subset))
    ensures x == rows[FirstWithKey(rows, subset, DedupKey(x, subset))]
  {
    var init := rows[..|rows| - 1];
    var last := rows[|rows| - 1];
    var k := DedupKey(x, subset);
    if x in KeepFirst(init, subset) {
      KeepFirstFirst(init, subset, x);
      var i :| 0 <= i < |init| && DedupKey(init[i], subset) == k;
      assert rows[i] == init[i];
      assert FirstWithKey(rows, subset, k) == FirstWithKey(init, subset, k);
      assert init[FirstWithKey(init, subset, k)] == rows[FirstWithKey(init, subset, k)];
    } else {
      assert x == last && !KeySeen(init, subset, k);
      assert FirstWithKey(rows, subset, k) == |rows| - 1;
    }
  }

  /** The kept rows come in table order: a row kept before another first
      appeared before it. */
  lemma {:induction false} KeepFirstOrder(rows: seq<Row>, subset: string)
    ensures forall x :: x in KeepFirst(rows, subset) ==> KeySeen(rows, subset, DedupKey(x, subset))
    ensures var r := KeepFirst(rows, subset);
            forall i, j :: 0 <= i < j < |r| ==>
              FirstWithKey(rows, subset, DedupKey(r[i], subset)) < FirstWithKey(rows, subset, DedupKey(r[j], subset))
  {
    var r := KeepFirst(rows, subset);
    forall x | x in r ensures KeySeen(rows, subset, DedupKey(x, subset)) {
      KeepFirstFirst(rows, subset, x);
    }
    if rows != [] {
      KeepFirstOrder(rows[..|rows| - 1], subset);
      forall i, j | 0 <= i < j < |r|
        ensures FirstWithKey(rows, subset, DedupKey(r[i], subset)) < FirstWithKey(rows, subset, DedupKey(r[j], subset))
      {
        KeepFirstOrderStep(rows, subset, i, j);
      }
    }
  }

  lemma KeepFirstOrderStep(rows: seq<Row>, subset: string, i: nat, j: nat)
    requires rows != []
    requires var init := rows[..|rows| - 1];
             var kept0 := KeepFirst(init, subset);
             && (forall x :: x in kept0 ==> KeySeen(init, subset, DedupKey(x, subset)))
             && forall a, b :: 0 <= a < b < |kept0| ==>
                  FirstWithKey(init, subset, DedupKey(kept0[a], subset)) < FirstWithKey(init, subset, DedupKey(kept0[b], subset))
    requires forall x :: x in KeepFirst(rows, subset) ==> KeySeen(rows, subset, DedupKey(x, subset))
    requires i < j < |KeepFirst(rows, subset)|
    ensures FirstWithKey(rows, subset, DedupKey(KeepFirst(rows, subset)[i], subset))
            < FirstWithKey(rows, subset, DedupKey(KeepFirst(rows, subset)[j], subset))
  {
    var init := rows[..|rows| - 1];
    var last := rows[|rows| - 1];
    var kept0 := KeepFirst(init, subset);
    var r := KeepFirst(rows, subset);
    assert r[i] in kept0;
    FirstWithKeyPrefix(rows, subset, DedupKey(r[i], subset));
    if j < |kept0| {
      assert r[j] == kept0[j];
      FirstWithKeyPrefix(rows, subset, DedupKey(r[j], subset));
    } else {
      assert r[j] == last && !KeySeen(init, subset, DedupKey(last, subset));
    }
  }

  lemma FirstWithKeyPrefix(rows: seq<Row>, subset: string, k: Row)
    requires rows != [] && KeySeen(rows[..|rows| - 1], subset, k)
    ensures KeySeen(rows, subset, k)
    ensures FirstWithKey(rows, subset, k) == FirstWithKey(rows[..|rows| - 1], subset, k)
  {
    var init := rows[..|rows| - 1];
    var j :| 0 <= j < |init| && DedupKey(init[j], subset) == k;
    assert DedupKey(rows[j], subset) == k;
  }

  /** drop_duplicates(subset): KeyError when the subset column is missing. */
  function Deduplicated(t: Table, subset: string): (r: Result<Table, PyError>)
    ensures subset != "" && subset !in t.columns ==> r == Err(KeyError(subset))
    ensures r.Ok? ==> r.value.columns == t.columns && forall x :: x in r.value.rows ==> x in t.rows
    ensures r.Ok? ==> forall i, j :: 0 <= i < j < |r.value.rows| ==> DedupKey(r.value.rows[i], subset) != DedupKey(r.value.rows[j], subset)
  {
    if subset != "" && subset !in t.columns then Err(KeyError(subset))
    else Ok(Table(t.columns, KeepFirst(t.rows, subset)))
  }

  /** On a well-formed table, deduplicating on one column leaves that
      column's values pairwise distinct. */
  lemma DeduplicatedDistinct(t: Table, subset: string)
    requires WellFormed(t) && subset != "" && subset in t.columns
    ensures Deduplicated(t, subset).Ok?
    ensures WellFormed(Deduplicated(t, subset).value)
    ensures forall i, j :: 0 <= i < j < |Deduplicated(t, subset).value.rows| ==>
              Get(Deduplicated(t, subset).value.rows[i], subset) != Get(Deduplicated(t, subset).value.rows[j], subset)
  {
    var r := Deduplicated(t, subset).value;
    forall x | x in r.rows ensures x.Keys == ColumnSet(t.columns) {
      var k :| 0 <= k < |t.rows| && t.rows[k] == x;
    }
    forall i, j | 0 <= i < j < |r.rows|
      ensures Get(r.rows[i], subset) != Get(r.rows[j], subset)
    {
      assert subset in ColumnSet(t.columns);
      if Get(r.rows[i], subset) == Get(r.rows[j], subset) {
        SameCellSameKey(r.rows[i], r.rows[j], subset);
      }
    }
  }

  /** Two rows agreeing on the subset column have the same key. */
  lemma SameKeySameCell(x: Row, y: Row, subset: string)
    requires subset != "" && subset in x && subset in y && DedupKey(x, subset) == DedupKey(y, subset)
    ensures x[subset] == y[subset]
  {
    assert DedupKey(x, subset)[subset] == x[subset];
    assert DedupKey(y, subset)[subset] == y[subset];
  }

  lemma SameCellSameKey(x: Row, y: Row, subset: string)
    requires subset != "" && subset in x && subset in y && x[subset] == y[subset]
    ensures DedupKey(x, subset) == DedupKey(y, subset)
  {
    assert DedupKey(x, subset) == map[subset := x[subset]];
    assert DedupKey(y, subset) == map[subset := y[subset]];
  }
}