/**
 * `transform_data` as the Python code runs it: one mutable table whose
 * rows are dropped, whose labels are replaced and whose columns are
 * written, added and dropped in place, statement by statement. Each method
 * is proved to leave the table in the state the matching function of
 * module `Transform` computes, so everything proved there about the
 * result holds of the table the method leaves.
 */
module Tables {
  import opened Wrappers
  import opened Frames
  import opened Cleaners
  import Transform

  /**
   * How a step ended: without an exception and in the state `r` computes,
   * or with the exception `r` names.
   */
  predicate Reaches(r: Result<Frame, Error>, err: Option<Error>, now: Frame) {
    match r
    case Ok(g) => err.None? && now == g
    case Err(e) => err == Some(e)
  }

  /**
   * One step of the header-row loop: with the rows before position `i`
   * already filtered, the row at `i` sits just after the kept ones, and
   * removing it exactly when it is the header extends the filtering by one.
   */
  lemma DropHeaderStep(visited: seq<Row>, i: nat, header: Row, rows: seq<Row>)
    requires i < |visited| && rows == WithoutRow(visited[..i], header) + visited[i..]
    ensures var k := |WithoutRow(visited[..i], header)|;
            && k < |rows| && rows[k] == visited[i]
            && (if visited[i] == header then rows[..k] + rows[k + 1..] else rows)
               == WithoutRow(visited[..i + 1], header) + visited[i + 1..]
  {
    var kept := WithoutRow(visited[..i], header);
    assert visited[..i + 1] == visited[..i] + [visited[i]];
    WithoutRowAppend(visited[..i], [visited[i]], header);
    assert [visited[i]][1..] == [];
    assert rows[|kept| + 1..] == visited[i + 1..];
    assert rows[..|kept|] == kept;
  }

  /** A pandas `DataFrame`: its column labels and its rows, each row one cell per label. */
  class Table {
    var columns: seq<string>
    var rows: seq<Row>

    constructor (columns: seq<string>, rows: seq<Row>)
      ensures this.columns == columns && this.rows == rows
    {
      this.columns := columns;
      this.rows := rows;
    }

    /** The table's current contents as a value. */
    function Snapshot(): Frame
      reads this
    {
      Frame(columns, rows)
    }

    /**
     * Lines 201-203: every row equal to the labels, as they stand before
     * stripping, is dropped while the rows are visited in order.
     */
    method DropHeaderRows()
      modifies this
      ensures columns == old(columns)
      ensures rows == WithoutRow(old(rows), HeaderRow(old(columns)))
    {
      var visited := rows;
      var header := HeaderRow(columns);
      var i := 0;
      while i < |visited|
        invariant 0 <= i <= |visited| && columns == old(columns)
        invariant rows == WithoutRow(visited[..i], header) + visited[i..]
      {
        var kept := WithoutRow(visited[..i], header);
        DropHeaderStep(visited, i, header, rows);
        if visited[i] == header {
          rows := rows[..|kept|] + rows[|kept| + 1..];
        }
        i := i + 1;
      }
      assert visited[..i] == visited;
    }

    /** Line 206: every label loses its surrounding whitespace. */
    method StripColumnNames()
      modifies this
      ensures columns == Transform.StripNames(old(columns)) && rows == old(rows)
    {
      columns := Transform.StripNames(columns);
    }

    /**
     * `df[name] = vals`: the column labelled `name` is overwritten where it
     * stands, or appended when there is none.
     */
    method SetColumn(name: string, vals: seq<Cell>)
      requires Rectangular(Snapshot()) && |vals| == |rows|
      modifies this
      ensures Snapshot() == Assign(old(Snapshot()), name, vals)
    {
      if name in columns {
        var k := IndexOf(columns, name);
        var current := rows;
        rows := seq(|current|, i requires 0 <= i < |current| => current[i][k := vals[i]]);
      } else {
        var current := rows;
        columns := columns + [name];
        rows := seq(|current|, i requires 0 <= i < |current| => current[i] + [vals[i]]);
      }
    }

    /** `df.drop(columns = names, inplace = True)`; the table is untouched when a label is missing. */
    method DropLabels(names: seq<string>) returns (err: Option<Error>)
      requires WellFormed(Snapshot())
      modifies this
      ensures Reaches(DropColumns(old(Snapshot()), names), err, Snapshot())
      ensures err.Some? ==> unchanged(this)
    {
      var r := DropColumns(Snapshot(), names);
      if r.Err? {
        return Some(r.error);
      }
      columns, rows := r.value.columns, r.value.rows;
      err := None;
    }

    /**
     * Line 209: both columns are read and cleaned, then both are written
     * back without whitespace; a missing label or a column the `.str`
     * accessor refuses raises before anything is written.
     */
    method CleanIdColumns() returns (err: Option<Error>)
      requires WellFormed(Snapshot())
      modifies this
      ensures Reaches(Transform.CleanIds(old(Snapshot())), err, Snapshot())
      ensures err.Some? ==> unchanged(this)
    {
      var ids := ColumnOf(Snapshot(), "EmployeeID");
      if ids.Err? {
        return Some(ids.error);
      }
      var cleanIds := Transform.RemoveSpacesStr(ids.value);
      if cleanIds.Err? {
        return Some(cleanIds.error);
      }
      var depts := ColumnOf(Snapshot(), "Department");
      if depts.Err? {
        return Some(depts.error);
      }
      var cleanDepts := Transform.RemoveSpacesStr(depts.value);
      if cleanDepts.Err? {
        return Some(cleanDepts.error);
      }
      SetColumn("EmployeeID", cleanIds.value);
      SetColumn("Department", cleanDepts.value);
      err := None;
    }

    /**
     * Lines 212-213: cells 2 and 4 of positional row 29 are read, written
     * to 3 and 5 in that order, then blanked. Without row 29 or column 4
     * the read raises before any write; with exactly five columns cell 3 is
     * already written when the write to cell 5 raises.
     */
    method PatchRow() returns (err: Option<Error>)
      requires Rectangular(Snapshot())
      modifies this
      ensures Reaches(PatchRow29(old(Snapshot())), err, Snapshot())
      ensures err.Some? && (|old(rows)| < 30 || |old(columns)| < 5) ==> unchanged(this)
      ensures err.Some? && |old(rows)| >= 30 && |old(columns)| == 5 ==>
                columns == old(columns) && rows == old(rows)[29 := old(rows)[29][3 := old(rows)[29][2]]]
    {
      if |rows| < 30 || |columns| < 5 {
        return Some(IndexError);
      }
      var row := rows[29];
      var second, fourth := row[2], row[4];
      rows := rows[29 := row[3 := second]];
      if |columns| == 5 {
        return Some(IndexError);
      }
      row := rows[29];
      row := row[5 := fourth];
      row := row[2 := Str("")][4 := Str("")];
      rows := rows[29 := row];
      err := None;
    }

    /** Lines 201-213, the row repair, in the order the statements run. */
    method RepairRows() returns (err: Option<Error>)
      requires Rectangular(Snapshot()) && Distinct(Transform.StripNames(columns))
      modifies this
      ensures Reaches(Transform.RowRepair(old(Snapshot())), err, Snapshot())
    {
      ghost var before := Snapshot();
      DropHeaderRows();
      StripColumnNames();
      assert Snapshot() == Transform.Relabelled(before);
      err := CleanIdColumns();
      if err.Some? {
        return;
      }
      err := PatchRow();
    }

    /** Line 216: the birthdates rewritten `DD/MM/YYYY`. */
    method CleanBirthDateColumn() returns (err: Option<Error>)
      requires WellFormed(Snapshot())
      modifies this
      ensures Reaches(Transform.CleanBirthDates(old(Snapshot())), err, Snapshot())
      ensures err.Some? ==> unchanged(this)
    {
      var births := ColumnOf(Snapshot(), "BirthDate");
      if births.Err? {
        return Some(births.error);
      }
      SetColumn("BirthDate", BirthdateCleaner(births.value));
      err := None;
    }

    /** Line 220 or 221: `name_cleaner` over one name column, written back in place. */
    method CleanNames(name: string) returns (err: Option<Error>)
      requires WellFormed(Snapshot())
      modifies this
      ensures Reaches(Transform.CleanNameColumn(old(Snapshot()), name), err, Snapshot())
      ensures err.Some? ==> unchanged(this)
    {
      var col := ColumnOf(Snapshot(), name);
      if col.Err? {
        return Some(col.error);
      }
      var cleaned := NameCleaner(col.value);
      if cleaned.Err? {
        return Some(cleaned.error);
      }
      SetColumn(name, cleaned.value);
      err := None;
    }

    /** Lines 216-221: birthdates, first names, last names. */
    method CleanFieldColumns() returns (err: Option<Error>)
      requires WellFormed(Snapshot())
      modifies this
      ensures Reaches(Transform.CleanFields(old(Snapshot())), err, Snapshot())
    {
      err := CleanBirthDateColumn();
      if err.Some? {
        return;
      }
      err := CleanNames("FirstName");
      if err.Some? {
        return;
      }
      err := CleanNames("LastName");
    }

    /** Line 228: `Age` from the cleaned birthdates and the reference date `01/01/2023`. */
    method AddAgeColumn() returns (err: Option<Error>)
      requires WellFormed(Snapshot())
      modifies this
      ensures Reaches(Transform.AddAge(old(Snapshot())), err, Snapshot())
      ensures err.Some? ==> unchanged(this)
    {
      var births := ColumnOf(Snapshot(), "BirthDate");
      if births.Err? {
        return Some(births.error);
      }
      ReferenceInRange();
      var ages := CalculateAge(DayFirst, births.value, Sentinel);
      if ages.Err? {
        return Some(ages.error);
      }
      SetColumn("Age", ages.value);
      err := None;
    }

    /**
     * Line 232: `number_cleaner` first fills the NaN salaries of the table
     * itself with `"0"`, so the fill stays even when a salary then fails
     * to parse.
     */
    method CleanSalaryColumn() returns (err: Option<Error>)
      requires WellFormed(Snapshot())
      modifies this
      ensures Reaches(Transform.CleanSalary(old(Snapshot())), err, Snapshot())
      ensures err.Some? && "Salary" !in old(columns) ==> unchanged(this)
      ensures err.Some? && "Salary" in old(columns) ==>
                Snapshot() == Assign(old(Snapshot()), "Salary",
                                     FillNa(ColumnOf(old(Snapshot()), "Salary").value, Str("0")))
    {
      var salaries := ColumnOf(Snapshot(), "Salary");
      if salaries.Err? {
        return Some(salaries.error);
      }
      var filled := FillNa(salaries.value, Str("0"));
      SetColumn("Salary", filled);
      Transform.FillNaInvisible(salaries.value);
      var cleaned := NumberCleaner(filled);
      if cleaned.Err? {
        return Some(cleaned.error);
      }
      SetColumn("Salary", cleaned.value);
      err := None;
    }

    /** Line 235: `salaryBucketer` applied to every row, stored as `SalaryBucket`. */
    method AddBucketColumn() returns (err: Option<Error>)
      requires WellFormed(Snapshot())
      modifies this
      ensures Reaches(Transform.AddBuckets(old(Snapshot())), err, Snapshot())
      ensures err.Some? ==> unchanged(this)
    {
      var salaries := ColumnOf(Snapshot(), "Salary");
      if salaries.Err? {
        return Some(salaries.error);
      }
      var buckets := TryMap(SalaryBucketCell, salaries.value);
      if buckets.Err? {
        return Some(buckets.error);
      }
      SetColumn("SalaryBucket", buckets.value);
      err := None;
    }
  }

  /**
   * `create_fullName` (lines 91-102): `FirstName Cleaned` is added and
   * `FirstName` dropped in the caller's table, then `FullName` is added and
   * returned. An exception while building `FullName` leaves the first two
   * changes in place.
   */
  method CreateFullName(t: Table) returns (full: seq<Cell>, err: Option<Error>)
    requires WellFormed(t.Snapshot())
    modifies t
    ensures var r := Transform.CreateFullName(old(t.Snapshot()));
            && (err.None? <==> r.Ok?)
            && (r.Ok? ==> t.Snapshot() == r.value.0 && full == r.value.1)
            && (r.Err? ==> err == Some(r.error))
    ensures Transform.SplitFirstName(old(t.Snapshot())).Err? ==> err.Some? && unchanged(t)
    ensures Transform.SplitFirstName(old(t.Snapshot())).Ok? && err.Some? ==>
              t.Snapshot() == Transform.SplitFirstName(old(t.Snapshot())).value
  {
    full := [];
    var firsts := ColumnOf(t.Snapshot(), "FirstName");
    if firsts.Err? {
      return full, Some(firsts.error);
    }
    var split := Transform.SplitColumn(firsts.value);
    if split.Err? {
      return full, Some(split.error);
    }
    t.SetColumn(Transform.Cleaned, split.value);
    assert LabelSet(["FirstName"]) == {"FirstName"};
    err := t.DropLabels(["FirstName"]);
    assert err.None?;
    var cleaned := ColumnOf(t.Snapshot(), Transform.Cleaned).value;
    var lasts := ColumnOf(t.Snapshot(), "LastName");
    if lasts.Err? {
      return full, Some(lasts.error);
    }
    var joined := Transform.FullNameColumn(cleaned, lasts.value);
    if joined.Err? {
      return full, Some(joined.error);
    }
    full := joined.value;
    t.SetColumn("FullName", full);
  }

  /** Lines 224-235: `Full Name`, `Age`, the cleaned `Salary` and `SalaryBucket`. */
  method DeriveColumns(t: Table) returns (err: Option<Error>)
    requires WellFormed(t.Snapshot())
    modifies t
    ensures Reaches(Transform.Derive(old(t.Snapshot())), err, t.Snapshot())
  {
    var full;
    full, err := CreateFullName(t);
    if err.Some? {
      return;
    }
    t.SetColumn("Full Name", full);
    err := t.AddAgeColumn();
    if err.Some? {
      return;
    }
    err := t.CleanSalaryColumn();
    if err.Some? {
      return;
    }
    err := t.AddBucketColumn();
  }

  /**
   * `transform_data` (lines 201-239) on the table it is given: it ends
   * without an exception exactly when `Transform` does, and then holds
   * the frame `Transform` computes.
   */
  method TransformData(t: Table) returns (err: Option<Error>)
    requires Rectangular(t.Snapshot()) && Distinct(Transform.StripNames(t.columns))
    modifies t
    ensures Reaches(Transform.Transform(old(t.Snapshot())), err, t.Snapshot())
  {
    err := t.RepairRows();
    if err.Some? {
      return;
    }
    err := t.CleanFieldColumns();
    if err.Some? {
      return;
    }
    err := DeriveColumns(t);
    if err.Some? {
      return;
    }
    err := t.DropLabels(Transform.Dropped);
  }
}
