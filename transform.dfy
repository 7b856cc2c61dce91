/**
 * `transform_data` as a function of the frame it receives: the row repair
 * of lines 201-213, the field cleaning of lines 216-221, `create_fullName`
 * (lines 91-102), the derived columns of lines 224-235 and the final drop
 * of line 239. Each stage is a function on frames; `Transform` chains them
 * and stops at the first error, as the Python code stops at the first
 * exception. The class in `table.dfy` performs the same steps in place and
 * is proved to end in the state computed here.
 */
module Transform {
  import opened Wrappers
  import opened Text
  import opened Dates
  import opened Frames
  import opened Cleaners

  /** `dataframe.columns.str.strip()`. */
  function StripNames(names: seq<string>): seq<string> {
    seq(|names|, j requires 0 <= j < |names| => Strip(names[j]))
  }

  lemma StripIdempotent(s: string)
    ensures Strip(Strip(s)) == Strip(s)
  {
    StripSlice(s);
    StripTrimmed(Strip(s));
  }

  /** Stripping labels twice is stripping them once: no label keeps edge whitespace. */
  lemma StripNamesIdempotent(names: seq<string>)
    ensures |StripNames(names)| == |names|
    ensures StripNames(StripNames(names)) == StripNames(names)
  {
    forall j | 0 <= j < |names| {
      StripIdempotent(names[j]);
    }
  }

  /**
   * `.str.replace('\s', '')` on one cell, read as the regular expression the
   * comment at line 208 means: a string loses its whitespace, and a value
   * that is not a string becomes NaN, as every `.str` method makes it.
   */
  function RemoveSpacesCell(c: Cell): (r: Cell)
    ensures r.Str? <==> c.Str?
    ensures !c.Str? ==> r == Nan
    ensures r.Str? ==> NoSpace(r.s) && (NoSpace(c.s) ==> r == c)
    ensures r.Str? ==> |r.s| <= |c.s|
  {
    if c.Str? then
      (if NoSpace(c.s) then RemoveSpacesNoSpace(c.s); Str(RemoveSpaces(c.s)) else Str(RemoveSpaces(c.s)))
    else Nan
  }

  function RemoveSpacesColumn(col: seq<Cell>): (r: seq<Cell>)
    ensures |r| == |col| && forall i :: 0 <= i < |col| ==> r[i] == RemoveSpacesCell(col[i])
  {
    seq(|col|, i requires 0 <= i < |col| => RemoveSpacesCell(col[i]))
  }

  /** A cell the identifier cleaning can leave behind: NaN or a string without whitespace. */
  predicate SpaceFree(c: Cell) {
    c.Nan? || (c.Str? && NoSpace(c.s))
  }

  // ---------------------------------------------------------------------
  // Lines 201-213: row repair

  /** The frame after the header rows are dropped and the labels stripped (lines 201-206). */
  function Relabelled(f: Frame): (g: Frame)
    requires Rectangular(f)
    ensures Rectangular(g) && g.columns == StripNames(f.columns)
    ensures g.rows == WithoutRow(f.rows, HeaderRow(f.columns))
  {
    WithoutRowRectangular(f, HeaderRow(f.columns));
    Frame(StripNames(f.columns), WithoutRow(f.rows, HeaderRow(f.columns)))
  }

  /**
   * The `.str` accessor of line 209: pandas refuses a column whose values
   * include numbers but no string, as a column of integer identifiers.
   */
  predicate StrRefused(col: seq<Cell>) {
    (exists i :: 0 <= i < |col| && col[i].Num?) && forall i :: 0 <= i < |col| ==> !col[i].Str?
  }

  /** `col.str.replace('\s', '')`: `AttributeError` where the accessor is refused. */
  function RemoveSpacesStr(col: seq<Cell>): (r: Result<seq<Cell>, Error>)
    ensures r.Err? <==> StrRefused(col)
    ensures r.Err? ==> r.error == AttributeError
    ensures r.Ok? ==> |r.value| == |col| && forall i :: 0 <= i < |col| ==> r.value[i] == RemoveSpacesCell(col[i])
  {
    if StrRefused(col) then Err(AttributeError) else Ok(RemoveSpacesColumn(col))
  }

  /**
   * Line 209: the identifier column is read and cleaned, then the
   * department column, and only then are both written back without
   * whitespace; `KeyError` for a missing label and `AttributeError` for a
   * column `.str` refuses, whichever comes first.
   */
  function CleanIds(f: Frame): (r: Result<Frame, Error>)
    requires WellFormed(f)
    ensures r.Err? <==> || "EmployeeID" !in f.columns || StrRefused(ColumnOf(f, "EmployeeID").value)
                        || "Department" !in f.columns || StrRefused(ColumnOf(f, "Department").value)
    ensures r.Err? ==> r.error == if "EmployeeID" !in f.columns then KeyError(["EmployeeID"])
                                  else if StrRefused(ColumnOf(f, "EmployeeID").value) then AttributeError
                                  else if "Department" !in f.columns then KeyError(["Department"])
                                  else AttributeError
    ensures r.Ok? ==> WellFormed(r.value) && r.value.columns == f.columns
    ensures r.Ok? ==> |r.value.rows| == |f.rows|
    ensures r.Ok? ==> forall i :: 0 <= i < |f.rows| ==>
                        && Get(r.value, i, "EmployeeID") == RemoveSpacesCell(Get(f, i, "EmployeeID"))
                        && Get(r.value, i, "Department") == RemoveSpacesCell(Get(f, i, "Department"))
    ensures r.Ok? ==> forall i, m :: 0 <= i < |f.rows| && m in f.columns && m != "EmployeeID" && m != "Department" ==>
                        Get(r.value, i, m) == Get(f, i, m)
  {
    var ids :- ColumnOf(f, "EmployeeID");
    var cleanIds :- RemoveSpacesStr(ids);
    var depts :- ColumnOf(f, "Department");
    var cleanDepts :- RemoveSpacesStr(depts);
    Ok(Assign(Assign(f, "EmployeeID", cleanIds), "Department", cleanDepts))
  }

  /** A table whose identifiers are all integers (as `read_csv` types such a column) stops at line 209. */
  lemma IntegerIdsRefused(f: Frame)
    requires WellFormed(f) && "EmployeeID" in f.columns && |f.rows| > 0
    requires forall i :: 0 <= i < |f.rows| ==> Get(f, i, "EmployeeID").Num?
    ensures CleanIds(f) == Err(AttributeError)
  {
    var ids := ColumnOf(f, "EmployeeID").value;
    assert ids[0].Num?;
  }

  /**
   * Lines 201-213. The header rows are compared with the labels as read,
   * before stripping; identifier and department lose their whitespace; then
   * positional row 29 is patched.
   */
  function RowRepair(f: Frame): (r: Result<Frame, Error>)
    requires Rectangular(f) && Distinct(StripNames(f.columns))
    ensures var g := Relabelled(f);
            r.Err? <==> CleanIds(g).Err? || |g.rows| < 30 || |g.columns| < 6
    ensures r.Err? ==> var g := Relabelled(f);
                       r.error == if CleanIds(g).Err? then CleanIds(g).error else IndexError
    ensures r.Ok? ==> && WellFormed(r.value) && r.value.columns == StripNames(f.columns)
                      && |r.value.rows| == |WithoutRow(f.rows, HeaderRow(f.columns))|
    ensures r.Ok? ==> |r.value.rows| >= 30 && |r.value.columns| >= 6
    ensures r.Ok? ==> r.value.rows[29][2] == Str("") && r.value.rows[29][4] == Str("")
    ensures r.Ok? ==> forall i :: 0 <= i < |r.value.rows| && i != 29 ==>
                        SpaceFree(Get(r.value, i, "EmployeeID")) && SpaceFree(Get(r.value, i, "Department"))
  {
    var g := Relabelled(f);
    var g1 :- CleanIds(g);
    var p :- PatchRow29(g1);
    assert forall i :: 0 <= i < |p.rows| && i != 29 ==>
             Get(p, i, "EmployeeID") == Get(g1, i, "EmployeeID")
             && Get(p, i, "Department") == Get(g1, i, "Department");
    Ok(p)
  }

  // ---------------------------------------------------------------------
  // Lines 216-221: field cleaning

  /** Every cell of column `name` is a string. */
  predicate AllText(f: Frame, name: string)
    requires Rectangular(f) && name in f.columns
  {
    forall i :: 0 <= i < |f.rows| ==> Get(f, i, name).Str?
  }

  /** Line 216: the birthdates rewritten `DD/MM/YYYY`; `KeyError` without the column. */
  function CleanBirthDates(f: Frame): (r: Result<Frame, Error>)
    requires WellFormed(f)
    ensures r.Ok? <==> "BirthDate" in f.columns
    ensures r.Err? ==> r.error == KeyError(["BirthDate"])
    ensures r.Ok? ==> WellFormed(r.value) && r.value.columns == f.columns && |r.value.rows| == |f.rows|
    ensures r.Ok? ==> forall i :: 0 <= i < |f.rows| ==>
                        Get(r.value, i, "BirthDate") == Str(CleanBirthdate(Get(f, i, "BirthDate")))
    ensures r.Ok? ==> forall i, m :: 0 <= i < |f.rows| && m in f.columns && m != "BirthDate" ==>
                        Get(r.value, i, m) == Get(f, i, m)
  {
    var births :- ColumnOf(f, "BirthDate");
    Ok(Assign(f, "BirthDate", BirthdateCleaner(births)))
  }

  /** Line 220 or 221: one name column cleaned; `TypeError` for a cell that is not a string. */
  function CleanNameColumn(f: Frame, name: string): (r: Result<Frame, Error>)
    requires WellFormed(f)
    ensures r.Ok? <==> name in f.columns && AllText(f, name)
    ensures r.Err? ==> r.error == if name in f.columns then TypeError else KeyError([name])
    ensures r.Ok? ==> WellFormed(r.value) && r.value.columns == f.columns && |r.value.rows| == |f.rows|
    ensures r.Ok? ==> forall i :: 0 <= i < |f.rows| ==>
                        Get(r.value, i, name) == Str(CleanName(Get(f, i, name).s))
    ensures r.Ok? ==> forall i, m :: 0 <= i < |f.rows| && m in f.columns && m != name ==>
                        Get(r.value, i, m) == Get(f, i, m)
  {
    var col :- ColumnOf(f, name);
    var cleaned :- NameCleaner(col);
    Ok(Assign(f, name, cleaned))
  }

  /**
   * Lines 216-221: the birthdates are rewritten `DD/MM/YYYY`, then the first
   * and the last names are cleaned.
   */
  function CleanFields(f: Frame): (r: Result<Frame, Error>)
    requires WellFormed(f)
    ensures r.Ok? ==> WellFormed(r.value) && r.value.columns == f.columns && |r.value.rows| == |f.rows|
  {
    var g1 :- CleanBirthDates(f);
    var g2 :- CleanNameColumn(g1, "FirstName");
    CleanNameColumn(g2, "LastName")
  }

  /** Whether `CleanFields` succeeds: all three columns are there and both name columns hold only strings. */
  lemma CleanFieldsOk(f: Frame)
    requires WellFormed(f)
    ensures CleanFields(f).Ok? <==> && "BirthDate" in f.columns && "FirstName" in f.columns && "LastName" in f.columns
                                    && AllText(f, "FirstName") && AllText(f, "LastName")
  {
    var r1 := CleanBirthDates(f);
    if r1.Ok? {
      var r2 := CleanNameColumn(r1.value, "FirstName");
      if "FirstName" in f.columns {
        assert AllText(r1.value, "FirstName") == AllText(f, "FirstName");
      }
      if r2.Ok? && "LastName" in f.columns {
        assert AllText(r2.value, "LastName") == AllText(f, "LastName");
      }
    }
  }

  /** What `CleanFields` writes: cleaned birthdates and names, every other cell as it was. */
  lemma CleanFieldsValues(f: Frame)
    requires WellFormed(f) && CleanFields(f).Ok?
    ensures "BirthDate" in f.columns && "FirstName" in f.columns && "LastName" in f.columns
    ensures var g := CleanFields(f).value;
            forall i :: 0 <= i < |f.rows| ==>
              && Get(g, i, "BirthDate") == Str(CleanBirthdate(Get(f, i, "BirthDate")))
              && Get(f, i, "FirstName").Str? && Get(f, i, "LastName").Str?
              && Get(g, i, "FirstName") == Str(CleanName(Get(f, i, "FirstName").s))
              && Get(g, i, "LastName") == Str(CleanName(Get(f, i, "LastName").s))
    ensures var g := CleanFields(f).value;
            forall i, m :: 0 <= i < |f.rows| && m in f.columns
                           && m != "BirthDate" && m != "FirstName" && m != "LastName" ==>
              Get(g, i, m) == Get(f, i, m)
  {
    CleanFieldsOk(f);
  }

  // ---------------------------------------------------------------------
  // Lines 91-102: create_fullName

  /** Lines 91-93 over a column: each first name split before its capitals. */
  function SplitColumn(col: seq<Cell>): (r: Result<seq<Cell>, Error>)
    ensures r.Ok? <==> forall i :: 0 <= i < |col| ==> col[i].Str?
    ensures r.Err? ==> r.error == TypeError
    ensures r.Ok? ==> |r.value| == |col|
                      && forall i :: 0 <= i < |col| ==> r.value[i] == Str(SplitCapitals(col[i].s))
  {
    TryMap(SplitCapitalsCell, col)
  }

  /** Line 98 over two columns: one full name per row, or the first row's error. */
  function FullNameColumn(firsts: seq<Cell>, lasts: seq<Cell>): (r: Result<seq<Cell>, Error>)
    requires |firsts| == |lasts|
    ensures r.Ok? <==> forall i :: 0 <= i < |firsts| ==> !firsts[i].Num? && !lasts[i].Num?
    ensures r.Err? ==> r.error == TypeError
    ensures r.Ok? ==> |r.value| == |firsts|
                      && forall i :: 0 <= i < |firsts| ==> Ok(r.value[i]) == FullNameCell(firsts[i], lasts[i])
    decreases |firsts|
  {
    if firsts == [] then Ok([])
    else
      var head :- FullNameCell(firsts[0], lasts[0]);
      var tail :- FullNameColumn(firsts[1..], lasts[1..]);
      assert forall i :: 1 <= i < |firsts| ==> firsts[i] == firsts[1..][i - 1] && lasts[i] == lasts[1..][i - 1];
      Ok([head] + tail)
  }

  /** The label line 94 adds. */
  const Cleaned: string := "FirstName Cleaned"

  /**
   * Lines 91-95: `FirstName Cleaned` receives the split first names and
   * `FirstName` is dropped; a first name that is not a string makes
   * `re.sub` raise.
   */
  function SplitFirstName(f: Frame): (r: Result<Frame, Error>)
    requires WellFormed(f)
    ensures r.Ok? <==> "FirstName" in f.columns && AllText(f, "FirstName")
    ensures r.Err? ==> r.error == if "FirstName" in f.columns then TypeError else KeyError(["FirstName"])
    ensures r.Ok? ==> WellFormed(r.value) && |r.value.rows| == |f.rows|
    ensures r.Ok? ==> r.value.columns == KeepLabels(if Cleaned in f.columns then f.columns else f.columns + [Cleaned],
                                                    {"FirstName"})
    ensures r.Ok? ==> forall m :: m in r.value.columns <==> (m in f.columns && m != "FirstName") || m == Cleaned
    ensures r.Ok? ==> forall i :: 0 <= i < |f.rows| ==>
                        Get(r.value, i, Cleaned) == Str(SplitCapitals(Get(f, i, "FirstName").s))
    ensures r.Ok? ==> forall i, m :: 0 <= i < |f.rows| && m in f.columns && m != "FirstName" && m != Cleaned ==>
                        Get(r.value, i, m) == Get(f, i, m)
  {
    var firsts :- ColumnOf(f, "FirstName");
    var split :- SplitColumn(firsts);
    var g := Assign(f, Cleaned, split);
    assert LabelSet(["FirstName"]) == {"FirstName"};
    DropColumns(g, ["FirstName"])
  }

  /**
   * Lines 98-100: `FullName` is written from `FirstName Cleaned` and
   * `LastName` and returned; adding a number to a string raises.
   */
  function AddFullName(f: Frame): (r: Result<(Frame, seq<Cell>), Error>)
    requires WellFormed(f)
    ensures r.Ok? <==> && Cleaned in f.columns && "LastName" in f.columns
                       && forall i :: 0 <= i < |f.rows| ==> !Get(f, i, Cleaned).Num? && !Get(f, i, "LastName").Num?
    ensures r.Err? ==> r.error == if Cleaned !in f.columns then KeyError([Cleaned])
                                  else if "LastName" !in f.columns then KeyError(["LastName"])
                                  else TypeError
    ensures r.Ok? ==> && WellFormed(r.value.0) && |r.value.0.rows| == |f.rows| && |r.value.1| == |f.rows|
                      && r.value.0.columns == if "FullName" in f.columns then f.columns else f.columns + ["FullName"]
    ensures r.Ok? ==> forall m :: m in r.value.0.columns <==> m in f.columns || m == "FullName"
    ensures r.Ok? ==> forall i :: 0 <= i < |f.rows| ==>
                        && Get(r.value.0, i, "FullName") == r.value.1[i]
                        && Ok(r.value.1[i]) == FullNameCell(Get(f, i, Cleaned), Get(f, i, "LastName"))
    ensures r.Ok? ==> forall i, m :: 0 <= i < |f.rows| && m in f.columns && m != "FullName" ==>
                        Get(r.value.0, i, m) == Get(f, i, m)
  {
    var firsts :- ColumnOf(f, Cleaned);
    var lasts :- ColumnOf(f, "LastName");
    var full :- FullNameColumn(firsts, lasts);
    Ok((Assign(f, "FullName", full), full))
  }

  /** `create_fullName` (lines 91-102): the changed frame and the returned `FullName` column. */
  function CreateFullName(f: Frame): (r: Result<(Frame, seq<Cell>), Error>)
    requires WellFormed(f)
    ensures r.Ok? ==> WellFormed(r.value.0) && |r.value.0.rows| == |f.rows| && |r.value.1| == |f.rows|
  {
    var g :- SplitFirstName(f);
    AddFullName(g)
  }

  /**
   * The full name of a row: the split first name and the last name joined
   * by one space and stripped.
   */
  function FullNameText(first: string, last: string): string {
    Strip(first + " " + last)
  }

  /**
   * `create_fullName` on string names: `FullName` is the split first name
   * and the last name joined and stripped, the returned column is that
   * column, and every other column but `FirstName` keeps its cells.
   */
  lemma CreateFullNameValues(f: Frame)
    requires WellFormed(f) && NamesReady(f)
    ensures CreateFullName(f).Ok?
    ensures var (g, full) := CreateFullName(f).value;
            && "FullName" in g.columns && "FirstName" !in g.columns
            && forall i :: 0 <= i < |f.rows| ==>
                 && Get(g, i, "FullName") == full[i]
                 && full[i] == Str(FullNameText(SplitCapitals(Get(f, i, "FirstName").s), Get(f, i, "LastName").s))
  {
    SplitKeepsLastName(f);
    SplitCleanedText(f);
    var s := SplitFirstName(f).value;
    AddFullNameOk(s);
    CreateFullNameSteps(f);
    var a := AddFullName(s);
    forall i | 0 <= i < |f.rows|
      ensures a.value.1[i] == Str(FullNameText(SplitCapitals(Get(f, i, "FirstName").s), Get(f, i, "LastName").s))
    {
      FullNameOfText(Get(s, i, Cleaned), Get(s, i, "LastName"));
    }
  }

  /** `create_fullName` leaves every column but `FirstName` and the two it writes as it was. */
  lemma CreateFullNameKeeps(f: Frame, m: string)
    requires WellFormed(f) && CreateFullName(f).Ok?
    requires m in f.columns && m != "FirstName" && m != Cleaned && m != "FullName"
    ensures var g := CreateFullName(f).value.0;
            m in g.columns && forall i :: 0 <= i < |f.rows| ==> Get(g, i, m) == Get(f, i, m)
  {
    CreateFullNameSteps(f);
    var s := SplitFirstName(f).value;
    assert m in s.columns;
    forall i | 0 <= i < |f.rows|
      ensures Get(CreateFullName(f).value.0, i, m) == Get(f, i, m)
    {
      assert Get(s, i, m) == Get(f, i, m);
    }
  }

  /** The two stages of `create_fullName`, the second run on the result of the first. */
  lemma CreateFullNameSteps(f: Frame)
    requires WellFormed(f)
    ensures CreateFullName(f).Ok? ==> SplitFirstName(f).Ok?
    ensures SplitFirstName(f).Ok? ==> CreateFullName(f) == AddFullName(SplitFirstName(f).value)
  {
  }

  lemma SplitKeepsLastName(f: Frame)
    requires WellFormed(f) && "FirstName" in f.columns && "LastName" in f.columns
    requires AllText(f, "FirstName") && AllText(f, "LastName")
    ensures SplitFirstName(f).Ok?
    ensures var s := SplitFirstName(f).value;
            && Cleaned in s.columns && "LastName" in s.columns && AllText(s, "LastName")
            && forall i :: 0 <= i < |f.rows| ==> Get(s, i, "LastName") == Get(f, i, "LastName")
  {
    var r := SplitFirstName(f);
    assert r.Ok?;
    var s := r.value;
    assert Cleaned in s.columns && "LastName" in s.columns;
    forall i | 0 <= i < |f.rows|
      ensures Get(s, i, "LastName") == Get(f, i, "LastName") && Get(s, i, "LastName").Str?
    {
      assert Get(f, i, "LastName").Str?;
    }
  }

  lemma SplitCleanedText(f: Frame)
    requires WellFormed(f) && "FirstName" in f.columns && AllText(f, "FirstName")
    ensures SplitFirstName(f).Ok?
    ensures var s := SplitFirstName(f).value;
            && Cleaned in s.columns && AllText(s, Cleaned)
            && forall i :: 0 <= i < |f.rows| ==> Get(s, i, Cleaned) == Str(SplitCapitals(Get(f, i, "FirstName").s))
  {
  }

  lemma AddFullNameOk(s: Frame)
    requires WellFormed(s) && Cleaned in s.columns && "LastName" in s.columns
    requires AllText(s, Cleaned) && AllText(s, "LastName")
    ensures AddFullName(s).Ok?
  {
  }

  lemma FullNameOfText(first: Cell, last: Cell)
    requires first.Str? && last.Str?
    ensures FullNameCell(first, last) == Ok(Str(FullNameText(first.s, last.s)))
  {
  }

  // ---------------------------------------------------------------------
  // Lines 224-235: derived columns

  /**
   * Line 228: `Age` from the birthdates and the reference date. A birthdate
   * that is no date in the `Timestamp` range raises `ValueError`, one that
   * lies too far from the reference raises `OverflowError`, and a NaN
   * raises `ValueError`, in the order `calculate_age` meets them.
   */
  function AddAge(f: Frame): (r: Result<Frame, Error>)
    requires WellFormed(f)
    ensures r.Ok? <==> "BirthDate" in f.columns && forall i :: 0 <= i < |f.rows| ==> AgeOf(Get(f, i, "BirthDate")).Some?
    ensures r.Err? ==> r.error == if "BirthDate" !in f.columns then KeyError(["BirthDate"])
                                  else if && (forall i :: 0 <= i < |f.rows| ==> Converts(DayFirst, Get(f, i, "BirthDate")))
                                          && exists i :: 0 <= i < |f.rows| && OverflowsAt(DayFirst, Get(f, i, "BirthDate"), ReferenceDate)
                                  then OverflowError
                                  else ValueError
    ensures r.Ok? ==> && WellFormed(r.value) && |r.value.rows| == |f.rows|
                      && r.value.columns == if "Age" in f.columns then f.columns else f.columns + ["Age"]
    ensures r.Ok? ==> forall m :: m in r.value.columns <==> m in f.columns || m == "Age"
    ensures r.Ok? ==> forall i :: 0 <= i < |f.rows| ==>
                        Get(r.value, i, "Age") == Num(Age(ParseDMY(Get(f, i, "BirthDate").s).value, ReferenceDate))
    ensures r.Ok? ==> forall i, m :: 0 <= i < |f.rows| && m in f.columns && m != "Age" ==>
                        Get(r.value, i, m) == Get(f, i, m)
  {
    var births :- ColumnOf(f, "BirthDate");
    SentinelIsReference();
    AgesOfColumn(f, births);
    var ages :- CalculateAge(DayFirst, births, Sentinel);
    Ok(Assign(f, "Age", ages))
  }

  /** What `calculate_age` makes of a frame's `BirthDate` column against `01/01/2023`, row by row. */
  lemma AgesOfColumn(f: Frame, births: seq<Cell>)
    requires Rectangular(f) && ColumnOf(f, "BirthDate") == Ok(births)
    ensures ValidDate(ReferenceDate)
    ensures var r := CalculateAge(DayFirst, births, Sentinel);
            && (r.Ok? <==> forall i :: 0 <= i < |f.rows| ==> AgeOf(Get(f, i, "BirthDate")).Some?)
            && (r.Err? ==> r.error == if && (forall i :: 0 <= i < |f.rows| ==> Converts(DayFirst, Get(f, i, "BirthDate")))
                                         && exists i :: 0 <= i < |f.rows| && OverflowsAt(DayFirst, Get(f, i, "BirthDate"), ReferenceDate)
                                      then OverflowError
                                      else ValueError)
            && (r.Ok? ==> |r.value| == |f.rows|
                          && forall i :: 0 <= i < |f.rows| ==>
                               r.value[i] == Num(Age(ParseDMY(Get(f, i, "BirthDate").s).value, ReferenceDate)))
  {
    ReferenceInRange();
    forall i | 0 <= i < |f.rows|
      ensures AgeOf(births[i]).Some? <==> Birthday(DayFirst, births[i]).Some? && !OverflowsAt(DayFirst, births[i], ReferenceDate)
    {
    }
  }

  /**
   * The in-place `fillna('0')` of line 148 does not change what
   * `number_cleaner` cleans: a NaN salary is read as `"0"` either way.
   */
  lemma FillNaInvisible(col: seq<Cell>)
    ensures forall i :: 0 <= i < |col| ==> CleanNumber(FillNa(col, Str("0"))[i]) == CleanNumber(col[i])
  {
    assert CleanNumber(Str("0")) == CleanNumber(Nan);
  }

  /**
   * Line 232: `number_cleaner` fills the NaN salaries of the frame with
   * `"0"` in place, and its result then replaces the column.
   */
  function CleanSalary(f: Frame): (r: Result<Frame, Error>)
    requires WellFormed(f)
    ensures r.Ok? <==> "Salary" in f.columns && forall i :: 0 <= i < |f.rows| ==> CleanNumber(Get(f, i, "Salary")).Ok?
    ensures r.Err? ==> r.error == if "Salary" !in f.columns then KeyError(["Salary"])
                                  else if exists i :: 0 <= i < |f.rows| && Get(f, i, "Salary").Num? then TypeError
                                  else ValueError
    ensures r.Ok? ==> WellFormed(r.value) && r.value.columns == f.columns && |r.value.rows| == |f.rows|
    ensures r.Ok? ==> forall i :: 0 <= i < |f.rows| ==>
                        Get(r.value, i, "Salary") == Num(CleanNumber(Get(f, i, "Salary")).value)
    ensures r.Ok? ==> forall i, m :: 0 <= i < |f.rows| && m in f.columns && m != "Salary" ==>
                        Get(r.value, i, m) == Get(f, i, m)
  {
    var salaries :- ColumnOf(f, "Salary");
    var filled := FillNa(salaries, Str("0"));
    var g := Assign(f, "Salary", filled);
    FillNaInvisible(salaries);
    var cleaned :- NumberCleaner(filled);
    Ok(Assign(g, "Salary", cleaned))
  }

  /**
   * Line 235: `salaryBucketer` applied to every row; a salary that is a
   * string cannot be compared with a number.
   */
  function AddBuckets(f: Frame): (r: Result<Frame, Error>)
    requires WellFormed(f)
    ensures r.Ok? <==> "Salary" in f.columns && forall i :: 0 <= i < |f.rows| ==> !Get(f, i, "Salary").Str?
    ensures r.Err? ==> r.error == if "Salary" in f.columns then TypeError else KeyError(["Salary"])
    ensures r.Ok? ==> && WellFormed(r.value) && |r.value.rows| == |f.rows|
                      && r.value.columns == if "SalaryBucket" in f.columns then f.columns else f.columns + ["SalaryBucket"]
    ensures r.Ok? ==> forall i :: 0 <= i < |f.rows| ==>
                        Ok(Get(r.value, i, "SalaryBucket")) == SalaryBucketCell(Get(f, i, "Salary"))
    ensures r.Ok? ==> forall i, m :: 0 <= i < |f.rows| && m in f.columns && m != "SalaryBucket" ==>
                        Get(r.value, i, m) == Get(f, i, m)
  {
    var salaries :- ColumnOf(f, "Salary");
    var buckets :- TryMap(SalaryBucketCell, salaries);
    Ok(Assign(f, "SalaryBucket", buckets))
  }

  /**
   * Lines 224-235: `create_fullName`, its result stored as `Full Name`, then
   * `Age`, the cleaned `Salary` and `SalaryBucket`.
   */
  function Derive(f: Frame): (r: Result<Frame, Error>)
    requires WellFormed(f)
    ensures r.Ok? ==> WellFormed(r.value) && |r.value.rows| == |f.rows|
  {
    var named :- CreateFullName(f);
    var g1 := Assign(named.0, "Full Name", named.1);
    var g2 :- AddAge(g1);
    var g3 :- CleanSalary(g2);
    AddBuckets(g3)
  }

  /** `g` has the rows of `f` and holds column `m` of `f` unchanged. */
  predicate KeepsColumn(f: Frame, g: Frame, m: string)
    requires Rectangular(f) && Rectangular(g)
  {
    && m in f.columns && m in g.columns && |g.rows| == |f.rows|
    && forall i :: 0 <= i < |f.rows| ==> Get(g, i, m) == Get(f, i, m)
  }

  lemma KeepsColumnTrans(f: Frame, g: Frame, h: Frame, m: string)
    requires Rectangular(f) && Rectangular(g) && Rectangular(h)
    requires KeepsColumn(f, g, m) && KeepsColumn(g, h, m)
    ensures KeepsColumn(f, h, m)
  {
  }

  /** The intermediate frames of `Derive`, each stage of which succeeded when `Derive` did. */
  lemma DeriveSteps(f: Frame) returns (g1: Frame, g2: Frame, g3: Frame)
    requires WellFormed(f) && Derive(f).Ok?
    ensures CreateFullName(f).Ok?
    ensures g1 == Assign(CreateFullName(f).value.0, "Full Name", CreateFullName(f).value.1)
    ensures WellFormed(g1) && |g1.rows| == |f.rows|
    ensures AddAge(g1) == Ok(g2) && CleanSalary(g2) == Ok(g3) && AddBuckets(g3) == Derive(f)
  {
    var named := CreateFullName(f).value;
    g1 := Assign(named.0, "Full Name", named.1);
    g2 := AddAge(g1).value;
    g3 := CleanSalary(g2).value;
  }

  /** The names `Derive` needs, present and all strings, as `CleanFields` leaves them. */
  predicate NamesReady(f: Frame)
    requires Rectangular(f)
  {
    "FirstName" in f.columns && "LastName" in f.columns && AllText(f, "FirstName") && AllText(f, "LastName")
  }

  /** Lines 98 and 224: the labels after `create_fullName` and the `Full Name` assignment. */
  lemma NamedColumns(f: Frame)
    requires WellFormed(f) && CreateFullName(f).Ok?
    ensures var named := CreateFullName(f).value;
            forall m :: m in Assign(named.0, "Full Name", named.1).columns <==>
              (m in f.columns && m != "FirstName") || m == Cleaned || m == "FullName" || m == "Full Name"
  {
    CreateFullNameSteps(f);
    var s := SplitFirstName(f).value;
    var named := AddFullName(s).value;
    assert named == CreateFullName(f).value;
  }

  /**
   * Lines 98 and 224: after `create_fullName` and the `Full Name`
   * assignment both name columns hold the joined names.
   */
  lemma NamedNames(f: Frame)
    requires WellFormed(f) && NamesReady(f)
    ensures CreateFullName(f).Ok?
    ensures var named := CreateFullName(f).value;
            var g1 := Assign(named.0, "Full Name", named.1);
            && "FullName" in g1.columns && "Full Name" in g1.columns
            && forall i :: 0 <= i < |f.rows| ==>
                 var name := Str(FullNameText(SplitCapitals(Get(f, i, "FirstName").s), Get(f, i, "LastName").s));
                 Get(g1, i, "FullName") == name && Get(g1, i, "Full Name") == name
  {
    CreateFullNameValues(f);
    var named := CreateFullName(f).value;
    var g1 := Assign(named.0, "Full Name", named.1);
    forall i | 0 <= i < |f.rows|
      ensures Get(g1, i, "FullName") == named.1[i] && Get(g1, i, "Full Name") == named.1[i]
    {
      assert Get(named.0, i, "FullName") == named.1[i];
    }
  }

  lemma NamedKeeps(f: Frame, m: string)
    requires WellFormed(f) && CreateFullName(f).Ok?
    requires m in f.columns && m !in {"FirstName", Cleaned, "FullName", "Full Name"}
    ensures var named := CreateFullName(f).value;
            KeepsColumn(f, Assign(named.0, "Full Name", named.1), m)
  {
    CreateFullNameKeeps(f, m);
  }

  lemma AgeKeeps(g1: Frame, g2: Frame, m: string)
    requires WellFormed(g1) && AddAge(g1) == Ok(g2) && m in g1.columns && m != "Age"
    ensures KeepsColumn(g1, g2, m)
  {
  }

  lemma SalaryKeeps(g2: Frame, g3: Frame, m: string)
    requires WellFormed(g2) && CleanSalary(g2) == Ok(g3) && m in g2.columns && m != "Salary"
    ensures KeepsColumn(g2, g3, m)
  {
  }

  lemma BucketsKeeps(g3: Frame, g4: Frame, m: string)
    requires WellFormed(g3) && AddBuckets(g3) == Ok(g4) && m in g3.columns && m != "SalaryBucket"
    ensures KeepsColumn(g3, g4, m)
  {
  }

  /**
   * Lines 98 and 224: `FullName` and `Full Name` hold the same text in every
   * row, the split first name and the last name joined and stripped.
   */
  lemma DeriveNames(f: Frame)
    requires WellFormed(f) && NamesReady(f) && Derive(f).Ok?
    ensures var g := Derive(f).value;
            && "FullName" in g.columns && "Full Name" in g.columns
            && forall i :: 0 <= i < |f.rows| ==>
                 var name := Str(FullNameText(SplitCapitals(Get(f, i, "FirstName").s), Get(f, i, "LastName").s));
                 Get(g, i, "FullName") == name && Get(g, i, "Full Name") == name
  {
    var g1, g2, g3 := DeriveSteps(f);
    var g4 := Derive(f).value;
    NamedNames(f);
    AgeKeeps(g1, g2, "FullName");
    SalaryKeeps(g2, g3, "FullName");
    BucketsKeeps(g3, g4, "FullName");
    KeepsColumnTrans(g1, g2, g3, "FullName");
    KeepsColumnTrans(g1, g3, g4, "FullName");
    AgeKeeps(g1, g2, "Full Name");
    SalaryKeeps(g2, g3, "Full Name");
    BucketsKeeps(g3, g4, "Full Name");
    KeepsColumnTrans(g1, g2, g3, "Full Name");
    KeepsColumnTrans(g1, g3, g4, "Full Name");
  }

  /**
   * The age line 228 gives a cleaned birthdate cell on the reference date;
   * `None` for a cell that is no `DD/MM/YYYY` date in the `Timestamp`
   * range, or whose date overflows line 127.
   */
  function AgeOf(c: Cell): (r: Option<nat>)
    ensures ValidDate(ReferenceDate)
    ensures r.Some? <==> && c.Str? && ParseDMY(c.s).Some? && InTimestampRange(ParseDMY(c.s).value)
                         && !Overflows(ParseDMY(c.s).value, ReferenceDate)
  {
    SentinelIsReference();
    match Birthday(DayFirst, c)
    case Some(d) => if Overflows(d, ReferenceDate) then None else Some(AgeOn(d))
    case None => None
  }

  lemma AgeOfDate(c: Cell)
    requires AgeOf(c).Some?
    ensures ValidDate(ReferenceDate) && ParseDMY(c.s).Some?
    ensures AgeOf(c) == Some(AgeOn(ParseDMY(c.s).value)) == Some(Age(ParseDMY(c.s).value, ReferenceDate))
  {
    SentinelIsReference();
  }

  /** The age of a cleaned birthdate is the age of the date it was cleaned from, unless line 127 overflows. */
  lemma AgeOfCleaned(c: Cell)
    ensures ValidDate(ReferenceDate)
    ensures AgeOf(Str(CleanBirthdate(c))) ==
              if Overflows(BirthDateOf(c), ReferenceDate) then None else Some(AgeOn(BirthDateOf(c)))
  {
    SentinelIsReference();
    assert Birthday(DayFirst, Str(CleanBirthdate(c))) == Some(BirthDateOf(c));
  }

  /** Line 228: every row's `Age` is the age of its cleaned birthdate on the reference date. */
  lemma DeriveAges(f: Frame)
    requires WellFormed(f) && NamesReady(f) && Derive(f).Ok?
    ensures "BirthDate" in f.columns
    ensures var g := Derive(f).value;
            && "Age" in g.columns
            && forall i :: 0 <= i < |f.rows| ==>
                 AgeOf(Get(f, i, "BirthDate")).Some? && Get(g, i, "Age") == Num(AgeOf(Get(f, i, "BirthDate")).value)
  {
    var g1, g2, g3 := DeriveSteps(f);
    NamedColumns(f);
    NamedInput(f, g1, g2, g3);
    NamedKeeps(f, "BirthDate");
    AgeStages(f, g1, g2, g3, Derive(f).value);
  }

  /** The columns the later stages of `Derive` read were there before `create_fullName`. */
  lemma NamedInput(f: Frame, g1: Frame, g2: Frame, g3: Frame)
    requires WellFormed(g1)
    requires forall m :: m in g1.columns <==>
               (m in f.columns && m != "FirstName") || m == Cleaned || m == "FullName" || m == "Full Name"
    requires AddAge(g1) == Ok(g2) && CleanSalary(g2) == Ok(g3)
    ensures "BirthDate" in f.columns && "Salary" in f.columns
  {
  }

  /** Line 228 on one frame: each row's new `Age` is the age its `BirthDate` gives. */
  lemma AgeAdded(g1: Frame, g2: Frame)
    requires WellFormed(g1) && AddAge(g1) == Ok(g2)
    ensures "Age" in g2.columns && |g2.rows| == |g1.rows|
    ensures forall i :: 0 <= i < |g1.rows| ==>
              AgeOf(Get(g1, i, "BirthDate")).Some? && Get(g2, i, "Age") == Num(AgeOf(Get(g1, i, "BirthDate")).value)
  {
    forall i | 0 <= i < |g1.rows|
      ensures AgeOf(Get(g1, i, "BirthDate")).Some? && Get(g2, i, "Age") == Num(AgeOf(Get(g1, i, "BirthDate")).value)
    {
      AgeOfDate(Get(g1, i, "BirthDate"));
    }
  }

  lemma AgeStages(f: Frame, g1: Frame, g2: Frame, g3: Frame, g4: Frame)
    requires Rectangular(f) && WellFormed(g1) && KeepsColumn(f, g1, "BirthDate")
    requires AddAge(g1) == Ok(g2) && CleanSalary(g2) == Ok(g3) && AddBuckets(g3) == Ok(g4)
    ensures "Age" in g4.columns && |g4.rows| == |f.rows|
    ensures forall i :: 0 <= i < |f.rows| ==>
              AgeOf(Get(f, i, "BirthDate")).Some? && Get(g4, i, "Age") == Num(AgeOf(Get(f, i, "BirthDate")).value)
  {
    AgeAdded(g1, g2);
    SalaryKeeps(g2, g3, "Age");
    BucketsKeeps(g3, g4, "Age");
  }

  /**
   * Lines 232-235: every row's `Salary` is its cleaned non-negative integer
   * and its `SalaryBucket` the band of that integer.
   */
  lemma DeriveSalaries(f: Frame)
    requires WellFormed(f) && NamesReady(f) && Derive(f).Ok?
    ensures "Salary" in f.columns
    ensures var g := Derive(f).value;
            && "Salary" in g.columns && "SalaryBucket" in g.columns
            && forall i :: 0 <= i < |f.rows| ==>
                 CleanNumber(Get(f, i, "Salary")).Ok?
                 && Get(g, i, "Salary") == Num(CleanNumber(Get(f, i, "Salary")).value)
                 && Get(g, i, "SalaryBucket") == Str(SalaryBucket(CleanNumber(Get(f, i, "Salary")).value))
  {
    var g1, g2, g3 := DeriveSteps(f);
    NamedColumns(f);
    NamedInput(f, g1, g2, g3);
    NamedKeeps(f, "Salary");
    SalaryStages(f, g1, g2, g3, Derive(f).value);
  }

  lemma SalaryStages(f: Frame, g1: Frame, g2: Frame, g3: Frame, g4: Frame)
    requires Rectangular(f) && WellFormed(g1) && KeepsColumn(f, g1, "Salary")
    requires AddAge(g1) == Ok(g2) && CleanSalary(g2) == Ok(g3) && AddBuckets(g3) == Ok(g4)
    ensures "Salary" in g4.columns && "SalaryBucket" in g4.columns && |g4.rows| == |f.rows|
    ensures forall i :: 0 <= i < |f.rows| ==>
              CleanNumber(Get(f, i, "Salary")).Ok?
              && Get(g4, i, "Salary") == Num(CleanNumber(Get(f, i, "Salary")).value)
              && Get(g4, i, "SalaryBucket") == Str(SalaryBucket(CleanNumber(Get(f, i, "Salary")).value))
  {
    AgeKeeps(g1, g2, "Salary");
    BucketsKeeps(g3, g4, "Salary");
    forall i | 0 <= i < |f.rows|
      ensures CleanNumber(Get(f, i, "Salary")).Ok?
      ensures Get(g4, i, "Salary") == Num(CleanNumber(Get(f, i, "Salary")).value)
      ensures Get(g4, i, "SalaryBucket") == Str(SalaryBucket(CleanNumber(Get(f, i, "Salary")).value))
    {
      assert Get(g2, i, "Salary") == Get(f, i, "Salary");
      assert Get(g3, i, "Salary") == Num(CleanNumber(Get(f, i, "Salary")).value);
    }
  }

  /** Every column `Derive` does not write keeps its cells. */
  lemma DeriveKeeps(f: Frame, m: string)
    requires WellFormed(f) && NamesReady(f) && Derive(f).Ok?
    requires m in f.columns && m !in {"FirstName", Cleaned, "FullName", "Full Name", "Age", "Salary", "SalaryBucket"}
    ensures Rectangular(Derive(f).value) && KeepsColumn(f, Derive(f).value, m)
  {
    var g1, g2, g3 := DeriveSteps(f);
    var g4 := Derive(f).value;
    NamedKeeps(f, m);
    AgeKeeps(g1, g2, m);
    SalaryKeeps(g2, g3, m);
    BucketsKeeps(g3, g4, m);
    KeepsColumnTrans(f, g1, g2, m);
    KeepsColumnTrans(f, g2, g3, m);
    KeepsColumnTrans(f, g3, g4, m);
  }

  /** `Derive` succeeds exactly when every birthdate is a `DD/MM/YYYY` date and every salary cleans. */
  lemma DeriveOk(f: Frame)
    requires WellFormed(f) && NamesReady(f)
    ensures Derive(f).Ok? <==> && "BirthDate" in f.columns && "Salary" in f.columns
                               && (forall i :: 0 <= i < |f.rows| ==> AgeOf(Get(f, i, "BirthDate")).Some?)
                               && (forall i :: 0 <= i < |f.rows| ==> CleanNumber(Get(f, i, "Salary")).Ok?)
  {
    if Derive(f).Ok? {
      DeriveAges(f);
      DeriveSalaries(f);
    }
    if && "BirthDate" in f.columns && "Salary" in f.columns
       && (forall i :: 0 <= i < |f.rows| ==> AgeOf(Get(f, i, "BirthDate")).Some?)
       && (forall i :: 0 <= i < |f.rows| ==> CleanNumber(Get(f, i, "Salary")).Ok?)
    {
      DeriveSucceeds(f);
    }
  }

  lemma DeriveSucceeds(f: Frame)
    requires WellFormed(f) && NamesReady(f) && "BirthDate" in f.columns && "Salary" in f.columns
    requires forall i :: 0 <= i < |f.rows| ==> AgeOf(Get(f, i, "BirthDate")).Some?
    requires forall i :: 0 <= i < |f.rows| ==> CleanNumber(Get(f, i, "Salary")).Ok?
    ensures Derive(f).Ok?
  {
    CreateFullNameValues(f);
    var named := CreateFullName(f).value;
    var g1 := Assign(named.0, "Full Name", named.1);
    NamedKeeps(f, "BirthDate");
    NamedKeeps(f, "Salary");
    AgeReady(f, g1);
    var g2 := AddAge(g1).value;
    AgeKeeps(g1, g2, "Salary");
    KeepsColumnTrans(f, g1, g2, "Salary");
    SalaryReady(f, g2);
    BucketsReady(g2, CleanSalary(g2).value);
  }

  lemma AgeReady(f: Frame, g: Frame)
    requires Rectangular(f) && WellFormed(g) && KeepsColumn(f, g, "BirthDate")
    requires forall i :: 0 <= i < |f.rows| ==> AgeOf(Get(f, i, "BirthDate")).Some?
    ensures AddAge(g).Ok?
  {
  }

  lemma SalaryReady(f: Frame, g: Frame)
    requires Rectangular(f) && WellFormed(g) && KeepsColumn(f, g, "Salary")
    requires forall i :: 0 <= i < |f.rows| ==> CleanNumber(Get(f, i, "Salary")).Ok?
    ensures CleanSalary(g).Ok?
  {
  }

  lemma BucketsReady(g: Frame, h: Frame)
    requires WellFormed(g) && CleanSalary(g) == Ok(h)
    ensures AddBuckets(h).Ok?
  {
  }

  /** The labels after `Derive`: `FirstName` gone, the five it writes present, every other kept. */
  lemma DeriveLabels(f: Frame)
    requires WellFormed(f) && Derive(f).Ok?
    ensures forall m :: m in Derive(f).value.columns <==>
              || (m in f.columns && m != "FirstName")
              || m == Cleaned || m == "FullName" || m == "Full Name" || m == "Age" || m == "SalaryBucket"
  {
    var g1, g2, g3 := DeriveSteps(f);
    NamedColumns(f);
  }

  /**
   * The order of the labels after `Derive` when none of the five it writes
   * was there before: the labels but `FirstName` in their order, then the
   * new ones in the order they are written.
   */
  lemma DeriveOrder(f: Frame)
    requires WellFormed(f) && Derive(f).Ok?
    requires Cleaned !in f.columns && "FullName" !in f.columns && "Full Name" !in f.columns
    requires "Age" !in f.columns && "SalaryBucket" !in f.columns
    ensures Derive(f).value.columns == KeepLabels(f.columns, {"FirstName"}) + [Cleaned, "FullName", "Full Name", "Age", "SalaryBucket"]
  {
    var g1, g2, g3 := DeriveSteps(f);
    CreateFullNameSteps(f);
    var s := SplitFirstName(f).value;
    DeriveOrderOfLabels(f.columns, s.columns, CreateFullName(f).value.0.columns, g1.columns, g2.columns, g3.columns,
                        Derive(f).value.columns);
  }

  /** The label arithmetic behind `DeriveOrder`, one list per stage. */
  lemma DeriveOrderOfLabels(f: seq<string>, s: seq<string>, n: seq<string>, g1: seq<string>, g2: seq<string>,
                            g3: seq<string>, g4: seq<string>)
    requires Cleaned !in f && "FullName" !in f && "Full Name" !in f && "Age" !in f && "SalaryBucket" !in f
    requires s == KeepLabels(if Cleaned in f then f else f + [Cleaned], {"FirstName"})
    requires forall m :: m in s <==> (m in f && m != "FirstName") || m == Cleaned
    requires n == if "FullName" in s then s else s + ["FullName"]
    requires g1 == if "Full Name" in n then n else n + ["Full Name"]
    requires g2 == if "Age" in g1 then g1 else g1 + ["Age"]
    requires g3 == g2
    requires g4 == if "SalaryBucket" in g3 then g3 else g3 + ["SalaryBucket"]
    ensures g4 == KeepLabels(f, {"FirstName"}) + [Cleaned, "FullName", "Full Name", "Age", "SalaryBucket"]
  {
    SplitLabels(f, s);
    LabelsDistinct();
    assert |"FullName"| != |Cleaned| && |"Full Name"| != |Cleaned| && |"Age"| != |Cleaned| && |"SalaryBucket"| != |Cleaned|;
    assert "FullName" !in s && "Full Name" !in s && "Age" !in s && "SalaryBucket" !in s;
    AppendAbsent(KeepLabels(f, {"FirstName"}), Cleaned, s, "FullName", "Full Name", "Age", "SalaryBucket", n, g1, g2, g4);
  }

  /** The four labels `Derive` appends differ from each other. */
  lemma LabelsDistinct()
    ensures "FullName" != "Full Name" && "FullName" != "Age" && "FullName" != "SalaryBucket"
    ensures "Full Name" != "Age" && "Full Name" != "SalaryBucket" && "Age" != "SalaryBucket"
  {
    assert "FullName"[4] != "Full Name"[4];
  }

  /** Appending four distinct absent labels one at a time, each only when missing. */
  lemma AppendAbsent(k: seq<string>, x: string, s: seq<string>, a: string, b: string, c: string, d: string,
                     n1: seq<string>, n2: seq<string>, n3: seq<string>, n4: seq<string>)
    requires s == k + [x] && a !in s && b !in s && c !in s && d !in s
    requires a != b && a != c && a != d && b != c && b != d && c != d
    requires n1 == (if a in s then s else s + [a])
    requires n2 == (if b in n1 then n1 else n1 + [b])
    requires n3 == (if c in n2 then n2 else n2 + [c])
    requires n4 == (if d in n3 then n3 else n3 + [d])
    ensures n4 == k + [x, a, b, c, d]
  {
    assert n1 == s + [a];
    assert b !in n1 && c !in n1 && d !in n1;
    assert n2 == n1 + [b];
    assert c !in n2 && d !in n2;
    assert n3 == n2 + [c];
    assert d !in n3;
    assert n4 == k + [x] + [a] + [b] + [c] + [d];
  }

  lemma SplitLabels(f: seq<string>, s: seq<string>)
    requires Cleaned !in f && s == KeepLabels(if Cleaned in f then f else f + [Cleaned], {"FirstName"})
    ensures s == KeepLabels(f, {"FirstName"}) + [Cleaned]
  {
    KeepLabelsAppend(f, [Cleaned], {"FirstName"});
    KeepLabelsCons(Cleaned, [], {"FirstName"});
    assert Cleaned !in {"FirstName"};
    assert [Cleaned] + [] == [Cleaned];
  }

  // ---------------------------------------------------------------------
  // Line 239 and the whole of transform_data

  /** The working columns line 239 removes. */
  const Dropped: seq<string> := ["FirstName Cleaned", "LastName", "BirthDate"]

  /**
   * What lines 216-239 need of the repaired frame: the four columns they
   * read, names that are all strings, birthdates whose cleaned dates line
   * 127 can subtract from the reference date (those after 22 September
   * 1730, by `OverflowsUpTo`) and salaries that all clean.
   */
  predicate Cleanable(p: Frame)
    requires Rectangular(p)
  {
    && "BirthDate" in p.columns && "FirstName" in p.columns && "LastName" in p.columns && "Salary" in p.columns
    && AllText(p, "FirstName") && AllText(p, "LastName")
    && (forall i :: 0 <= i < |p.rows| ==> !Overflows(BirthDateOf(Get(p, i, "BirthDate")), ReferenceDate))
    && forall i :: 0 <= i < |p.rows| ==> CleanNumber(Get(p, i, "Salary")).Ok?
  }

  /** Lines 216-239: field cleaning, the derived columns and the final drop. */
  function AfterRepair(p: Frame): (r: Result<Frame, Error>)
    requires WellFormed(p)
    ensures r.Ok? ==> WellFormed(r.value) && |r.value.rows| == |p.rows|
  {
    var c :- CleanFields(p);
    var d :- Derive(c);
    DropColumns(d, Dropped)
  }

  lemma AfterRepairSteps(p: Frame) returns (c: Frame, d: Frame)
    requires WellFormed(p) && AfterRepair(p).Ok?
    ensures CleanFields(p) == Ok(c) && WellFormed(c) && |c.rows| == |p.rows| && c.columns == p.columns
    ensures Derive(c) == Ok(d) && WellFormed(d) && |d.rows| == |p.rows|
    ensures DropColumns(d, Dropped) == AfterRepair(p)
  {
    c := CleanFields(p).value;
    d := Derive(c).value;
  }

  /** The frame `CleanFields` hands to `Derive` has its names ready and its salaries untouched. */
  lemma CleanedReady(p: Frame)
    requires WellFormed(p) && CleanFields(p).Ok?
    ensures "BirthDate" in p.columns && "FirstName" in p.columns && "LastName" in p.columns
    ensures var c := CleanFields(p).value;
            && NamesReady(c) && "BirthDate" in c.columns && c.columns == p.columns && |c.rows| == |p.rows|
            && forall i :: 0 <= i < |p.rows| ==>
                 AgeOf(Get(c, i, "BirthDate")) == AgeOf(Str(CleanBirthdate(Get(p, i, "BirthDate"))))
    ensures var c := CleanFields(p).value;
            forall i :: 0 <= i < |p.rows| ==>
              && Get(p, i, "FirstName").Str? && Get(p, i, "LastName").Str?
              && Get(c, i, "FirstName") == Str(CleanName(Get(p, i, "FirstName").s))
              && Get(c, i, "LastName") == Str(CleanName(Get(p, i, "LastName").s))
    ensures var c := CleanFields(p).value;
            forall m :: m in p.columns && m != "BirthDate" && m != "FirstName" && m != "LastName" ==>
              KeepsColumn(p, c, m)
  {
    CleanFieldsValues(p);
    var c := CleanFields(p).value;
    forall i | 0 <= i < |p.rows|
      ensures AgeOf(Get(c, i, "BirthDate")) == AgeOf(Str(CleanBirthdate(Get(p, i, "BirthDate"))))
    {
      assert Get(c, i, "BirthDate") == Str(CleanBirthdate(Get(p, i, "BirthDate")));
    }
  }

  /** Lines 216-239 succeed exactly on a cleanable frame. */
  lemma AfterRepairOk(p: Frame)
    requires WellFormed(p)
    ensures AfterRepair(p).Ok? <==> Cleanable(p)
  {
    if AfterRepair(p).Ok? {
      AfterRepairCleanable(p);
    }
    if Cleanable(p) {
      AfterRepairSucceeds(p);
    }
  }

  lemma AfterRepairCleanable(p: Frame)
    requires WellFormed(p) && AfterRepair(p).Ok?
    ensures Cleanable(p)
  {
    var c, d := AfterRepairSteps(p);
    CleanFieldsOk(p);
    CleanedReady(p);
    DeriveSalaries(c);
    DeriveAges(c);
    forall i | 0 <= i < |p.rows|
      ensures !Overflows(BirthDateOf(Get(p, i, "BirthDate")), ReferenceDate)
    {
      AgeOfCleaned(Get(p, i, "BirthDate"));
    }
    CleanableOfCleaned(p, c);
  }

  lemma CleanableOfCleaned(p: Frame, c: Frame)
    requires Rectangular(p) && Rectangular(c) && |c.rows| == |p.rows| && c.columns == p.columns
    requires "BirthDate" in p.columns && "FirstName" in p.columns && "LastName" in p.columns
    requires AllText(p, "FirstName") && AllText(p, "LastName")
    requires forall m :: m in p.columns && m != "BirthDate" && m != "FirstName" && m != "LastName" ==> KeepsColumn(p, c, m)
    requires "Salary" in c.columns && forall i :: 0 <= i < |c.rows| ==> CleanNumber(Get(c, i, "Salary")).Ok?
    requires forall i :: 0 <= i < |p.rows| ==> !Overflows(BirthDateOf(Get(p, i, "BirthDate")), ReferenceDate)
    ensures Cleanable(p)
  {
    assert KeepsColumn(p, c, "Salary");
  }

  lemma AfterRepairSucceeds(p: Frame)
    requires WellFormed(p) && Cleanable(p)
    ensures AfterRepair(p).Ok?
  {
    CleanFieldsOk(p);
    CleanedReady(p);
    var c := CleanFields(p).value;
    CleanedDerivable(p, c);
    DeriveSucceeds(c);
    DeriveLabels(c);
    DropReady(c, Derive(c).value);
  }

  lemma CleanedDerivable(p: Frame, c: Frame)
    requires Rectangular(p) && Rectangular(c) && Cleanable(p) && |c.rows| == |p.rows| && c.columns == p.columns
    requires forall m :: m in p.columns && m != "BirthDate" && m != "FirstName" && m != "LastName" ==> KeepsColumn(p, c, m)
    requires "BirthDate" in c.columns
    requires forall i :: 0 <= i < |p.rows| ==> AgeOf(Get(c, i, "BirthDate")) == AgeOf(Str(CleanBirthdate(Get(p, i, "BirthDate"))))
    ensures "Salary" in c.columns
    ensures forall i :: 0 <= i < |c.rows| ==> AgeOf(Get(c, i, "BirthDate")).Some?
    ensures forall i :: 0 <= i < |c.rows| ==> CleanNumber(Get(c, i, "Salary")).Ok?
  {
    assert KeepsColumn(p, c, "Salary");
    forall i | 0 <= i < |c.rows|
      ensures AgeOf(Get(c, i, "BirthDate")).Some?
    {
      AgeOfCleaned(Get(p, i, "BirthDate"));
    }
  }

  lemma DropReady(c: Frame, d: Frame)
    requires WellFormed(d) && "LastName" in c.columns && "BirthDate" in c.columns
    requires forall m :: m in d.columns <==>
               || (m in c.columns && m != "FirstName")
               || m == Cleaned || m == "FullName" || m == "Full Name" || m == "Age" || m == "SalaryBucket"
    ensures DropColumns(d, Dropped).Ok?
  {
    assert Cleaned in d.columns && "LastName" in d.columns && "BirthDate" in d.columns;
    assert forall k :: 0 <= k < |Dropped| ==> Dropped[k] in d.columns;
  }

  /** The labels of the result when none of the labels lines 94-235 add was there before. */
  lemma AfterRepairColumns(p: Frame)
    requires WellFormed(p) && AfterRepair(p).Ok?
    requires Cleaned !in p.columns && "FullName" !in p.columns && "Full Name" !in p.columns
    requires "Age" !in p.columns && "SalaryBucket" !in p.columns
    ensures AfterRepair(p).value.columns ==
              KeepLabels(p.columns, {"FirstName", "LastName", "BirthDate", Cleaned}) + ["FullName", "Full Name", "Age", "SalaryBucket"]
  {
    var c, d := AfterRepairSteps(p);
    DeriveOrder(c);
    DroppedOrder(p.columns, d.columns, AfterRepair(p).value.columns);
  }

  lemma DroppedOrder(p: seq<string>, d: seq<string>, t: seq<string>)
    requires d == KeepLabels(p, {"FirstName"}) + [Cleaned, "FullName", "Full Name", "Age", "SalaryBucket"]
    requires t == KeepLabels(d, LabelSet(Dropped))
    ensures t == KeepLabels(p, {"FirstName", "LastName", "BirthDate", Cleaned}) + ["FullName", "Full Name", "Age", "SalaryBucket"]
  {
    DroppedSets();
    AddedLabelsKept(LabelSet(Dropped));
    DropAfterAppend(p, {"FirstName"}, LabelSet(Dropped), [Cleaned, "FullName", "Full Name", "Age", "SalaryBucket"],
                    ["FullName", "Full Name", "Age", "SalaryBucket"]);
  }

  /** The labels line 239 drops, alone and together with the `FirstName` that line 95 dropped. */
  lemma DroppedSets()
    ensures LabelSet(Dropped) == {Cleaned, "LastName", "BirthDate"}
    ensures {"FirstName"} + LabelSet(Dropped) == {"FirstName", "LastName", "BirthDate", Cleaned}
  {
  }

  /** Labels dropped after some were appended: each part loses its own. */
  lemma DropAfterAppend(p: seq<string>, first: set<string>, drop: set<string>, added: seq<string>, kept: seq<string>)
    requires KeepLabels(added, drop) == kept
    ensures KeepLabels(KeepLabels(p, first) + added, drop) == KeepLabels(p, first + drop) + kept
  {
    KeepLabelsAppend(KeepLabels(p, first), added, drop);
    KeepLabelsTwice(p, first, drop);
  }

  lemma AddedLabelsKept(drop: set<string>)
    requires drop == {Cleaned, "LastName", "BirthDate"}
    ensures KeepLabels([Cleaned, "FullName", "Full Name", "Age", "SalaryBucket"], drop) == ["FullName", "Full Name", "Age", "SalaryBucket"]
  {
    assert "FullName"[0] != "LastName"[0] && "Full Name"[0] != "BirthDate"[0];
    assert "FullName" !in drop && "Full Name" !in drop && "Age" !in drop && "SalaryBucket" !in drop;
    KeepFirstOfFive(Cleaned, "FullName", "Full Name", "Age", "SalaryBucket", drop);
  }

  /** Of five labels only the first is dropped. */
  lemma KeepFirstOfFive(a: string, b: string, c: string, d: string, e: string, drop: set<string>)
    requires a in drop && b !in drop && c !in drop && d !in drop && e !in drop
    ensures KeepLabels([a, b, c, d, e], drop) == [b, c, d, e]
  {
    ConsDisplays(a, b, c, d, e);
    KeepLabelsCons(e, [], drop);
    KeepLabelsCons(d, [e], drop);
    KeepLabelsCons(c, [d, e], drop);
    KeepLabelsCons(b, [c, d, e], drop);
    KeepLabelsCons(a, [b, c, d, e], drop);
  }

  lemma ConsDisplays<T>(a: T, b: T, c: T, d: T, e: T)
    ensures [e] + [] == [e] && [d] + [e] == [d, e] && [c] + [d, e] == [c, d, e]
    ensures [b] + [c, d, e] == [b, c, d, e] && [a] + [b, c, d, e] == [a, b, c, d, e]
  {
  }

  /** Column `m` of `d` survives the drop of line 239 unless it is one of the dropped. */
  lemma DropKeeps(d: Frame, t: Frame, m: string)
    requires WellFormed(d) && DropColumns(d, Dropped) == Ok(t)
    requires m in d.columns && m != Cleaned && m != "LastName" && m != "BirthDate"
    ensures Rectangular(t) && KeepsColumn(d, t, m)
  {
  }

  /** Lines 216-224: both name columns of the result hold the cleaned, split and joined names. */
  lemma AfterRepairNames(p: Frame)
    requires WellFormed(p) && AfterRepair(p).Ok?
    ensures "FirstName" in p.columns && "LastName" in p.columns && AllText(p, "FirstName") && AllText(p, "LastName")
    ensures var t := AfterRepair(p).value;
            && "FullName" in t.columns && "Full Name" in t.columns
            && forall i :: 0 <= i < |p.rows| ==>
                 var name := Str(FullNameText(SplitCapitals(CleanName(Get(p, i, "FirstName").s)),
                                              CleanName(Get(p, i, "LastName").s)));
                 Get(t, i, "FullName") == name && Get(t, i, "Full Name") == name
  {
    var c, d := AfterRepairSteps(p);
    CleanedReady(p);
    DeriveNames(c);
    var t := AfterRepair(p).value;
    DropKeeps(d, t, "FullName");
    DropKeeps(d, t, "Full Name");
    NamesThrough(p, c, d, t);
  }

  lemma NamesThrough(p: Frame, c: Frame, d: Frame, t: Frame)
    requires Rectangular(p) && Rectangular(c) && Rectangular(d) && Rectangular(t)
    requires |c.rows| == |p.rows| && |d.rows| == |p.rows| && |t.rows| == |p.rows|
    requires "FirstName" in p.columns && "LastName" in p.columns
    requires "FirstName" in c.columns && "LastName" in c.columns && AllText(c, "FirstName")
    requires forall i :: 0 <= i < |p.rows| ==>
               && Get(p, i, "FirstName").Str? && Get(p, i, "LastName").Str?
               && Get(c, i, "FirstName") == Str(CleanName(Get(p, i, "FirstName").s))
               && Get(c, i, "LastName") == Str(CleanName(Get(p, i, "LastName").s))
    requires "FullName" in d.columns && "Full Name" in d.columns
    requires forall i :: 0 <= i < |c.rows| ==>
               var name := Str(FullNameText(SplitCapitals(Get(c, i, "FirstName").s), Get(c, i, "LastName").s));
               Get(d, i, "FullName") == name && Get(d, i, "Full Name") == name
    requires KeepsColumn(d, t, "FullName") && KeepsColumn(d, t, "Full Name")
    ensures AllText(p, "FirstName") && AllText(p, "LastName")
    ensures forall i :: 0 <= i < |p.rows| ==>
              var name := Str(FullNameText(SplitCapitals(CleanName(Get(p, i, "FirstName").s)),
                                           CleanName(Get(p, i, "LastName").s)));
              Get(t, i, "FullName") == name && Get(t, i, "Full Name") == name
  {
  }

  /** Line 228: the result's `Age` is the age of the row's birthdate on the reference date. */
  lemma AfterRepairAges(p: Frame)
    requires WellFormed(p) && AfterRepair(p).Ok?
    ensures "BirthDate" in p.columns
    ensures var t := AfterRepair(p).value;
            && "Age" in t.columns
            && forall i :: 0 <= i < |p.rows| ==> Get(t, i, "Age") == Num(AgeOn(BirthDateOf(Get(p, i, "BirthDate"))))
  {
    var c, d := AfterRepairSteps(p);
    CleanedReady(p);
    DeriveAges(c);
    var t := AfterRepair(p).value;
    DropKeeps(d, t, "Age");
    AgesThrough(p, c, d, t);
  }

  lemma AgesThrough(p: Frame, c: Frame, d: Frame, t: Frame)
    requires Rectangular(p) && Rectangular(c) && Rectangular(d) && Rectangular(t)
    requires |c.rows| == |p.rows| && |d.rows| == |p.rows| && |t.rows| == |p.rows|
    requires "BirthDate" in p.columns && "BirthDate" in c.columns
    requires forall i :: 0 <= i < |p.rows| ==>
               AgeOf(Get(c, i, "BirthDate")) == AgeOf(Str(CleanBirthdate(Get(p, i, "BirthDate"))))
    requires "Age" in d.columns
    requires forall i :: 0 <= i < |c.rows| ==>
               AgeOf(Get(c, i, "BirthDate")).Some? && Get(d, i, "Age") == Num(AgeOf(Get(c, i, "BirthDate")).value)
    requires KeepsColumn(d, t, "Age")
    ensures forall i :: 0 <= i < |p.rows| ==> Get(t, i, "Age") == Num(AgeOn(BirthDateOf(Get(p, i, "BirthDate"))))
  {
    forall i | 0 <= i < |p.rows|
      ensures Get(t, i, "Age") == Num(AgeOn(BirthDateOf(Get(p, i, "BirthDate"))))
    {
      AgeOfCleaned(Get(p, i, "BirthDate"));
    }
  }

  /** Lines 232-235: the result's `Salary` is the cleaned salary and `SalaryBucket` its band. */
  lemma AfterRepairSalaries(p: Frame)
    requires WellFormed(p) && AfterRepair(p).Ok?
    ensures "Salary" in p.columns
    ensures var t := AfterRepair(p).value;
            && "Salary" in t.columns && "SalaryBucket" in t.columns
            && forall i :: 0 <= i < |p.rows| ==>
                 CleanNumber(Get(p, i, "Salary")).Ok?
                 && Get(t, i, "Salary") == Num(CleanNumber(Get(p, i, "Salary")).value)
                 && Get(t, i, "SalaryBucket") == Str(SalaryBucket(CleanNumber(Get(p, i, "Salary")).value))
  {
    var c, d := AfterRepairSteps(p);
    CleanedReady(p);
    DeriveSalaries(c);
    var t := AfterRepair(p).value;
    DropKeeps(d, t, "Salary");
    DropKeeps(d, t, "SalaryBucket");
    SalariesThrough(p, c, d, t);
  }

  lemma SalariesThrough(p: Frame, c: Frame, d: Frame, t: Frame)
    requires Rectangular(p) && Rectangular(c) && Rectangular(d) && Rectangular(t)
    requires |c.rows| == |p.rows| && |d.rows| == |p.rows| && |t.rows| == |p.rows| && c.columns == p.columns
    requires forall m :: m in p.columns && m != "BirthDate" && m != "FirstName" && m != "LastName" ==> KeepsColumn(p, c, m)
    requires "Salary" in c.columns && "Salary" in d.columns && "SalaryBucket" in d.columns
    requires forall i :: 0 <= i < |c.rows| ==>
               CleanNumber(Get(c, i, "Salary")).Ok?
               && Get(d, i, "Salary") == Num(CleanNumber(Get(c, i, "Salary")).value)
               && Get(d, i, "SalaryBucket") == Str(SalaryBucket(CleanNumber(Get(c, i, "Salary")).value))
    requires KeepsColumn(d, t, "Salary") && KeepsColumn(d, t, "SalaryBucket")
    ensures "Salary" in p.columns
    ensures forall i :: 0 <= i < |p.rows| ==>
              CleanNumber(Get(p, i, "Salary")).Ok?
              && Get(t, i, "Salary") == Num(CleanNumber(Get(p, i, "Salary")).value)
              && Get(t, i, "SalaryBucket") == Str(SalaryBucket(CleanNumber(Get(p, i, "Salary")).value))
  {
    assert KeepsColumn(p, c, "Salary");
  }

  /** Every column lines 216-239 neither read nor write reaches the result unchanged. */
  lemma AfterRepairKeeps(p: Frame, m: string)
    requires WellFormed(p) && AfterRepair(p).Ok? && m in p.columns
    requires m !in {"FirstName", "LastName", "BirthDate", "Salary", Cleaned, "FullName", "Full Name", "Age", "SalaryBucket"}
    ensures Rectangular(AfterRepair(p).value) && KeepsColumn(p, AfterRepair(p).value, m)
  {
    var c, d := AfterRepairSteps(p);
    CleanedReady(p);
    DeriveKeeps(c, m);
    var t := AfterRepair(p).value;
    DropKeeps(d, t, m);
    KeepsColumnTrans(p, c, d, m);
    KeepsColumnTrans(p, d, t, m);
  }

  /**
   * `transform_data`: the stages in their order of lines 201-239, stopping
   * at the first exception.
   */
  function Transform(f: Frame): (r: Result<Frame, Error>)
    requires Rectangular(f) && Distinct(StripNames(f.columns))
    ensures r.Ok? ==> WellFormed(r.value)
    ensures r.Ok? ==> |r.value.rows| == |WithoutRow(f.rows, HeaderRow(f.columns))|
  {
    var p :- RowRepair(f);
    AfterRepair(p)
  }

  /** `transform_data` succeeds exactly when the row repair does and leaves a cleanable frame. */
  lemma TransformOk(f: Frame)
    requires Rectangular(f) && Distinct(StripNames(f.columns))
    ensures Transform(f).Ok? <==> RowRepair(f).Ok? && Cleanable(RowRepair(f).value)
  {
    if RowRepair(f).Ok? {
      AfterRepairOk(RowRepair(f).value);
    }
  }

  /** A column order with `Salary` at position 4. */
  const SalaryAt4Order: seq<string> := ["EmployeeID", "FirstName", "LastName", "BirthDate", "Salary", "Department"]

  /**
   * With `Salary` at position 4, the blank line 213 writes into row 29
   * reaches `int('')` at line 152, so `transform_data` raises on every
   * such frame.
   */
  lemma TransformFailsWithSalaryAt4(f: Frame)
    requires Rectangular(f) && StripNames(f.columns) == SalaryAt4Order
    ensures Distinct(StripNames(f.columns)) && Transform(f).Err?
  {
    assert Distinct(SalaryAt4Order);
    TransformOk(f);
    if RowRepair(f).Ok? {
      SalaryAt4NotCleanable(RowRepair(f).value);
    }
  }

  lemma SalaryAt4NotCleanable(p: Frame)
    requires Rectangular(p) && p.columns == SalaryAt4Order && |p.rows| >= 30 && p.rows[29][4] == Str("")
    ensures !Cleanable(p)
  {
    assert IndexOf(p.columns, "Salary") == 4;
    assert Get(p, 29, "Salary") == Str("");
    CleanNumberEmpty();
  }
}
