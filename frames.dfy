/**
 * The pandas `DataFrame` operations the pipeline uses, on values: a frame
 * is a list of column labels and a list of rows, each row one cell per
 * column. Column access is by label (`df[name]`), assignment replaces a
 * column in place or appends a new one at the end, and dropping removes
 * columns by label and raises when a label is absent.
 */
module Frames {
  import opened Wrappers
  import opened Text

  /** One table cell: pandas NaN, a string, or an integer. */
  datatype Cell = Nan | Str(s: string) | Num(n: int)

  /** The Python exceptions the pipeline can raise. */
  datatype Error =
    | KeyError(keys: seq<string>)   // the column labels that are not in the frame
    | AttributeError                // the `.str` accessor on a column holding no string
    | IndexError                    // `iloc` outside the frame
    | TypeError               // a regex or comparison applied to a non-string
    | ValueError              // `int()` of a non-integer, an out-of-range date, or an age from NaT
    | OverflowError           // a date difference outside int64 nanoseconds

  type Row = seq<Cell>

  datatype Frame = Frame(columns: seq<string>, rows: seq<Row>)

  predicate Rectangular(f: Frame) {
    forall i :: 0 <= i < |f.rows| ==> |f.rows[i]| == |f.columns|
  }

  predicate Distinct(names: seq<string>) {
    forall i, j :: 0 <= i < j < |names| ==> names[i] != names[j]
  }

  predicate WellFormed(f: Frame) {
    Rectangular(f) && Distinct(f.columns)
  }

  /** Position of the first column labelled `name`. */
  function IndexOf(names: seq<string>, name: string): (k: nat)
    requires name in names
    ensures k < |names| && names[k] == name
    ensures forall j :: 0 <= j < k ==> names[j] != name
  {
    if names[0] == name then 0 else 1 + IndexOf(names[1..], name)
  }

  lemma IndexOfDistinct(names: seq<string>, k: nat)
    requires Distinct(names) && k < |names|
    ensures IndexOf(names, names[k]) == k
  {
  }

  lemma IndexOfAppend(names: seq<string>, extra: string, m: string)
    requires m in names
    ensures IndexOf(names + [extra], m) == IndexOf(names, m)
  {
    var k := IndexOf(names, m);
    assert (names + [extra])[k] == m;
  }

  /** The cell of row `i` in the column labelled `name`. */
  function Get(f: Frame, i: int, name: string): Cell
    requires Rectangular(f) && 0 <= i < |f.rows| && name in f.columns
  {
    f.rows[i][IndexOf(f.columns, name)]
  }

  /** `df[name]`: the column's cells top to bottom, or `KeyError` for an unknown label. */
  function ColumnOf(f: Frame, name: string): (r: Result<seq<Cell>, Error>)
    requires Rectangular(f)
    ensures name !in f.columns <==> r == Err(KeyError([name]))
    ensures r.Ok? ==> |r.value| == |f.rows|
                      && forall i :: 0 <= i < |f.rows| ==> r.value[i] == Get(f, i, name)
  {
    if name in f.columns then
      var k := IndexOf(f.columns, name);
      Ok(seq(|f.rows|, i requires 0 <= i < |f.rows| => f.rows[i][k]))
    else Err(KeyError([name]))
  }

  /**
   * `df[name] = vals`: an existing column is overwritten where it stands, a
   * new one is appended as the last column; every other cell is unchanged.
   */
  function Assign(f: Frame, name: string, vals: seq<Cell>): (g: Frame)
    requires Rectangular(f) && |vals| == |f.rows|
    ensures Rectangular(g) && |g.rows| == |f.rows|
    ensures g.columns == if name in f.columns then f.columns else f.columns + [name]
    ensures forall m :: m in g.columns <==> m in f.columns || m == name
    ensures Distinct(f.columns) ==> Distinct(g.columns)
    ensures forall i :: 0 <= i < |g.rows| ==> Get(g, i, name) == vals[i]
    ensures forall i, m :: 0 <= i < |g.rows| && m in f.columns && m != name ==>
              Get(g, i, m) == Get(f, i, m)
  {
    if name in f.columns then
      var k := IndexOf(f.columns, name);
      Frame(f.columns, seq(|f.rows|, i requires 0 <= i < |f.rows| => f.rows[i][k := vals[i]]))
    else
      var g := Frame(f.columns + [name], seq(|f.rows|, i requires 0 <= i < |f.rows| => f.rows[i] + [vals[i]]));
      assert forall m :: m in f.columns ==> IndexOf(g.columns, m) == IndexOf(f.columns, m) by {
        forall m | m in f.columns { IndexOfAppend(f.columns, name, m); }
      }
      assert IndexOf(g.columns, name) == |f.columns|;
      g
  }

  /** The labels of `names` that are not in `drop`, in their order. */
  function KeepLabels(names: seq<string>, drop: set<string>): (r: seq<string>)
    ensures forall m :: m in r <==> m in names && m !in drop
    ensures Distinct(names) ==> Distinct(r)
  {
    if names == [] then []
    else
      var rest := KeepLabels(names[1..], drop);
      if names[0] in drop then rest else [names[0]] + rest
  }

  /** Dropping labels from two lists is dropping them from their concatenation. */
  lemma {:induction false} KeepLabelsAppend(a: seq<string>, b: seq<string>, drop: set<string>)
    ensures KeepLabels(a + b, drop) == KeepLabels(a, drop) + KeepLabels(b, drop)
  {
    if a == [] {
      assert a + b == b;
    } else {
      assert (a + b)[1..] == a[1..] + b;
      KeepLabelsAppend(a[1..], b, drop);
    }
  }

  lemma KeepLabelsCons(x: string, rest: seq<string>, drop: set<string>)
    ensures KeepLabels([x] + rest, drop) == (if x in drop then [] else [x]) + KeepLabels(rest, drop)
  {
    assert ([x] + rest)[1..] == rest;
  }

  /** Dropping two sets of labels one after the other is dropping their union. */
  lemma {:induction false} KeepLabelsTwice(names: seq<string>, a: set<string>, b: set<string>)
    ensures KeepLabels(KeepLabels(names, a), b) == KeepLabels(names, a + b)
  {
    if names != [] {
      KeepLabelsTwice(names[1..], a, b);
      var rest := KeepLabels(names[1..], a);
      if names[0] !in a {
        assert ([names[0]] + rest)[1..] == rest;
      }
    }
  }

  /** The labels listed in `names`, as a set. */
  function LabelSet(names: seq<string>): (s: set<string>)
    ensures forall m :: m in s <==> m in names
  {
    set k | 0 <= k < |names| :: names[k]
  }

  /** The cells of `row` whose column label is not in `drop`. */
  function KeepCells(row: Row, names: seq<string>, drop: set<string>): (r: Row)
    requires |row| == |names|
    ensures |r| == |KeepLabels(names, drop)|
  {
    if names == [] then []
    else
      var rest := KeepCells(row[1..], names[1..], drop);
      if names[0] in drop then rest else [row[0]] + rest
  }

  lemma {:induction false} KeepCellsAt(row: Row, names: seq<string>, drop: set<string>, m: string)
    requires |row| == |names| && Distinct(names) && m in names && m !in drop
    ensures m in KeepLabels(names, drop)
    ensures KeepCells(row, names, drop)[IndexOf(KeepLabels(names, drop), m)] == row[IndexOf(names, m)]
  {
    KeepStep(row, names, drop);
    var kept, rest := KeepLabels(names, drop), KeepLabels(names[1..], drop);
    var cells, restCells := KeepCells(row, names, drop), KeepCells(row[1..], names[1..], drop);
    if names[0] == m {
      assert kept == [m] + rest && cells == [row[0]] + restCells;
      assert IndexOf(kept, m) == 0 && IndexOf(names, m) == 0;
    } else {
      DistinctTail(names);
      IndexOfTail(names, m);
      KeepCellsAt(row[1..], names[1..], drop, m);
      var j := IndexOf(rest, m);
      assert restCells[j] == row[1..][IndexOf(names[1..], m)];
      if names[0] in drop {
        assert kept == rest && cells == restCells;
      } else {
        assert kept == [names[0]] + rest && cells == [row[0]] + restCells;
        assert kept[1..] == rest;
        IndexOfTail(kept, m);
        assert cells[1 + j] == restCells[j];
      }
    }
  }

  /** One step of `KeepLabels` and `KeepCells`: the first label and its cell go or stay together. */
  lemma KeepStep(row: Row, names: seq<string>, drop: set<string>)
    requires |row| == |names| && names != []
    ensures KeepLabels(names, drop) == (if names[0] in drop then [] else [names[0]]) + KeepLabels(names[1..], drop)
    ensures KeepCells(row, names, drop) == (if names[0] in drop then [] else [row[0]]) + KeepCells(row[1..], names[1..], drop)
  {
  }

  /** A label other than the first is found one place further on than in the tail. */
  lemma IndexOfTail(names: seq<string>, m: string)
    requires m in names && names[0] != m
    ensures m in names[1..] && IndexOf(names, m) == 1 + IndexOf(names[1..], m)
  {
  }

  lemma DistinctTail(names: seq<string>)
    requires Distinct(names) && names != []
    ensures Distinct(names[1..])
  {
    forall i, j | 0 <= i < j < |names[1..]| ensures names[1..][i] != names[1..][j] {
      assert names[1..][i] == names[i + 1] && names[1..][j] == names[j + 1];
    }
  }

  /** The labels of `names` that are not in `columns`, in the order `names` lists them. */
  function MissingLabels(columns: seq<string>, names: seq<string>): (r: seq<string>)
    ensures |r| <= |names|
    ensures forall m :: m in r <==> m in names && m !in columns
  {
    if names == [] then []
    else (if names[0] in columns then [] else [names[0]]) + MissingLabels(columns, names[1..])
  }

  /** Listing more labels lists their missing ones after those already found. */
  lemma {:induction false} MissingLabelsAppend(columns: seq<string>, a: seq<string>, b: seq<string>)
    ensures MissingLabels(columns, a + b) == MissingLabels(columns, a) + MissingLabels(columns, b)
  {
    if a == [] {
      assert a + b == b;
    } else {
      assert (a + b)[1..] == a[1..] + b;
      MissingLabelsAppend(columns, a[1..], b);
    }
  }

  /**
   * `df.drop(columns = names)`: one `KeyError` listing every label that is
   * not a column; otherwise those columns are gone and every other cell is
   * where its label says.
   */
  function DropColumns(f: Frame, names: seq<string>): (r: Result<Frame, Error>)
    requires WellFormed(f)
    ensures r.Err? <==> exists k :: 0 <= k < |names| && names[k] !in f.columns
    ensures r.Err? ==> r.error.KeyError? && r.error.keys != []
                       && forall m :: m in r.error.keys <==> m in names && m !in f.columns
    ensures r.Err? ==> r.error == KeyError(MissingLabels(f.columns, names))
    ensures r.Ok? ==> && WellFormed(r.value) && |r.value.rows| == |f.rows|
                      && r.value.columns == KeepLabels(f.columns, LabelSet(names))
                      && (forall m :: m in r.value.columns <==> m in f.columns && m !in names)
                      && (forall i, m :: 0 <= i < |f.rows| && m in r.value.columns ==>
                            Get(r.value, i, m) == Get(f, i, m))
  {
    var lost := MissingLabels(f.columns, names);
    if lost != [] then
      assert lost[0] in names && lost[0] !in f.columns;
      Err(KeyError(lost))
    else
      assert forall k :: 0 <= k < |names| ==> names[k] in f.columns by {
        forall k | 0 <= k < |names| ensures names[k] in f.columns {
          assert names[k] in names;
        }
      }
      var drop := LabelSet(names);
      var g := Frame(KeepLabels(f.columns, drop),
                     seq(|f.rows|, i requires 0 <= i < |f.rows| => KeepCells(f.rows[i], f.columns, drop)));
      assert forall i, m :: 0 <= i < |f.rows| && m in g.columns ==> Get(g, i, m) == Get(f, i, m) by {
        forall i, m | 0 <= i < |f.rows| && m in g.columns ensures Get(g, i, m) == Get(f, i, m) {
          KeepCellsAt(f.rows[i], f.columns, drop, m);
        }
      }
      Ok(g)
  }

  // ---------------------------------------------------------------------
  // Row repair

  /** The frame's column labels seen as a row of string cells. */
  function HeaderRow(names: seq<string>): (r: Row)
    ensures |r| == |names| && forall j :: 0 <= j < |names| ==> r[j] == Str(names[j])
  {
    seq(|names|, j requires 0 <= j < |names| => Str(names[j]))
  }

  /** The rows that are not equal to `header`, in their original order. */
  function WithoutRow(rows: seq<Row>, header: Row): (r: seq<Row>)
    ensures |r| <= |rows|
    ensures forall k :: 0 <= k < |r| ==> r[k] != header
  {
    if rows == [] then []
    else (if rows[0] == header then [] else [rows[0]]) + WithoutRow(rows[1..], header)
  }

  lemma {:induction false} WithoutRowAppend(a: seq<Row>, b: seq<Row>, header: Row)
    ensures WithoutRow(a + b, header) == WithoutRow(a, header) + WithoutRow(b, header)
  {
    if a == [] {
      assert a + b == b;
    } else {
      assert (a + b)[1..] == a[1..] + b;
      WithoutRowAppend(a[1..], b, header);
    }
  }

  /** Exactly the rows different from the header survive, and as many as there were of them. */
  lemma {:induction false} WithoutRowKeeps(rows: seq<Row>, header: Row)
    ensures forall x :: x in WithoutRow(rows, header) <==> x in rows && x != header
    ensures |WithoutRow(rows, header)| == |rows| - multiset(rows)[header]
  {
    if rows != [] {
      WithoutRowKeeps(rows[1..], header);
      assert rows == [rows[0]] + rows[1..];
      assert multiset(rows) == multiset{rows[0]} + multiset(rows[1..]);
    }
  }

  /** Header removal keeps every row the same width. */
  lemma {:induction false} WithoutRowRectangular(f: Frame, header: Row)
    requires Rectangular(f)
    ensures Rectangular(Frame(f.columns, WithoutRow(f.rows, header)))
    decreases |f.rows|
  {
    if f.rows != [] {
      WithoutRowRectangular(Frame(f.columns, f.rows[1..]), header);
    }
  }

  /**
   * Lines 212-213: in positional row 29 the values of columns 2 and 4 move to
   * columns 3 and 5 and columns 2 and 4 become empty strings; `IndexError`
   * when the frame has no row 29 or no column 5.
   */
  function PatchRow29(f: Frame): (r: Result<Frame, Error>)
    requires Rectangular(f)
    ensures r.Err? <==> |f.rows| < 30 || |f.columns| < 6
    ensures r.Err? ==> r.error == IndexError
    ensures r.Ok? ==> r.value.columns == f.columns && |r.value.rows| == |f.rows| && Rectangular(r.value)
    ensures r.Ok? ==> forall i :: 0 <= i < |f.rows| && i != 29 ==> r.value.rows[i] == f.rows[i]
    ensures r.Ok? ==> var old29, new29 := f.rows[29], r.value.rows[29];
                      && new29[3] == old29[2] && new29[5] == old29[4]
                      && new29[2] == Str("") && new29[4] == Str("")
                      && forall j :: 0 <= j < |old29| && j !in {2, 3, 4, 5} ==> new29[j] == old29[j]
  {
    if |f.rows| < 30 || |f.columns| < 6 then Err(IndexError)
    else
      var row := f.rows[29];
      var moved := row[3 := row[2]][5 := row[4]];
      Ok(Frame(f.columns, f.rows[29 := moved[2 := Str("")][4 := Str("")]]))
  }

  // ---------------------------------------------------------------------
  // Element-wise application (`Series.apply`, list comprehensions)

  /** Applies `f` to every cell; the first cell on which `f` raises decides the error. */
  function TryMap(f: Cell -> Result<Cell, Error>, col: seq<Cell>): (r: Result<seq<Cell>, Error>)
    ensures r.Ok? <==> forall i :: 0 <= i < |col| ==> f(col[i]).Ok?
    ensures r.Ok? ==> |r.value| == |col| && forall i :: 0 <= i < |col| ==> f(col[i]) == Ok(r.value[i])
    ensures r.Err? ==> exists k :: 0 <= k < |col| && f(col[k]) == Err(r.error)
                                   && forall j :: 0 <= j < k ==> f(col[j]).Ok?
  {
    if col == [] then Ok([])
    else match f(col[0])
      case Err(e) => Err(e)
      case Ok(v) =>
        match TryMap(f, col[1..])
        case Err(e) =>
          assert forall j :: 1 <= j < |col| ==> col[j] == col[1..][j - 1];
          Err(e)
        case Ok(vs) =>
          assert forall j :: 1 <= j < |col| ==> col[j] == col[1..][j - 1];
          Ok([v] + vs)
  }
}
