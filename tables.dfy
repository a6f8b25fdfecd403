/** The event table the analyzer works on: a pandas DataFrame of named numeric
    columns, one row per recorded event. A row is a map from column name to
    value; the column order is kept separately, as pandas keeps it. */
module Tables {
  import opened Masks

  /** An optional keyword argument: `None` means the caller left it out. */
  datatype Option<T> = None | Some(value: T)
  {
    function GetOr(default: T): (r: T)
      ensures Some? ==> r == value
      ensures None? ==> r == default
    {
      if Some? then value else default
    }
  }

  /** The exceptions the preprocessing code raises. */
  datatype Error =
    | MissingColumn(column: string)     // KeyError on a column lookup
    | UnsupportedMethod(name: string)   // ValueError on an unknown method name
    | DegenerateColumn(column: string)  // a column whose scale is zero or undefined

  datatype Result<T> = Ok(value: T) | Err(error: Error)

  type Row = map<string, real>

  datatype Table = Table(columns: seq<string>, rows: seq<Row>)
  {
    function ColumnSet(): set<string>
    {
      set c | c in columns
    }

    /** Column names are distinct and every row has a value for exactly the columns. */
    predicate Valid()
    {
      && (forall i, j | 0 <= i < j < |columns| :: columns[i] != columns[j])
      && forall i | 0 <= i < |rows| :: rows[i].Keys == ColumnSet()
    }

    /** `data[c]`: the values of column `c`, row by row. */
    function Column(c: string): (col: seq<real>)
      requires Valid() && c in columns
      ensures |col| == |rows|
      ensures forall i | 0 <= i < |rows| :: col[i] == rows[i][c]
    {
      seq(|rows|, i requires 0 <= i < |rows| => rows[i][c])
    }

    /** `data[mask]`: the rows whose mask entry is true, all columns kept. */
    function Filter(mask: seq<bool>): (t: Table)
      requires |mask| == |rows|
      ensures t.columns == columns
      ensures Selects(t.rows, rows, mask)
    {
      MaskedSelects(rows, mask);
      Table(columns, Masked(rows, mask))
    }

    /** `data[name] = values`: overwrites the column if it exists, otherwise
        appends it after the existing columns. */
    function WithColumn(name: string, values: seq<real>): (t: Table)
      requires |values| == |rows|
      ensures t.columns == if name in columns then columns else columns + [name]
      ensures |t.rows| == |rows|
      ensures forall i | 0 <= i < |rows| :: t.rows[i] == rows[i][name := values[i]]
    {
      Table(if name in columns then columns else columns + [name],
            seq(|rows|, i requires 0 <= i < |rows| => rows[i][name := values[i]]))
    }

    /** `data.drop(columns=names)`: removes the named columns, keeping the
        order of the others. */
    function DropColumns(names: set<string>): (t: Table)
      ensures t.ColumnSet() == ColumnSet() - names
      ensures |t.rows| == |rows|
      ensures forall i | 0 <= i < |rows| :: t.rows[i] == rows[i] - names
    {
      KeptColumns(columns, names);
      Table(Masked(columns, Outside(columns, names)),
            seq(|rows|, i requires 0 <= i < |rows| => rows[i] - names))
    }
  }

  /** Marks the columns that are not among `names`. */
  function Outside(columns: seq<string>, names: set<string>): (keep: seq<bool>)
    ensures |keep| == |columns|
    ensures forall i | 0 <= i < |columns| :: keep[i] == (columns[i] !in names)
  {
    seq(|columns|, i requires 0 <= i < |columns| => columns[i] !in names)
  }

  /** Masking out `names` leaves exactly the other columns. */
  lemma KeptColumns(columns: seq<string>, names: set<string>)
    ensures (set c | c in Masked(columns, Outside(columns, names)))
         == (set c | c in columns) - names
  {
    var keep := Outside(columns, names);
    MaskedSelects(columns, keep);
    SelectsMembers(Masked(columns, keep), columns, keep);
  }

  /** A well-formed table, the only kind the analyzer's steps pass along. */
  type ValidTable = t: Table | t.Valid() witness Table([], [])

  /** Filtering keeps a table well formed. */
  lemma FilterValid(t: Table, mask: seq<bool>)
    requires t.Valid() && |mask| == |t.rows|
    ensures t.Filter(mask).Valid()
  {
    var f := t.Filter(mask);
    forall i | 0 <= i < |f.rows|
      ensures f.rows[i].Keys == f.ColumnSet()
    {
      assert f.rows[i] == t.rows[Kept(mask)[i]];
    }
  }

  /** Adding or overwriting a column keeps a table well formed, with the
      column added to its column set. */
  lemma WithColumnValid(t: Table, name: string, values: seq<real>)
    requires t.Valid() && |values| == |t.rows|
    ensures t.WithColumn(name, values).Valid()
    ensures t.WithColumn(name, values).ColumnSet() == t.ColumnSet() + {name}
  {
    var w := t.WithColumn(name, values);
    assert w.ColumnSet() == t.ColumnSet() + {name};
    forall i, j | 0 <= i < j < |w.columns|
      ensures w.columns[i] != w.columns[j]
    {
      if name !in t.columns && j == |t.columns| {
        assert w.columns[i] == t.columns[i];
      }
    }
  }

  /** Dropping columns keeps a table well formed. */
  lemma DropColumnsValid(t: Table, names: set<string>)
    requires t.Valid()
    ensures t.DropColumns(names).Valid()
  {
    var d := t.DropColumns(names);
    var keep := Outside(t.columns, names);
    MaskedSelects(t.columns, keep);
    assert d.columns == Masked(t.columns, keep);
    var idx := Kept(keep);
    forall i, j | 0 <= i < j < |d.columns|
      ensures d.columns[i] != d.columns[j]
    {
      assert d.columns[i] == t.columns[idx[i]] && d.columns[j] == t.columns[idx[j]];
      assert idx[i] < idx[j];
    }
  }

  /** A mutable DataFrame: the object the caller holds and that
      `remove_doublets` writes into. */
  class Frame {
    var columns: seq<string>
    var rows: seq<Row>

    constructor (t: Table)
      ensures Value() == t
    {
      columns := t.columns;
      rows := t.rows;
    }

    function Value(): Table
      reads this
    {
      Table(columns, rows)
    }

    /** `frame[name] = values`, in place. */
    method SetColumn(name: string, values: seq<real>)
      requires |values| == |rows|
      modifies this
      ensures Value() == old(Value()).WithColumn(name, values)
    {
      var t := Value().WithColumn(name, values);
      columns, rows := t.columns, t.rows;
    }
  }
}
