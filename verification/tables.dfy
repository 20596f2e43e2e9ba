/** Tables: the small slice of a pandas DataFrame that the feature script uses.
    A table is a sequence of column names plus rows of cells; the column
    operations below are the DataFrame calls the script makes (`df[name]`,
    `drop(columns=...)`, `insert(loc, column, value)`, `df[name] = ...`),
    with the exceptions pandas raises modelled as `Err` values. */
module Tables {

  datatype Option<+T> = None | Some(value: T)

  /** The exceptions the modelled pandas / scikit-learn calls raise. */
  datatype Error =
    | MissingColumn(name: string)        // KeyError from df[name] or drop(columns=name)
    | UnorderableColumn(name: string)    // TypeError while sorting numbers and strings together
    | EmptyColumn(name: string)          // ValueError: encoding 0 samples
    | DuplicateColumn(name: string)      // ValueError: cannot insert, already exists
    | InsertOutOfBounds(loc: nat)        // insert position past the last column
    | NonNumericAge                      // TypeError from pd.cut on a non-number

  datatype Result<+T> = Ok(value: T) | Err(error: Error) {
    predicate IsFailure() {
      Err?
    }

    function PropagateFailure<U>(): Result<U>
      requires Err?
    {
      Err(error)
    }

    function Extract(): T
      requires Ok?
    {
      value
    }
  }

  /** A cell: a number (int or float column), a string, or NaN. */
  datatype Cell = Num(v: real) | Text(s: string) | Missing

  datatype Table = Table(columns: seq<string>, rows: seq<seq<Cell>>)

  predicate Distinct<T(==)>(s: seq<T>) {
    forall i, j :: 0 <= i < j < |s| ==> s[i] != s[j]
  }

  /** Column names are unique and every row has one cell per column. */
  predicate WellFormed(t: Table) {
    && Distinct(t.columns)
    && forall i :: 0 <= i < |t.rows| ==> |t.rows[i]| == |t.columns|
  }

  /** Position of the first occurrence of `x` in `s`. */
  function IndexOf<T(==)>(s: seq<T>, x: T): (r: Option<nat>)
    ensures r.None? <==> x !in s
    ensures r.Some? ==> r.value < |s| && s[r.value] == x && x !in s[..r.value]
  {
    if |s| == 0 then None
    else if s[0] == x then Some(0)
    else
      match IndexOf(s[1..], x)
      case None => None
      case Some(k) =>
        assert s[..k + 1] == [s[0]] + s[1..][..k];
        Some(k + 1)
  }

  lemma IndexOfDistinct<T>(s: seq<T>, k: nat)
    requires Distinct(s) && k < |s|
    ensures IndexOf(s, s[k]) == Some(k)
  {
    assert s[k] in s;
    var m := IndexOf(s, s[k]).value;
    assert s[m] == s[k];
  }

  /** `s` with the element at position `c` removed. */
  function RemoveAt<T>(s: seq<T>, c: nat): (r: seq<T>)
    requires c < |s|
    ensures |r| == |s| - 1
    ensures forall i :: 0 <= i < c ==> r[i] == s[i]
    ensures forall i :: c <= i < |r| ==> r[i] == s[i + 1]
  {
    s[..c] + s[c + 1..]
  }

  lemma RemoveAtMembers<T>(s: seq<T>, c: nat)
    requires Distinct(s) && c < |s|
    ensures Distinct(RemoveAt(s, c))
    ensures forall x :: x in RemoveAt(s, c) <==> x in s && x != s[c]
  {
    var r := RemoveAt(s, c);
    forall x | x in s && x != s[c]
      ensures x in r
    {
      var i :| 0 <= i < |s| && s[i] == x;
      if i < c {
        assert r[i] == x;
      } else {
        assert r[i - 1] == x;
      }
    }
  }

  /** The cells of column `c`, top to bottom. */
  function Column(t: Table, c: nat): (r: seq<Cell>)
    requires WellFormed(t) && c < |t.columns|
    ensures |r| == |t.rows|
    ensures forall i :: 0 <= i < |r| ==> r[i] == t.rows[i][c]
  {
    seq(|t.rows|, i requires 0 <= i < |t.rows| => t.rows[i][c])
  }

  /** The cells of the column called `name`, or None when there is none. */
  function ColumnNamed(t: Table, name: string): (r: Option<seq<Cell>>)
    requires WellFormed(t)
    ensures r.Some? <==> name in t.columns
    ensures r.Some? ==> |r.value| == |t.rows|
  {
    match IndexOf(t.columns, name)
    case None => None
    case Some(c) => Some(Column(t, c))
  }

  lemma ColumnNamedAt(t: Table, k: nat)
    requires WellFormed(t) && k < |t.columns|
    ensures ColumnNamed(t, t.columns[k]) == Some(Column(t, k))
  {
    IndexOfDistinct(t.columns, k);
  }


  /** `df[name]` for a column that exists. */
  function Values(t: Table, name: string): (r: seq<Cell>)
    requires WellFormed(t) && name in t.columns
    ensures |r| == |t.rows|
  {
    ColumnNamed(t, name).value
  }

  /** `df.drop(columns=name)`: KeyError when the column is absent. */
  function DropColumn(t: Table, name: string): (r: Result<Table>)
    requires WellFormed(t)
    ensures r.Ok? <==> name in t.columns
    ensures r.Ok? ==> WellFormed(r.value) && |r.value.rows| == |t.rows|
    ensures r.Ok? ==> r.value.columns == RemoveAt(t.columns, IndexOf(t.columns, name).value)
    ensures r.Ok? ==> forall x :: x in r.value.columns <==> x in t.columns && x != name
    ensures r.Ok? ==> forall x :: x in t.columns && x != name ==> ColumnNamed(r.value, x) == ColumnNamed(t, x)
  {
    match IndexOf(t.columns, name)
    case None => Err(MissingColumn(name))
    case Some(c) =>
      var u := Table(RemoveAt(t.columns, c), seq(|t.rows|, i requires 0 <= i < |t.rows| => RemoveAt(t.rows[i], c)));
      RemoveAtMembers(t.columns, c);
      DropKeepsColumns(t, c, u);
      Ok(u)
  }

  lemma DropKeepsColumns(t: Table, c: nat, u: Table)
    requires WellFormed(t) && c < |t.columns|
    requires u == Table(RemoveAt(t.columns, c), seq(|t.rows|, i requires 0 <= i < |t.rows| => RemoveAt(t.rows[i], c)))
    ensures WellFormed(u)
    ensures forall x :: x in t.columns && x != t.columns[c] ==> x in u.columns && ColumnNamed(u, x) == ColumnNamed(t, x)
  {
    RemoveAtMembers(t.columns, c);
    forall x | x in t.columns && x != t.columns[c]
      ensures x in u.columns && ColumnNamed(u, x) == ColumnNamed(t, x)
    {
      var k :| 0 <= k < |t.columns| && t.columns[k] == x;
      DropKeepsColumn(t, c, u, k);
    }
  }

  lemma DropKeepsColumn(t: Table, c: nat, u: Table, k: nat)
    requires WellFormed(t) && WellFormed(u) && c < |t.columns| && k < |t.columns| && k != c
    requires u.columns == RemoveAt(t.columns, c) && |u.rows| == |t.rows|
    requires forall i :: 0 <= i < |t.rows| ==> u.rows[i] == RemoveAt(t.rows[i], c)
    ensures t.columns[k] in u.columns && ColumnNamed(u, t.columns[k]) == ColumnNamed(t, t.columns[k])
  {
    var k' := if k < c then k else k - 1;
    assert u.columns[k'] == t.columns[k];
    ColumnNamedAt(t, k);
    ColumnNamedAt(u, k');
    forall i | 0 <= i < |t.rows|
      ensures Column(u, k')[i] == Column(t, k)[i]
    {
      assert RemoveAt(t.rows[i], c)[k'] == t.rows[i][k];
    }
    assert Column(u, k') == Column(t, k);
  }

  /** `s` with `x` inserted so that it sits at position `loc`. */
  function InsertAt<T>(s: seq<T>, loc: nat, x: T): (r: seq<T>)
    requires loc <= |s|
    ensures |r| == |s| + 1 && r[loc] == x
    ensures forall i :: 0 <= i < loc ==> r[i] == s[i]
    ensures forall i :: loc < i < |r| ==> r[i] == s[i - 1]
  {
    s[..loc] + [x] + s[loc..]
  }

  /** `df.insert(loc, name, values)`: ValueError when the name is taken,
      and a failure when `loc` is past the last column. */
  function InsertColumn(t: Table, loc: nat, name: string, values: seq<Cell>): (r: Result<Table>)
    requires WellFormed(t) && |values| == |t.rows|
    ensures r.Ok? <==> name !in t.columns && loc <= |t.columns|
    ensures r.Err? && name in t.columns ==> r.error == DuplicateColumn(name)
    ensures r.Ok? ==> WellFormed(r.value) && |r.value.rows| == |t.rows|
    ensures r.Ok? ==> r.value.columns == InsertAt(t.columns, loc, name)
    ensures r.Ok? ==> forall i :: 0 <= i < |t.rows| ==> r.value.rows[i] == InsertAt(t.rows[i], loc, values[i])
  {
    if name in t.columns then Err(DuplicateColumn(name))
    else if loc > |t.columns| then Err(InsertOutOfBounds(loc))
    else
      var u := Table(InsertAt(t.columns, loc, name),
                     seq(|t.rows|, i requires 0 <= i < |t.rows| => InsertAt(t.rows[i], loc, values[i])));
      assert Distinct(u.columns) by {
        forall i, j | 0 <= i < j < |u.columns|
          ensures u.columns[i] != u.columns[j]
        {
          if i != loc && j != loc {
            var i' := if i < loc then i else i - 1;
            var j' := if j < loc then j else j - 1;
            assert u.columns[i] == t.columns[i'] && u.columns[j] == t.columns[j'];
          } else if i == loc {
            assert u.columns[j] == t.columns[j - 1];
          } else {
            assert u.columns[i] == t.columns[i];
          }
        }
      }
      Ok(u)
  }

  /** `df[name] = values`: overwrite the column in place when it exists,
      otherwise append it as the last column. */
  function SetColumn(t: Table, name: string, values: seq<Cell>): (r: Table)
    requires WellFormed(t) && |values| == |t.rows|
    ensures WellFormed(r) && |r.rows| == |t.rows|
    ensures name in t.columns ==> r.columns == t.columns
    ensures name !in t.columns ==> r.columns == t.columns + [name]
    ensures ColumnNamed(r, name) == Some(values)
    ensures forall x :: x != name ==> ColumnNamed(r, x) == ColumnNamed(t, x)
  {
    match IndexOf(t.columns, name)
    case Some(c) =>
      var u := Table(t.columns, seq(|t.rows|, i requires 0 <= i < |t.rows| => t.rows[i][c := values[i]]));
      assert Column(u, c) == values;
      OverwriteOthers(t, c, u);
      u
    case None =>
      var u := Table(t.columns + [name], seq(|t.rows|, i requires 0 <= i < |t.rows| => t.rows[i] + [values[i]]));
      assert Distinct(u.columns);
      IndexOfDistinct(u.columns, |t.columns|);
      assert Column(u, |t.columns|) == values;
      SetColumnOthers(t, name, u);
      u
  }

  lemma SetColumnOthers(t: Table, name: string, u: Table)
    requires WellFormed(t) && WellFormed(u) && name !in t.columns
    requires u.columns == t.columns + [name] && |u.rows| == |t.rows|
    requires forall i :: 0 <= i < |t.rows| ==> u.rows[i][..|t.columns|] == t.rows[i]
    ensures forall x :: x != name ==> ColumnNamed(u, x) == ColumnNamed(t, x)
  {
    forall x | x != name
      ensures ColumnNamed(u, x) == ColumnNamed(t, x)
    {
      if x in t.columns {
        var k :| 0 <= k < |t.columns| && t.columns[k] == x;
        IndexOfDistinct(t.columns, k);
        IndexOfDistinct(u.columns, k);
        forall i | 0 <= i < |t.rows|
          ensures u.rows[i][k] == t.rows[i][k]
        {
          assert u.rows[i][..|t.columns|][k] == u.rows[i][k];
        }
        assert Column(u, k) == Column(t, k);
      }
    }
  }

  lemma OverwriteOthers(t: Table, c: nat, u: Table)
    requires WellFormed(t) && WellFormed(u) && c < |t.columns|
    requires u.columns == t.columns && |u.rows| == |t.rows|
    requires forall i, k :: 0 <= i < |t.rows| && 0 <= k < |t.columns| && k != c ==> u.rows[i][k] == t.rows[i][k]
    ensures forall x :: x != t.columns[c] ==> ColumnNamed(u, x) == ColumnNamed(t, x)
  {
    forall x | x != t.columns[c]
      ensures ColumnNamed(u, x) == ColumnNamed(t, x)
    {
      if x in t.columns {
        var k :| 0 <= k < |t.columns| && t.columns[k] == x;
        IndexOfDistinct(t.columns, k);
        assert Column(u, k) == Column(t, k);
      }
    }
  }

  /** Two tables with the same columns, the same number of rows and the same
      cells under every column name are equal. */
  lemma TableExt(t: Table, u: Table)
    requires WellFormed(t) && WellFormed(u)
    requires t.columns == u.columns && |t.rows| == |u.rows|
    requires forall x :: x in t.columns ==> ColumnNamed(t, x) == ColumnNamed(u, x)
    ensures t == u
  {
    forall i | 0 <= i < |t.rows|
      ensures t.rows[i] == u.rows[i]
    {
      forall c | 0 <= c < |t.columns|
        ensures t.rows[i][c] == u.rows[i][c]
      {
        IndexOfDistinct(t.columns, c);
        assert ColumnNamed(t, t.columns[c]) == ColumnNamed(u, t.columns[c]);
        assert Column(t, c)[i] == Column(u, c)[i];
      }
    }
  }
}
