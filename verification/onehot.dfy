/** `convert_categorical(df_X, _X)`: label-encode one column (each value
    becomes its rank among the sorted distinct values), expand the rank into
    0/1 indicator columns `_X1 .. _XN`, drop the original column, and insert
    the indicators at positions 1..N, i.e. right after the table's first
    remaining column. */
module OneHot {
  import opened Tables
  import opened CellOrder
  import opened Decimal

  /** The names `name1 .. nameN` given to the indicator columns. */
  function IndicatorNames(name: string, n: nat): (r: seq<string>)
    ensures |r| == n
    ensures forall j :: 0 <= j < n ==> r[j] == name + Dec(j + 1)
  {
    seq(n, j requires 0 <= j < n => name + Dec(j + 1))
  }

  lemma IndicatorNamesDistinct(name: string, n: nat)
    ensures Distinct(IndicatorNames(name, n))
  {
    var ns := IndicatorNames(name, n);
    forall i, j | 0 <= i < j < n
      ensures ns[i] != ns[j]
    {
      if ns[i] == ns[j] {
        SuffixInjective(name, i + 1, j + 1);
      }
    }
  }

  /** `LabelEncoder().fit_transform(values)`: the position of each value in
      the sorted distinct classes. */
  function LabelCodes(values: seq<Cell>): (codes: seq<nat>)
    ensures |codes| == |values|
    ensures forall i :: 0 <= i < |values| ==>
              codes[i] < |Classes(values)| && Classes(values)[codes[i]] == values[i]
  {
    var cs := Classes(values);
    seq(|values|, i requires 0 <= i < |values| => assert values[i] in values; IndexOf(cs, values[i]).value)
  }

  /** Smaller values get smaller codes, and only they. */
  lemma LabelCodesMonotone(values: seq<Cell>, i: nat, j: nat)
    requires i < |values| && j < |values|
    ensures LabelCodes(values)[i] < LabelCodes(values)[j] <==> Less(values[i], values[j])
  {
    SortedOrder(Classes(values), LabelCodes(values)[i], LabelCodes(values)[j]);
  }

  /** Equal values share a code, and only they. */
  lemma LabelCodesInjective(values: seq<Cell>, i: nat, j: nat)
    requires i < |values| && j < |values|
    ensures LabelCodes(values)[i] == LabelCodes(values)[j] <==> values[i] == values[j]
  {
    var cs := Classes(values);
    SortedIsDistinct(cs);
  }

  /** Every code below N is the code of some row, so `max(codes) + 1 == N`. */
  lemma LabelCodesOnto(values: seq<Cell>)
    ensures forall k :: 0 <= k < |Classes(values)| ==> k in LabelCodes(values)
  {
    var cs, codes := Classes(values), LabelCodes(values);
    SortedIsDistinct(cs);
    forall k | 0 <= k < |cs|
      ensures k in codes
    {
      assert cs[k] in values;
      var i :| 0 <= i < |values| && values[i] == cs[k];
      assert codes[i] == k;
    }
  }

  /** The number of distinct values of `values` that sort strictly before `v`. */
  function NumBelow(values: seq<Cell>, v: Cell): nat {
    |set w | w in values && Less(w, v)|
  }

  /** A value's code is the number of distinct values in the column that
      sort strictly before it. */
  lemma RankIsCount(values: seq<Cell>, i: nat)
    requires i < |values|
    ensures LabelCodes(values)[i] == NumBelow(values, values[i])
  {
    var cs, k := Classes(values), LabelCodes(values)[i];
    BelowAsClasses(values, i);
    SortedIsDistinct(cs);
    DistinctCard(cs[..k]);
  }

  lemma BelowAsClasses(values: seq<Cell>, i: nat)
    requires i < |values|
    ensures NumBelow(values, values[i]) == NumDistinct(Classes(values)[..LabelCodes(values)[i]])
  {
    var below := Classes(values)[..LabelCodes(values)[i]];
    var smaller := set w | w in values && Less(w, values[i]);
    forall w
      ensures w in smaller <==> w in below
    {
      RankBelow(values, i, w);
    }
    SameMembersCard(smaller, below);
  }

  lemma SameMembersCard<T>(a: set<T>, s: seq<T>)
    requires forall w :: w in a <==> w in s
    ensures |a| == NumDistinct(s)
  {
    assert a == set x | x in s;
  }

  /** The classes before a value's code are the values less than it. */
  lemma RankBelow(values: seq<Cell>, i: nat, w: Cell)
    requires i < |values|
    ensures (w in values && Less(w, values[i])) <==> w in Classes(values)[..LabelCodes(values)[i]]
  {
    var cs, k := Classes(values), LabelCodes(values)[i];
    var below := cs[..k];
    if w in values && Less(w, values[i]) {
      assert w in cs;
      var m :| 0 <= m < |cs| && cs[m] == w;
      SortedOrder(cs, m, k);
      assert below[m] == w;
    }
    if w in below {
      var m :| 0 <= m < k && below[m] == w;
      SortedOrder(cs, m, k);
    }
  }

  /** Row `i` of the one-hot matrix: 1.0 at the code, 0.0 elsewhere. */
  function OneHotRow(code: nat, n: nat): (r: seq<Cell>)
    ensures |r| == n
  {
    seq(n, j requires 0 <= j < n => if j == code then Num(1.0) else Num(0.0))
  }

  /** Column `j` of the one-hot matrix (`onehot_encoded[:, j]`). */
  function IndicatorColumn(codes: seq<nat>, j: nat): (r: seq<Cell>)
    ensures |r| == |codes|
  {
    seq(|codes|, i requires 0 <= i < |codes| => if codes[i] == j then Num(1.0) else Num(0.0))
  }

  /** The loop `for j in range(N): df_X.insert(loc=j + 1, ...)`, from `j` on. */
  function InsertIndicators(t: Table, name: string, codes: seq<nat>, n: nat, j: nat): (r: Result<Table>)
    requires WellFormed(t) && |codes| == |t.rows| && j <= n
    ensures r.Ok? ==> WellFormed(r.value) && |r.value.rows| == |t.rows|
    ensures r.Ok? ==> |r.value.columns| == |t.columns| + (n - j)
    decreases n - j
  {
    if j == n then Ok(t)
    else
      var t' :- InsertColumn(t, j + 1, name + Dec(j + 1), IndicatorColumn(codes, j));
      InsertIndicators(t', name, codes, n, j + 1)
  }

  /** `convert_categorical(t, name)`. */
  function ConvertCategorical(t: Table, name: string): (r: Result<Table>)
    requires WellFormed(t)
    ensures r.Ok? ==> WellFormed(r.value) && |r.value.rows| == |t.rows|
  {
    match IndexOf(t.columns, name)
    case None => Err(MissingColumn(name))
    case Some(c) =>
      var values := Column(t, c);
      if !Orderable(values) then Err(UnorderableColumn(name))
      else if |values| == 0 then Err(EmptyColumn(name))
      else
        var codes := LabelCodes(values);
        var dropped := DropColumn(t, name).value;
        InsertIndicators(dropped, name, codes, |Classes(values)|, 0)
  }

  // ---------------------------------------------------------------------
  // The encoded table described directly, and the proof that the loop of
  // inserts produces it.
  // ---------------------------------------------------------------------

  /** When encoding succeeds: the column exists, Python can sort it, it is
      not empty, some other column remains to insert after, and none of the
      new names is taken. */
  predicate Encodable(t: Table, name: string)
    requires WellFormed(t)
  {
    && name in t.columns
    && Orderable(Values(t, name))
    && |t.rows| > 0
    && |t.columns| >= 2
    && NamesFree(t.columns, name, 0, |Classes(Values(t, name))|)
  }

  /** Columns `0..j-1` of the indicator block already inserted into the
      table `d` that lost the encoded column. */
  function Partial(d: Table, name: string, codes: seq<nat>, n: nat, j: nat): Table
    requires WellFormed(d) && |d.columns| >= 1 && |codes| == |d.rows| && j <= n
  {
    Table([d.columns[0]] + IndicatorNames(name, j) + d.columns[1..],
          seq(|d.rows|, i requires 0 <= i < |d.rows| =>
            [d.rows[i][0]] + OneHotRow(codes[i], n)[..j] + d.rows[i][1..]))
  }

  lemma PartialWellFormed(d: Table, name: string, codes: seq<nat>, n: nat, j: nat)
    requires WellFormed(d) && |d.columns| >= 1 && |codes| == |d.rows| && j <= n
    requires name !in d.columns
    requires NamesFree(d.columns, name, 0, j)
    ensures WellFormed(Partial(d, name, codes, n, j))
  {
    var p := Partial(d, name, codes, n, j);
    var ns := IndicatorNames(name, j);
    IndicatorNamesDistinct(name, j);
    forall a, b | 0 <= a < b < |p.columns|
      ensures p.columns[a] != p.columns[b]
    {
      if a == 0 && b <= j {
        assert p.columns[b] == ns[b - 1] == name + Dec(b);
      } else if a == 0 {
        assert p.columns[b] == d.columns[b - j];
      } else if b <= j {
        assert p.columns[a] == ns[a - 1] && p.columns[b] == ns[b - 1];
      } else if a <= j {
        assert p.columns[a] == name + Dec(a) && p.columns[b] == d.columns[b - j];
      } else {
        assert p.columns[a] == d.columns[a - j] && p.columns[b] == d.columns[b - j];
      }
    }
  }

  lemma InsertAtJoin<T>(a: seq<T>, b: seq<T>, x: T)
    ensures InsertAt(a + b, |a|, x) == a + [x] + b
  {
    assert (a + b)[..|a|] == a && (a + b)[|a|..] == b;
  }

  /** One step of the loop turns `Partial(.., j)` into `Partial(.., j + 1)`. */
  lemma InsertStep(d: Table, name: string, codes: seq<nat>, n: nat, j: nat)
    requires WellFormed(d) && |d.columns| >= 1 && |codes| == |d.rows| && j < n
    requires name !in d.columns
    requires NamesFree(d.columns, name, 0, j + 1)
    ensures WellFormed(Partial(d, name, codes, n, j))
    ensures InsertColumn(Partial(d, name, codes, n, j), j + 1, name + Dec(j + 1), IndicatorColumn(codes, j))
            == Ok(Partial(d, name, codes, n, j + 1))
  {
    PartialWellFormed(d, name, codes, n, j);
    PartialWellFormed(d, name, codes, n, j + 1);
    var p, q := Partial(d, name, codes, n, j), Partial(d, name, codes, n, j + 1);
    var x := name + Dec(j + 1);
    assert x !in p.columns by {
      assert q.columns[j + 1] == x;
      forall a | 0 <= a < |p.columns|
        ensures p.columns[a] != x
      {
        var a' := if a <= j then a else a + 1;
        assert p.columns[a] == q.columns[a'];
      }
    }
    var r := InsertColumn(p, j + 1, x, IndicatorColumn(codes, j));
    assert r.Ok?;
    var head := [d.columns[0]] + IndicatorNames(name, j);
    assert IndicatorNames(name, j + 1) == IndicatorNames(name, j) + [x];
    InsertAtJoin(head, d.columns[1..], x);
    assert r.value.columns == q.columns;
    forall i | 0 <= i < |d.rows|
      ensures r.value.rows[i] == q.rows[i]
    {
      var row := OneHotRow(codes[i], n);
      assert row[..j + 1] == row[..j] + [IndicatorColumn(codes, j)[i]];
      InsertAtJoin([d.rows[i][0]] + row[..j], d.rows[i][1..], IndicatorColumn(codes, j)[i]);
    }
    assert r.value.rows == q.rows;
  }

  lemma {:induction false} InsertIndicatorsFrom(d: Table, name: string, codes: seq<nat>, n: nat, j: nat)
    requires WellFormed(d) && |d.columns| >= 1 && |codes| == |d.rows| && j <= n
    requires name !in d.columns
    requires NamesFree(d.columns, name, 0, j)
    ensures WellFormed(Partial(d, name, codes, n, j))
    ensures InsertIndicators(Partial(d, name, codes, n, j), name, codes, n, j).Ok?
            <==> NamesFree(d.columns, name, j, n)
    ensures InsertIndicators(Partial(d, name, codes, n, j), name, codes, n, j).Ok?
            ==> InsertIndicators(Partial(d, name, codes, n, j), name, codes, n, j).value == Partial(d, name, codes, n, n)
    decreases n - j
  {
    PartialWellFormed(d, name, codes, n, j);
    if j < n {
      NamesFreeStep(d.columns, name, j, n);
      if name + Dec(j + 1) in d.columns {
        InsertBlocked(d, name, codes, n, j);
      } else {
        InsertStep(d, name, codes, n, j);
        InsertUnfold(Partial(d, name, codes, n, j), name, codes, n, j, Partial(d, name, codes, n, j + 1));
        InsertIndicatorsFrom(d, name, codes, n, j + 1);
      }
    }
  }

  lemma NamesFreeStep(cols: seq<string>, name: string, j: nat, n: nat)
    requires j < n
    ensures NamesFree(cols, name, j, n) <==> name + Dec(j + 1) !in cols && NamesFree(cols, name, j + 1, n)
  {
  }

  /** A successful insert hands the rest of the loop the grown table. */
  lemma InsertUnfold(p: Table, name: string, codes: seq<nat>, n: nat, j: nat, q: Table)
    requires WellFormed(p) && |codes| == |p.rows| && j < n
    requires InsertColumn(p, j + 1, name + Dec(j + 1), IndicatorColumn(codes, j)) == Ok(q)
    ensures InsertIndicators(p, name, codes, n, j) == InsertIndicators(q, name, codes, n, j + 1)
  {
  }

  /** A taken name stops the loop with an error. */
  lemma InsertBlocked(d: Table, name: string, codes: seq<nat>, n: nat, j: nat)
    requires WellFormed(d) && |d.columns| >= 1 && |codes| == |d.rows| && j < n
    requires WellFormed(Partial(d, name, codes, n, j))
    requires name + Dec(j + 1) in d.columns
    ensures InsertIndicators(Partial(d, name, codes, n, j), name, codes, n, j).Err?
  {
    var p := Partial(d, name, codes, n, j);
    var x := name + Dec(j + 1);
    assert x in p.columns by {
      var m := IndexOf(d.columns, x).value;
      assert m != 0 ==> p.columns[j + m] == x;
      assert m == 0 ==> p.columns[0] == x;
    }
    assert InsertColumn(p, j + 1, x, IndicatorColumn(codes, j)).Err?;
  }

  /** The table that encoding `name` produces, described directly. */
  function Expected(t: Table, name: string): Table
    requires WellFormed(t) && Encodable(t, name)
  {
    var values := Values(t, name);
    var d := DropColumn(t, name).value;
    Partial(d, name, LabelCodes(values), |Classes(values)|, |Classes(values)|)
  }

  /** With the column present, sortable and non-empty, encoding is the insert loop on the dropped table. */
  lemma ConvertUnfold(t: Table, name: string)
    requires WellFormed(t) && name in t.columns
    requires Orderable(Values(t, name)) && |t.rows| > 0
    ensures DropColumn(t, name).Ok?
    ensures ConvertCategorical(t, name)
            == InsertIndicators(DropColumn(t, name).value, name, LabelCodes(Values(t, name)), |Classes(Values(t, name))|, 0)
  {
  }

  /** A numbered name is never the encoded column's own name. */
  lemma NumberedNameFree(t: Table, name: string, k: nat)
    requires WellFormed(t) && name in t.columns
    ensures name + Dec(k) in DropColumn(t, name).value.columns <==> name + Dec(k) in t.columns
  {
    assert |name + Dec(k)| > |name|;
  }

  lemma PartialZero(d: Table, name: string, codes: seq<nat>, n: nat)
    requires WellFormed(d) && |d.columns| >= 1 && |codes| == |d.rows|
    ensures Partial(d, name, codes, n, 0) == d
  {
    var p := Partial(d, name, codes, n, 0);
    assert p.columns == d.columns;
    forall i | 0 <= i < |d.rows|
      ensures p.rows[i] == d.rows[i]
    {
      assert d.rows[i] == [d.rows[i][0]] + d.rows[i][1..];
    }
  }

  /** None of `name{lo+1} .. name{hi}` is a column of `cols`. */
  predicate NamesFree(cols: seq<string>, name: string, lo: nat, hi: nat) {
    forall k :: lo < k <= hi ==> name + Dec(k) !in cols
  }

  lemma NamesFreeDropped(t: Table, name: string, n: nat)
    requires WellFormed(t) && name in t.columns
    ensures NamesFree(DropColumn(t, name).value.columns, name, 0, n) <==> NamesFree(t.columns, name, 0, n)
  {
    forall k | 0 < k <= n
      ensures name + Dec(k) in DropColumn(t, name).value.columns <==> name + Dec(k) in t.columns
    {
      NumberedNameFree(t, name, k);
    }
  }

  /** The case with a column left to insert after. */
  lemma ConvertWide(t: Table, name: string)
    requires WellFormed(t) && name in t.columns
    requires Orderable(Values(t, name)) && |t.rows| > 0 && |t.columns| >= 2
    ensures ConvertCategorical(t, name).Ok? <==> Encodable(t, name)
    ensures Encodable(t, name) ==> ConvertCategorical(t, name) == Ok(Expected(t, name))
  {
    var values := Values(t, name);
    var d := DropColumn(t, name).value;
    var codes := LabelCodes(values);
    var n := |Classes(values)|;
    ConvertUnfold(t, name);
    PartialZero(d, name, codes, n);
    InsertIndicatorsFrom(d, name, codes, n, 0);
    NamesFreeDropped(t, name, n);
    assert Encodable(t, name) <==> NamesFree(t.columns, name, 0, n);
  }

  /** The case where the encoded column is the only one: `insert(loc=1)` fails. */
  lemma ConvertNarrow(t: Table, name: string)
    requires WellFormed(t) && name in t.columns
    requires Orderable(Values(t, name)) && |t.rows| > 0 && |t.columns| < 2
    ensures ConvertCategorical(t, name).Err?
  {
    var values := Values(t, name);
    var d := DropColumn(t, name).value;
    var codes := LabelCodes(values);
    var n := |Classes(values)|;
    ConvertUnfold(t, name);
    assert n >= 1 by {
      assert values[0] in Classes(values);
    }
    assert |d.columns| == 0;
    assert InsertColumn(d, 1, name + Dec(1), IndicatorColumn(codes, 0)).Err?;
  }

  /** The column is missing, unsortable or empty. */
  lemma ConvertRejected(t: Table, name: string)
    requires WellFormed(t)
    requires !(name in t.columns && Orderable(Values(t, name)) && |t.rows| > 0)
    ensures ConvertCategorical(t, name).Err?
  {
    if name in t.columns {
      var c := IndexOf(t.columns, name).value;
      assert Column(t, c) == Values(t, name);
    }
  }

  /** Encoding succeeds exactly when `Encodable` holds, and then yields `Expected`. */
  lemma ConvertCategoricalSpec(t: Table, name: string)
    requires WellFormed(t)
    ensures ConvertCategorical(t, name).Ok? <==> Encodable(t, name)
    ensures Encodable(t, name) ==> ConvertCategorical(t, name) == Ok(Expected(t, name))
  {
    if !(name in t.columns && Orderable(Values(t, name)) && |t.rows| > 0) {
      ConvertRejected(t, name);
    } else if |t.columns| >= 2 {
      ConvertWide(t, name);
    } else {
      ConvertNarrow(t, name);
    }
  }

  // ---------------------------------------------------------------------
  // What an encoded table looks like.
  // ---------------------------------------------------------------------

  /** The positions of `row` that hold 1.0. */
  function Ones(row: seq<Cell>): set<int> {
    set j | 0 <= j < |row| && row[j] == Num(1.0)
  }

  /** The indicator block of a one-hot row holds a single 1.0, at the code. */
  lemma OneHotRowSingle(code: nat, n: nat)
    requires code < n
    ensures forall j :: 0 <= j < n ==> OneHotRow(code, n)[j] == (if j == code then Num(1.0) else Num(0.0))
    ensures Ones(OneHotRow(code, n)) == {code}
    ensures IndexOf(OneHotRow(code, n), Num(1.0)) == Some(code)
  {
    var row := OneHotRow(code, n);
    assert row[code] == Num(1.0);
    var k := IndexOf(row, Num(1.0)).value;
    assert row[k] == Num(1.0);
  }

  lemma ExpectedRow(t: Table, name: string, i: nat)
    requires WellFormed(t) && Encodable(t, name) && i < |t.rows|
    ensures var c := IndexOf(t.columns, name).value;
            var n := |Classes(Values(t, name))|;
            var row := Expected(t, name).rows[i];
            && |row| == |t.columns| - 1 + n
            && row[1..1 + n] == OneHotRow(LabelCodes(Values(t, name))[i], n)
            && [row[0]] + row[1 + n..] == RemoveAt(t.rows[i], c)
  {
    var c := IndexOf(t.columns, name).value;
    var n := |Classes(Values(t, name))|;
    var d := DropColumn(t, name).value;
    var drow := d.rows[i];
    var row := Expected(t, name).rows[i];
    var block := OneHotRow(LabelCodes(Values(t, name))[i], n);
    assert row == [drow[0]] + block[..n] + drow[1..];
    assert block[..n] == block;
    assert row[1..1 + n] == block;
    assert row[1 + n..] == drow[1..];
    assert drow == [drow[0]] + drow[1..];
    assert drow == RemoveAt(t.rows[i], c);
  }

  /** Shape: the encoded column is gone; N columns named `name1 .. nameN`,
      N the number of distinct values, sit at positions 1..N; every other
      column keeps its place relative to the rest; no row is added or lost. */
  lemma ConvertCategoricalShape(t: Table, name: string)
    requires WellFormed(t) && ConvertCategorical(t, name).Ok?
    ensures var r := ConvertCategorical(t, name).value;
            var c := IndexOf(t.columns, name).value;
            var rest := RemoveAt(t.columns, c);
            var n := NumDistinct(Values(t, name));
            && |rest| >= 1
            && r.columns == [rest[0]] + IndicatorNames(name, n) + rest[1..]
            && |r.columns| == |t.columns| - 1 + n
            && name !in r.columns
            && |r.rows| == |t.rows|
  {
    ConvertCategoricalSpec(t, name);
    ClassesCount(Values(t, name));
    var r := ConvertCategorical(t, name).value;
    var n := |Classes(Values(t, name))|;
    forall j | 0 <= j < n
      ensures IndicatorNames(name, n)[j] != name
    {
      assert |name + Dec(j + 1)| > |name|;
    }
    var rest := RemoveAt(t.columns, IndexOf(t.columns, name).value);
    RemoveAtMembers(t.columns, IndexOf(t.columns, name).value);
    assert forall x :: x in r.columns ==> x in rest || x in IndicatorNames(name, n);
  }

  /** Exactly one indicator per row is 1.0, the one in column `name(k+1)`
      where k is the row's code: the rank of its value among the sorted
      distinct values of the column. */
  lemma ConvertCategoricalOneHot(t: Table, name: string, i: nat)
    requires WellFormed(t) && ConvertCategorical(t, name).Ok? && i < |t.rows|
    ensures var r := ConvertCategorical(t, name).value;
            var values := Values(t, name);
            var n := |Classes(values)|;
            var k := LabelCodes(values)[i];
            && k == NumBelow(values, values[i])
            && k < n
            && r.columns[1 + k] == name + Dec(k + 1)
            && |r.rows[i]| >= 1 + n
            && var block := r.rows[i][1..1 + n];
               && (forall j :: 0 <= j < n ==> block[j] == (if j == k then Num(1.0) else Num(0.0)))
               && Ones(block) == {k}
  {
    ConvertCategoricalSpec(t, name);
    var values := Values(t, name);
    var n := |Classes(values)|;
    var k := LabelCodes(values)[i];
    var r := ConvertCategorical(t, name).value;
    RankIsCount(values, i);
    ExpectedRow(t, name, i);
    OneHotRowSingle(k, n);
    ConvertCategoricalShape(t, name);
    ClassesCount(values);
  }

  /** `inverse_transform`: read the value back from the indicator block,
      given the encoder's sorted classes. */
  function DecodeRow(row: seq<Cell>, classes: seq<Cell>): Cell
    requires |row| >= 1 + |classes|
  {
    match IndexOf(row[1..1 + |classes|], Num(1.0))
    case Some(k) => classes[k]
    case None => Missing
  }

  /** Round trip: the indicator block and the classes give back the
      original value, and the cells outside the block are the row without
      the encoded column. */
  lemma ConvertCategoricalRoundTrip(t: Table, name: string, i: nat)
    requires WellFormed(t) && ConvertCategorical(t, name).Ok? && i < |t.rows|
    ensures var r := ConvertCategorical(t, name).value;
            var c := IndexOf(t.columns, name).value;
            var cs := Classes(Values(t, name));
            && |r.rows[i]| >= 1 + |cs|
            && DecodeRow(r.rows[i], cs) == t.rows[i][c]
            && [r.rows[i][0]] + r.rows[i][1 + |cs|..] == RemoveAt(t.rows[i], c)
  {
    ConvertCategoricalSpec(t, name);
    var values := Values(t, name);
    var c := IndexOf(t.columns, name).value;
    var k := LabelCodes(values)[i];
    ExpectedRow(t, name, i);
    OneHotRowSingle(k, |Classes(values)|);
    assert values[i] == t.rows[i][c];
  }

  /** Where column `k` of the input ends up after encoding column `c` into `n` indicators. */
  function Shifted(k: nat, c: nat, n: nat): nat
    requires k != c
  {
    var m := if k < c then k else k - 1;
    if m == 0 then 0 else m + n
  }

  lemma KeptCell(t: Table, name: string, i: nat, k: nat)
    requires WellFormed(t) && ConvertCategorical(t, name).Ok? && i < |t.rows|
    requires k < |t.columns| && k != IndexOf(t.columns, name).value
    ensures var r := ConvertCategorical(t, name).value;
            var n := |Classes(Values(t, name))|;
            var pos := Shifted(k, IndexOf(t.columns, name).value, n);
            && pos < |r.columns| && r.columns[pos] == t.columns[k]
            && r.rows[i][pos] == t.rows[i][k]
  {
    KeptColumn(t, name, k);
    KeptRow(t, name, i, k);
  }

  lemma KeptColumn(t: Table, name: string, k: nat)
    requires WellFormed(t) && ConvertCategorical(t, name).Ok?
    requires k < |t.columns| && k != IndexOf(t.columns, name).value
    ensures var r := ConvertCategorical(t, name).value;
            var pos := Shifted(k, IndexOf(t.columns, name).value, |Classes(Values(t, name))|);
            pos < |r.columns| && r.columns[pos] == t.columns[k]
  {
    var cols := ConvertCategorical(t, name).value.columns;
    var c := IndexOf(t.columns, name).value;
    var n := |Classes(Values(t, name))|;
    var rest := RemoveAt(t.columns, c);
    ConvertCategoricalShape(t, name);
    ClassesCount(Values(t, name));
    assert cols == [rest[0]] + IndicatorNames(name, n) + rest[1..];
    assert [cols[0]] + cols[1 + n..] == rest;
    ShiftedCell(cols, t.columns, c, n, k);
  }

  lemma KeptRow(t: Table, name: string, i: nat, k: nat)
    requires WellFormed(t) && ConvertCategorical(t, name).Ok? && i < |t.rows|
    requires k < |t.columns| && k != IndexOf(t.columns, name).value
    ensures var r := ConvertCategorical(t, name).value;
            var pos := Shifted(k, IndexOf(t.columns, name).value, |Classes(Values(t, name))|);
            pos < |r.rows[i]| && r.rows[i][pos] == t.rows[i][k]
  {
    ConvertCategoricalSpec(t, name);
    ExpectedRow(t, name, i);
    ShiftedCell(ConvertCategorical(t, name).value.rows[i], t.rows[i], IndexOf(t.columns, name).value,
                |Classes(Values(t, name))|, k);
  }

  /** A sequence that is `s` without position `c`, with `n` cells inserted
      after the first, holds `s[k]` at `Shifted(k, c, n)`. */
  lemma ShiftedCell<T>(row: seq<T>, s: seq<T>, c: nat, n: nat, k: nat)
    requires c < |s| && k < |s| && k != c
    requires |row| >= 1 + n && [row[0]] + row[1 + n..] == RemoveAt(s, c)
    ensures Shifted(k, c, n) < |row| && row[Shifted(k, c, n)] == s[k]
  {
    var m := if k < c then k else k - 1;
    assert RemoveAt(s, c)[m] == s[k];
    if m > 0 {
      assert row[m + n] == ([row[0]] + row[1 + n..])[m];
    }
  }

  /** Every other column comes through encoding with the same cells. */
  lemma ConvertKeepsOthers(t: Table, name: string, x: string)
    requires WellFormed(t) && ConvertCategorical(t, name).Ok?
    requires x in t.columns && x != name
    ensures ColumnNamed(ConvertCategorical(t, name).value, x) == ColumnNamed(t, x)
  {
    var r := ConvertCategorical(t, name).value;
    var c := IndexOf(t.columns, name).value;
    var n := |Classes(Values(t, name))|;
    var k := IndexOf(t.columns, x).value;
    IndexOfDistinct(t.columns, k);
    var pos := Shifted(k, c, n);
    KeptColumn(t, name, k);
    forall i | 0 <= i < |t.rows|
      ensures r.rows[i][pos] == t.rows[i][k]
    {
      KeptRow(t, name, i, k);
    }
    IndexOfDistinct(r.columns, pos);
    assert Column(r, pos) == Column(t, k);
  }

  // ---------------------------------------------------------------------
  // The indicator columns by name.
  // ---------------------------------------------------------------------

  /** The indicator of class `j`: 1 on the rows holding the `j`-th smallest
      distinct value, 0 elsewhere. */
  function OneHotOf(values: seq<Cell>, j: nat): (r: seq<Cell>)
    requires j < |Classes(values)|
    ensures |r| == |values|
  {
    seq(|values|, i requires 0 <= i < |values| => if values[i] == Classes(values)[j] then Num(1.0) else Num(0.0))
  }

  /** Each column `name1 .. nameN` of `t` is the indicator of its class of
      `values`. */
  predicate Encodes(t: Table, name: string, values: seq<Cell>)
    requires WellFormed(t)
  {
    forall j :: 0 <= j < |Classes(values)| ==>
      ColumnNamed(t, IndicatorNames(name, |Classes(values)|)[j]) == Some(OneHotOf(values, j))
  }

  /** A row's code is `j` exactly when its value is the `j`-th class. */
  lemma CodeIsClass(values: seq<Cell>, i: nat, j: nat)
    requires i < |values| && j < |Classes(values)|
    ensures LabelCodes(values)[i] == j <==> values[i] == Classes(values)[j]
  {
    SortedIsDistinct(Classes(values));
  }

  /** After encoding, column `name(j+1)` is the indicator of the `j`-th
      class of the encoded column. */
  lemma IndicatorColumnNamed(t: Table, name: string, j: nat)
    requires WellFormed(t) && ConvertCategorical(t, name).Ok? && j < |Classes(Values(t, name))|
    ensures ColumnNamed(ConvertCategorical(t, name).value, IndicatorNames(name, |Classes(Values(t, name))|)[j])
            == Some(OneHotOf(Values(t, name), j))
  {
    var r := ConvertCategorical(t, name).value;
    IndicatorPosition(t, name, j);
    IndicatorColumnAt(t, name, j);
    ColumnNamedAt(r, 1 + j);
  }

  lemma IndicatorPosition(t: Table, name: string, j: nat)
    requires WellFormed(t) && ConvertCategorical(t, name).Ok? && j < |Classes(Values(t, name))|
    ensures var r := ConvertCategorical(t, name).value;
            1 + j < |r.columns| && r.columns[1 + j] == IndicatorNames(name, |Classes(Values(t, name))|)[j]
  {
    ConvertCategoricalShape(t, name);
    ClassesCount(Values(t, name));
  }

  lemma IndicatorColumnAt(t: Table, name: string, j: nat)
    requires WellFormed(t) && ConvertCategorical(t, name).Ok? && j < |Classes(Values(t, name))|
    ensures var r := ConvertCategorical(t, name).value;
            1 + j < |r.columns| && Column(r, 1 + j) == OneHotOf(Values(t, name), j)
  {
    var r := ConvertCategorical(t, name).value;
    IndicatorPosition(t, name, j);
    forall i | 0 <= i < |r.rows|
      ensures r.rows[i][1 + j] == OneHotOf(Values(t, name), j)[i]
    {
      IndicatorCell(t, name, j, i);
    }
    ColumnIs(r, 1 + j, OneHotOf(Values(t, name), j));
  }

  lemma ColumnIs(t: Table, c: nat, col: seq<Cell>)
    requires WellFormed(t) && c < |t.columns| && |col| == |t.rows|
    requires forall i :: 0 <= i < |t.rows| ==> t.rows[i][c] == col[i]
    ensures Column(t, c) == col
  {
  }

  /** Row `i`, column `1 + j` of the encoded table. */
  lemma IndicatorCell(t: Table, name: string, j: nat, i: nat)
    requires WellFormed(t) && ConvertCategorical(t, name).Ok?
    requires j < |Classes(Values(t, name))| && i < |t.rows|
    ensures var r := ConvertCategorical(t, name).value;
            1 + j < |r.rows[i]| && r.rows[i][1 + j] == OneHotOf(Values(t, name), j)[i]
  {
    var r := ConvertCategorical(t, name).value;
    var values := Values(t, name);
    var n := |Classes(values)|;
    var k := LabelCodes(values)[i];
    var cell := if j == k then Num(1.0) else Num(0.0);
    assert 1 + j < |r.rows[i]| && r.rows[i][1 + j] == cell by {
      ConvertCategoricalSpec(t, name);
      ExpectedRow(t, name, i);
      SliceAt(r.rows[i], 1, 1 + n, j);
      assert OneHotRow(k, n)[j] == cell;
    }
    assert (j == k) == (values[i] == Classes(values)[j]) by {
      CodeIsClass(values, i, j);
    }
    OneHotAt(values, j, i);
  }

  lemma SliceAt<T>(s: seq<T>, lo: nat, hi: nat, j: nat)
    requires lo <= hi <= |s| && j < hi - lo
    ensures s[lo..hi][j] == s[lo + j]
  {
  }

  lemma OneHotAt(values: seq<Cell>, j: nat, i: nat)
    requires j < |Classes(values)| && i < |values|
    ensures OneHotOf(values, j)[i] == if values[i] == Classes(values)[j] then Num(1.0) else Num(0.0)
  {
  }

  /** The encoded table carries the indicators of the column it encoded. */
  lemma ConvertEncodes(t: Table, name: string)
    requires WellFormed(t) && ConvertCategorical(t, name).Ok?
    ensures Encodes(ConvertCategorical(t, name).value, name, Values(t, name))
  {
    forall j | 0 <= j < |Classes(Values(t, name))|
      ensures ColumnNamed(ConvertCategorical(t, name).value, IndicatorNames(name, |Classes(Values(t, name))|)[j])
              == Some(OneHotOf(Values(t, name), j))
    {
      IndicatorColumnNamed(t, name, j);
    }
  }

  /** Encoding another column, whose name starts with another letter,
      leaves the indicators of `other` as they are. */
  lemma EncodesAfterConvert(t: Table, name: string, other: string, values: seq<Cell>)
    requires WellFormed(t) && ConvertCategorical(t, name).Ok?
    requires Encodes(t, other, values)
    requires |name| > 0 && |other| > 0 && other[0] != name[0]
    ensures Encodes(ConvertCategorical(t, name).value, other, values)
  {
    var r := ConvertCategorical(t, name).value;
    var ns := IndicatorNames(other, |Classes(values)|);
    forall j | 0 <= j < |Classes(values)|
      ensures ColumnNamed(r, ns[j]) == Some(OneHotOf(values, j))
    {
      assert ns[j][0] == other[0];
      ConvertKeepsOthers(t, name, ns[j]);
    }
  }
}
