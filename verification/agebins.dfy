/** Age binning in `load_data`: `pd.cut(age, [0, 10, 20, 30, 40, 50, 100],
    labels=['1', ..., '6'])` with pandas' defaults (bins closed on the right,
    lowest edge excluded), followed by replacing the `age` column with the
    bin labels through a temporary `bin` column. */
module AgeBins {
  import opened Tables

  const AgeEdges: seq<real> := [0.0, 10.0, 20.0, 30.0, 40.0, 50.0, 100.0]
  const AgeLabels: seq<string> := ["1", "2", "3", "4", "5", "6"]

  predicate Increasing(edges: seq<real>) {
    forall i, j :: 0 <= i < j < |edges| ==> edges[i] < edges[j]
  }

  /** Search the bins `(edges[b], edges[b+1]]` from `b = k` on. */
  function CutFrom(x: real, edges: seq<real>, labels: seq<string>, k: nat): (r: Option<string>)
    requires |labels| + 1 == |edges| && k <= |labels|
    ensures r.Some? <==> exists b :: k <= b < |labels| && edges[b] < x <= edges[b + 1]
    ensures r.Some? ==> exists b :: k <= b < |labels| && edges[b] < x <= edges[b + 1] && r.value == labels[b]
    decreases |labels| - k
  {
    if k == |labels| then None
    else if edges[k] < x <= edges[k + 1] then Some(labels[k])
    else CutFrom(x, edges, labels, k + 1)
  }

  /** The bins of increasing edges tile `(edges[0], edges[last]]`. */
  lemma {:induction false} BinsCover(x: real, edges: seq<real>, k: nat)
    requires Increasing(edges) && k + 1 < |edges|
    requires edges[k] < x <= edges[|edges| - 1]
    ensures exists b :: k <= b < |edges| - 1 && edges[b] < x <= edges[b + 1]
    decreases |edges| - k
  {
    if !(x <= edges[k + 1]) {
      BinsCover(x, edges, k + 1);
    }
  }

  /** `pd.cut(x, edges, labels=labels)` for one value: the label of the
      right-closed bin holding `x`, or None (NaN) when `x` is in no bin. */
  function Cut(x: real, edges: seq<real>, labels: seq<string>): (r: Option<string>)
    requires Increasing(edges) && |labels| + 1 == |edges|
    ensures r.Some? <==> |labels| > 0 && edges[0] < x <= edges[|labels|]
    ensures forall b :: 0 <= b < |labels| && edges[b] < x <= edges[b + 1] ==> r == Some(labels[b])
  {
    CutCovers(x, edges, labels);
    CutFrom(x, edges, labels, 0)
  }

  lemma CutCovers(x: real, edges: seq<real>, labels: seq<string>)
    requires Increasing(edges) && |labels| + 1 == |edges|
    ensures |labels| > 0 && edges[0] < x <= edges[|labels|] ==>
              exists b :: 0 <= b < |labels| && edges[b] < x <= edges[b + 1]
  {
    if |labels| > 0 && edges[0] < x <= edges[|labels|] {
      BinsCover(x, edges, 0);
    }
  }

  /** The age bin of the feature script. */
  function AgeBin(age: real): Option<string> {
    assert Increasing(AgeEdges);
    Cut(age, AgeEdges, AgeLabels)
  }

  /** An age gets label k for `10(k-1) < age <= 10k`, k = 1..5, label 6 for
      `50 < age <= 100`, and no label when `age <= 0` or `age > 100`. */
  lemma AgeBinSpec(age: real)
    ensures AgeBin(age).Some? <==> 0.0 < age <= 100.0
    ensures 0.0 < age <= 10.0 ==> AgeBin(age) == Some("1")
    ensures 10.0 < age <= 20.0 ==> AgeBin(age) == Some("2")
    ensures 20.0 < age <= 30.0 ==> AgeBin(age) == Some("3")
    ensures 30.0 < age <= 40.0 ==> AgeBin(age) == Some("4")
    ensures 40.0 < age <= 50.0 ==> AgeBin(age) == Some("5")
    ensures 50.0 < age <= 100.0 ==> AgeBin(age) == Some("6")
  {
    if 0.0 < age <= 100.0 {
      var b := if age <= 10.0 then 0 else if age <= 20.0 then 1 else if age <= 30.0 then 2
               else if age <= 40.0 then 3 else if age <= 50.0 then 4 else 5;
      AgeBinAt(age, b);
    } else {
      AgeBinOutside(age);
    }
  }

  /** An age in the `b`-th bin gets the `b`-th label. */
  lemma AgeBinAt(age: real, b: nat)
    requires b < |AgeLabels| && AgeEdges[b] < age <= AgeEdges[b + 1]
    ensures AgeBin(age) == Some(AgeLabels[b])
  {
    assert Increasing(AgeEdges);
  }

  lemma AgeBinOutside(age: real)
    requires !(0.0 < age <= 100.0)
    ensures AgeBin(age).None?
  {
    assert Increasing(AgeEdges);
  }

  /** One cell of `pd.cut` on the age column: numbers get their bin label
      or NaN, NaN stays NaN, strings raise. */
  function BinCell(c: Cell): Result<Cell> {
    match c
    case Num(v) =>
      var bin := AgeBin(v);
      if bin.Some? then Ok(Text(bin.value)) else Ok(Missing)
    case Missing => Ok(Missing)
    case Text(_) => Err(NonNumericAge)
  }

  function BinCells(cells: seq<Cell>): (r: Result<seq<Cell>>)
    ensures r.Ok? <==> forall i :: 0 <= i < |cells| ==> !cells[i].Text?
    ensures r.Ok? ==> |r.value| == |cells|
    ensures r.Ok? ==> forall i :: 0 <= i < |cells| ==> BinCell(cells[i]) == Ok(r.value[i])
  {
    if |cells| == 0 then Ok([])
    else
      match BinCell(cells[0])
      case Err(e) => Err(e)
      case Ok(b) =>
        match BinCells(cells[1..])
        case Err(e) => Err(e)
        case Ok(bs) => Ok([b] + bs)
  }

  /** Lines `df_user['bin'] = pd.cut(...)`, `df_user['age'] = df_user['bin']`,
      `df_user = df_user.drop(columns='bin')`. */
  function BinAges(t: Table): (r: Result<Table>)
    requires WellFormed(t)
    ensures r.Ok? ==> WellFormed(r.value) && |r.value.rows| == |t.rows|
  {
    match ColumnNamed(t, "age")
    case None => Err(MissingColumn("age"))
    case Some(ages) =>
      match BinCells(ages)
      case Err(e) => Err(e)
      case Ok(bins) =>
        var withBin := SetColumn(t, "bin", bins);
        var replaced := SetColumn(withBin, "age", ColumnNamed(withBin, "bin").value);
        DropColumn(replaced, "bin")
  }

  /** Binning fails exactly when there is no `age` column or an age is a
      string; otherwise, on a table without a `bin` column, the columns stay
      as they are, `age` holds the bins and every other column is untouched. */
  lemma BinAgesSpec(t: Table)
    requires WellFormed(t)
    ensures BinAges(t).Ok? <==>
              "age" in t.columns && BinCells(ColumnNamed(t, "age").value).Ok?
    ensures BinAges(t).Ok? && "bin" !in t.columns ==>
              && BinAges(t).value.columns == t.columns
              && ColumnNamed(BinAges(t).value, "age") == Some(BinCells(ColumnNamed(t, "age").value).value)
              && forall x :: x != "age" && x != "bin" ==> ColumnNamed(BinAges(t).value, x) == ColumnNamed(t, x)
  {
    if "age" in t.columns && BinCells(ColumnNamed(t, "age").value).Ok? {
      var bins := BinCells(ColumnNamed(t, "age").value).value;
      var withBin := SetColumn(t, "bin", bins);
      var replaced := SetColumn(withBin, "age", bins);
      var r := DropColumn(replaced, "bin").value;
      if "bin" !in t.columns {
        assert replaced.columns == t.columns + ["bin"];
        assert IndexOf(replaced.columns, "bin") == Some(|t.columns|) by {
          IndexOfDistinct(replaced.columns, |t.columns|);
        }
        assert r.columns == t.columns;
      }
    }
  }
}
