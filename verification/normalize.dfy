/** One metric column of `train_model`: `df_user['UID'].map(metric)`, then
    the column divided by its maximum, then `fillna(0)`. Values are reals;
    NaN is `None` before filling and `Missing` in a table. */
module Normalize {
  import opened Tables

  type NonNeg = r: real | r >= 0.0

  /** A centrality of the user graph: a non-negative value per node. Users
      who are not nodes of the graph have no entry. */
  type Metric = map<int, NonNeg>

  /** The metric's value for the user in this cell; NaN when the cell is no
      whole number or the user is not a node. */
  function Lookup(uid: Cell, m: Metric): (r: Option<real>)
    ensures r.Some? ==> r.value >= 0.0
  {
    if uid.Num? && uid.v.Floor as real == uid.v && uid.v.Floor in m then Some(m[uid.v.Floor] as real)
    else None
  }

  /** `Series.map(metric)`. */
  function MapColumn(uids: seq<Cell>, m: Metric): (r: seq<Option<real>>)
    ensures |r| == |uids|
    ensures forall i :: 0 <= i < |uids| ==> r[i] == Lookup(uids[i], m)
  {
    seq(|uids|, i requires 0 <= i < |uids| => Lookup(uids[i], m))
  }

  /** `Series.max()`: the largest value, skipping NaN; NaN when there is none. */
  function MaxPresent(vs: seq<Option<real>>): (r: Option<real>)
    ensures r.None? <==> forall i :: 0 <= i < |vs| ==> vs[i].None?
    ensures r.Some? ==> forall i :: 0 <= i < |vs| && vs[i].Some? ==> vs[i].value <= r.value
    ensures r.Some? ==> exists i :: 0 <= i < |vs| && vs[i] == r
  {
    if |vs| == 0 then None
    else
      var init := vs[..|vs| - 1];
      var last := vs[|vs| - 1];
      assert forall i :: 0 <= i < |init| ==> vs[i] == init[i];
      var m := MaxPresent(init);
      if last.None? then m
      else if m.None? || m.value < last.value then Some(last.value)
      else m
  }

  /** `column /= max` for one value. The values never exceed the maximum,
      so a zero maximum means a zero value, and 0/0 is NaN. */
  function Divide(v: Option<real>, max: Option<real>): Option<real> {
    if v.None? || max.None? || max.value == 0.0 then None
    else Some(v.value / max.value)
  }

  function ToCell(v: Option<real>): Cell {
    if v.Some? then Num(v.value) else Missing
  }

  /** The metric column as `train_model` leaves it in the user table. */
  function Normalized(uids: seq<Cell>, m: Metric): (r: seq<Cell>)
    ensures |r| == |uids|
  {
    var vs := MapColumn(uids, m);
    var max := MaxPresent(vs);
    seq(|uids|, i requires 0 <= i < |uids| => ToCell(Divide(vs[i], max)))
  }

  /** `fillna(0)` on one cell. */
  function FillCell(c: Cell): (r: Cell)
    ensures !r.Missing?
    ensures !c.Missing? ==> r == c
  {
    if c.Missing? then Num(0.0) else c
  }

  function FillNa(cells: seq<Cell>): (r: seq<Cell>)
    ensures |r| == |cells|
    ensures forall i :: 0 <= i < |cells| ==> r[i] == FillCell(cells[i])
  {
    seq(|cells|, i requires 0 <= i < |cells| => FillCell(cells[i]))
  }

  /** The metric column of the feature table. */
  function Feature(uids: seq<Cell>, m: Metric): (r: seq<Cell>)
    ensures |r| == |uids|
  {
    FillNa(Normalized(uids, m))
  }

  lemma FeatureAt(uids: seq<Cell>, m: Metric, i: nat)
    requires i < |uids|
    ensures Feature(uids, m)[i]
            == FillCell(ToCell(Divide(Lookup(uids[i], m), MaxPresent(MapColumn(uids, m)))))
  {
  }

  /** Every feature value is a number between 0 and 1. */
  lemma FeatureRange(uids: seq<Cell>, m: Metric, i: nat)
    requires i < |uids|
    ensures Feature(uids, m)[i].Num?
    ensures 0.0 <= Feature(uids, m)[i].v <= 1.0
  {
    var vs := MapColumn(uids, m);
    var max := MaxPresent(vs);
    if vs[i].Some? && max.Some? && max.value != 0.0 {
      assert vs[i].value <= max.value;
      DivideAtMostOne(vs[i].value, max.value);
    }
  }

  lemma DivideAtMostOne(v: real, max: real)
    requires 0.0 <= v <= max && max != 0.0
    ensures 0.0 <= v / max <= 1.0
  {
  }

  /** A user who is not a node of the graph gets 0. */
  lemma FeatureAbsent(uids: seq<Cell>, m: Metric, i: nat)
    requires i < |uids| && Lookup(uids[i], m).None?
    ensures Feature(uids, m)[i] == Num(0.0)
  {
  }

  /** When all present values are 0, or no user is a node, every feature is 0. */
  lemma FeatureZeroMax(uids: seq<Cell>, m: Metric, i: nat)
    requires i < |uids|
    requires forall j :: 0 <= j < |uids| ==> Lookup(uids[j], m).None? || Lookup(uids[j], m).value == 0.0
    ensures Feature(uids, m)[i] == Num(0.0)
  {
    var vs := MapColumn(uids, m);
    var max := MaxPresent(vs);
    if max.Some? {
      var j :| 0 <= j < |vs| && vs[j] == max;
    }
  }

  /** With a positive maximum, a present value `v` becomes `v / max`: the
      feature times the maximum gives the metric back. */
  lemma FeatureQuotient(uids: seq<Cell>, m: Metric, i: nat)
    requires i < |uids| && Lookup(uids[i], m).Some?
    requires MaxPresent(MapColumn(uids, m)).value > 0.0
    ensures Feature(uids, m)[i].Num?
    ensures Feature(uids, m)[i].v == Lookup(uids[i], m).value / MaxPresent(MapColumn(uids, m)).value
  {
    FeatureAt(uids, m, i);
  }

  lemma FeatureScale(uids: seq<Cell>, m: Metric, i: nat)
    requires i < |uids| && Lookup(uids[i], m).Some?
    requires MaxPresent(MapColumn(uids, m)).value > 0.0
    ensures ScalesBack(Feature(uids, m)[i], MaxPresent(MapColumn(uids, m)).value, Lookup(uids[i], m).value)
  {
    FeatureQuotient(uids, m, i);
    QuotientScalesBack(Feature(uids, m)[i], MaxPresent(MapColumn(uids, m)).value, Lookup(uids[i], m).value);
  }

  /** The cell is a number that, times `max`, gives `v`. */
  predicate ScalesBack(c: Cell, max: real, v: real) {
    c.Num? && c.v * max == v
  }

  lemma QuotientScalesBack(c: Cell, max: real, v: real)
    requires max != 0.0 && c == Num(v / max)
    ensures ScalesBack(c, max, v)
  {
  }

  lemma DivideSelf(d: real)
    requires d != 0.0
    ensures d / d == 1.0
  {
  }

  /** Some user holds the maximum, and every user who does gets exactly 1. */
  lemma FeatureMaxIsOne(uids: seq<Cell>, m: Metric)
    requires MaxPresent(MapColumn(uids, m)).Some? && MaxPresent(MapColumn(uids, m)).value > 0.0
    ensures exists i :: 0 <= i < |uids| && Lookup(uids[i], m) == MaxPresent(MapColumn(uids, m))
    ensures forall i :: 0 <= i < |uids| && Lookup(uids[i], m) == MaxPresent(MapColumn(uids, m)) ==>
              Feature(uids, m)[i] == Num(1.0)
  {
    var vs := MapColumn(uids, m);
    var max := MaxPresent(vs).value;
    var i :| 0 <= i < |vs| && vs[i] == MaxPresent(vs);
    assert Lookup(uids[i], m) == MaxPresent(vs);
    forall j | 0 <= j < |uids| && Lookup(uids[j], m) == MaxPresent(vs)
      ensures Feature(uids, m)[j] == Num(1.0)
    {
      FeatureAt(uids, m, j);
      DivideSelf(max);
      assert Divide(Some(max), Some(max)) == Some(1.0);
    }
  }

  /** Normalising keeps the order of the present values. */
  lemma FeatureOrder(uids: seq<Cell>, m: Metric, i: nat, j: nat)
    requires i < |uids| && j < |uids|
    requires Lookup(uids[i], m).Some? && Lookup(uids[j], m).Some?
    ensures Lookup(uids[i], m).value <= Lookup(uids[j], m).value
            <==> Feature(uids, m)[i].v <= Feature(uids, m)[j].v
  {
    var vs := MapColumn(uids, m);
    var max := MaxPresent(vs);
    assert vs[i].value <= max.value;
    if max.value > 0.0 {
      DivideMonotone(vs[i].value, vs[j].value, max.value);
    } else {
      assert vs[j].value <= max.value;
    }
  }

  lemma DivideMonotone(a: real, b: real, d: real)
    requires d > 0.0
    ensures a <= b <==> a / d <= b / d
  {
    if a <= b {
      assert b / d - a / d == (b - a) / d;
    } else {
      assert a / d - b / d == (a - b) / d;
    }
  }
}
