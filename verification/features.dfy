/** The loop of `train_model`: for each coefficient of the sweep, build the
    user graph, write its six normalised centralities into the user table
    (`df_user['PR'] = ...` and so on), and take every column but the first,
    with NaN filled by 0, as that coefficient's feature table. The
    centralities themselves are computed by networkx and are given here as
    a function of the graph. */
module Features {
  import opened Tables
  import opened CoRating
  import opened CoGraph
  import opened Normalize

  const MetricNames: seq<string> := ["PR", "CD", "CC", "CB", "LC", "AND"]

  /** PageRank of the directed version of the graph, degree, closeness,
      betweenness and load centrality, and average neighbour degree. */
  datatype Centralities = Centralities(
    pageRank: Metric, degree: Metric, closeness: Metric,
    betweenness: Metric, load: Metric, neighbourDegree: Metric)

  /** The measures in the order of `MetricNames`. */
  function Measures(c: Centralities): (ms: seq<Metric>)
    ensures |ms| == |MetricNames|
  {
    [c.pageRank, c.degree, c.closeness, c.betweenness, c.load, c.neighbourDegree]
  }

  lemma MetricNamesDistinct()
    ensures Distinct(MetricNames)
    ensures "UID" !in MetricNames
  {
  }

  /** The column list after `df[name] = ...` for each name in turn: names
      already present stay where they are, new ones are appended in order. */
  function WithNames(cols: seq<string>, names: seq<string>): (r: seq<string>)
    ensures forall x :: x in r <==> x in cols || x in names
    ensures |cols| <= |r| && r[..|cols|] == cols
    decreases |names|
  {
    if |names| == 0 then cols
    else
      var next := if names[0] in cols then cols else cols + [names[0]];
      assert forall x :: x in next <==> x in cols || x == names[0];
      assert names == [names[0]] + names[1..];
      var r := WithNames(next, names[1..]);
      assert r[..|cols|] == r[..|next|][..|cols|];
      r
  }

  /** Only new names are appended: each column after the original ones is
      an assigned name that was not there before, and no column is
      repeated. */
  lemma {:induction false} WithNamesAppended(cols: seq<string>, names: seq<string>)
    ensures var r := WithNames(cols, names);
            && (forall i :: |cols| <= i < |r| ==> r[i] !in cols && r[i] in names)
            && (Distinct(cols) ==> Distinct(r))
    decreases |names|
  {
    if |names| > 0 {
      var next := if names[0] in cols then cols else cols + [names[0]];
      var r := WithNames(cols, names);
      assert r == WithNames(next, names[1..]);
      WithNamesAppended(next, names[1..]);
      assert r[..|next|] == next;
      forall i | |cols| <= i < |r|
        ensures r[i] !in cols && r[i] in names
      {
        if i < |next| {
          assert r[i] == next[i] == names[0];
        } else {
          assert r[i] in names[1..];
        }
      }
      assert Distinct(cols) ==> Distinct(next);
    }
  }

  /** Once every name is present, setting the columns again leaves the
      column list as it is. */
  lemma {:induction false} WithNamesPresent(cols: seq<string>, names: seq<string>)
    requires forall x :: x in names ==> x in cols
    ensures WithNames(cols, names) == cols
  {
    if |names| > 0 {
      WithNamesPresent(cols, names[1..]);
    }
  }

  /** `df_user[name] = df_user['UID'].map(m)` then `df_user[name] /= max`,
      for the metrics from position `k` on. */
  function AddMetrics(t: Table, ms: seq<Metric>, k: nat): (r: Table)
    requires WellFormed(t) && "UID" in t.columns
    requires |ms| == |MetricNames| && k <= |ms|
    ensures WellFormed(r) && |r.rows| == |t.rows| && "UID" in r.columns
    ensures ColumnNamed(r, "UID") == ColumnNamed(t, "UID")
    decreases |ms| - k
  {
    if k == |ms| then t
    else
      MetricNamesDistinct();
      var u := SetColumn(t, MetricNames[k], Normalized(Values(t, "UID"), ms[k]));
      AddMetrics(u, ms, k + 1)
  }

  /** Writing the metrics from `k` on sets their names in order. */
  lemma {:induction false} AddMetricsColumns(t: Table, ms: seq<Metric>, k: nat)
    requires WellFormed(t) && "UID" in t.columns
    requires |ms| == |MetricNames| && k <= |ms|
    ensures AddMetrics(t, ms, k).columns == WithNames(t.columns, MetricNames[k..])
    decreases |ms| - k
  {
    if k < |ms| {
      MetricNamesDistinct();
      var u := SetColumn(t, MetricNames[k], Normalized(Values(t, "UID"), ms[k]));
      AddMetricsColumns(u, ms, k + 1);
      assert MetricNames[k..][1..] == MetricNames[k + 1..];
    }
  }

  /** Each metric column from `k` on holds that metric, normalised over the
      users of the table. */
  lemma {:induction false} AddMetricsValues(t: Table, ms: seq<Metric>, k: nat)
    requires WellFormed(t) && "UID" in t.columns
    requires |ms| == |MetricNames| && k <= |ms|
    ensures forall j :: k <= j < |ms| ==>
              ColumnNamed(AddMetrics(t, ms, k), MetricNames[j]) == Some(Normalized(Values(t, "UID"), ms[j]))
    decreases |ms| - k
  {
    if k < |ms| {
      MetricNamesDistinct();
      var u := SetColumn(t, MetricNames[k], Normalized(Values(t, "UID"), ms[k]));
      AddMetricsValues(u, ms, k + 1);
      AddMetricsOthers(u, ms, k + 1);
      assert MetricNames[k] !in MetricNames[k + 1..];
    }
  }

  /** Every column that is not one of the metrics from `k` on is untouched. */
  lemma {:induction false} AddMetricsOthers(t: Table, ms: seq<Metric>, k: nat)
    requires WellFormed(t) && "UID" in t.columns
    requires |ms| == |MetricNames| && k <= |ms|
    ensures forall x :: x !in MetricNames[k..] ==> ColumnNamed(AddMetrics(t, ms, k), x) == ColumnNamed(t, x)
    decreases |ms| - k
  {
    if k < |ms| {
      MetricNamesDistinct();
      var u := SetColumn(t, MetricNames[k], Normalized(Values(t, "UID"), ms[k]));
      AddMetricsOthers(u, ms, k + 1);
      assert forall x :: x in MetricNames[k + 1..] ==> x in MetricNames[k..];
    }
  }

  /** `df_user.loc[:, df_user.columns[1:]]` followed by `fillna(0)`. */
  function XTrain(t: Table): (r: Table)
    requires WellFormed(t)
    ensures WellFormed(r) && |r.rows| == |t.rows|
    ensures |t.columns| > 0 ==> r.columns == t.columns[1..]
    ensures forall i, c :: 0 <= i < |r.rows| && 0 <= c < |r.columns| ==> !r.rows[i][c].Missing?
  {
    var drop := if |t.columns| == 0 then 0 else 1;
    Table(t.columns[drop..], seq(|t.rows|, i requires 0 <= i < |t.rows| => FillNa(t.rows[i][drop..])))
  }

  /** Each column of the feature table is the user-table column of the same
      name with NaN filled by 0. */
  lemma XTrainColumn(t: Table, x: string)
    requires WellFormed(t) && |t.columns| > 0 && x in t.columns[1..]
    ensures ColumnNamed(XTrain(t), x) == Some(FillNa(ColumnNamed(t, x).value))
  {
    var r := XTrain(t);
    var c :| 0 <= c < |r.columns| && r.columns[c] == x;
    assert t.columns[c + 1] == x;
    IndexOfDistinct(t.columns, c + 1);
    IndexOfDistinct(r.columns, c);
    assert Column(r, c) == FillNa(Column(t, c + 1));
  }

  /** A user table `train_model` can write metrics into. */
  type UserTable = t: Table | WellFormed(t) && "UID" in t.columns witness Table(["UID"], [])

  /** The states a step function passes through over `coefs`: the state
      after the first, after the second, and so on. */
  function Steps<S, C>(s: S, step: (S, C) -> S, coefs: seq<C>): (ss: seq<S>)
    ensures |ss| == |coefs|
    ensures |coefs| > 0 ==> ss[0] == step(s, coefs[0])
    decreases |coefs|
  {
    if |coefs| == 0 then []
    else
      var next := step(s, coefs[0]);
      [next] + Steps(next, step, coefs[1..])
  }

  /** When a step wipes out every trace of the one before it, the state
      after the `i`-th coefficient is one step from the start. */
  lemma {:induction false} StepsAt<S, C>(s: S, step: (S, C) -> S, coefs: seq<C>, i: nat)
    requires forall u: S, a: C, b: C :: step(step(u, a), b) == step(u, b)
    requires i < |coefs|
    ensures Steps(s, step, coefs)[i] == step(s, coefs[i])
    decreases i
  {
    if i > 0 {
      var next := step(s, coefs[0]);
      StepsAt(next, step, coefs[1..], i - 1);
      assert Steps(s, step, coefs)[i] == Steps(next, step, coefs[1..])[i - 1];
      assert coefs[1..][i - 1] == coefs[i];
    }
  }

  /** One pass of the loop body of `train_model` on the user table: the six
      centralities of the coefficient's graph written as metric columns. */
  function UserStep(rs: seq<Rating>, measure: Graph -> Centralities): (UserTable, real) -> UserTable {
    (u: UserTable, alphaCoef: real) => WriteMetrics(u, measure(CoRatingGraph(rs, alphaCoef)))
  }

  function WriteMetrics(u: UserTable, c: Centralities): UserTable {
    AddMetrics(u, Measures(c), 0)
  }

  /** `X_train` of every user table of the sweep. */
  function FeatureTables(us: seq<UserTable>): (xs: seq<Table>)
    ensures |xs| == |us|
  {
    seq(|us|, i requires 0 <= i < |us| => XTrain(us[i]))
  }

  /** `train_model`: one feature table per coefficient of the sweep. Without
      a `UID` column the first `df_user['UID']` raises before anything is
      written. */
  function TrainModel(rs: seq<Rating>, users: Table, measure: Graph -> Centralities): (r: Result<seq<Table>>)
    requires WellFormed(users)
    ensures r.Ok? <==> "UID" in users.columns
    ensures r.Ok? ==> |r.value| == |AlphaCoefs|
  {
    if "UID" !in users.columns then Err(MissingColumn("UID"))
    else Ok(FeatureTables(Steps<UserTable, real>(users, UserStep(rs, measure), AlphaCoefs)))
  }

  lemma OverwriteColumns(t: Table, first: seq<Metric>, second: seq<Metric>)
    requires WellFormed(t) && "UID" in t.columns
    requires |first| == |MetricNames| && |second| == |MetricNames|
    ensures AddMetrics(AddMetrics(t, first, 0), second, 0).columns == AddMetrics(t, second, 0).columns
  {
    var u := AddMetrics(t, first, 0);
    assert MetricNames[0..] == MetricNames;
    AddMetricsColumns(t, first, 0);
    AddMetricsColumns(u, second, 0);
    AddMetricsColumns(t, second, 0);
    WithNamesPresent(u.columns, MetricNames);
  }

  lemma OverwriteColumn(t: Table, first: seq<Metric>, second: seq<Metric>, x: string)
    requires WellFormed(t) && "UID" in t.columns
    requires |first| == |MetricNames| && |second| == |MetricNames|
    ensures ColumnNamed(AddMetrics(AddMetrics(t, first, 0), second, 0), x) == ColumnNamed(AddMetrics(t, second, 0), x)
  {
    assert MetricNames[0..] == MetricNames;
    if x in MetricNames {
      OverwriteMetric(t, first, second, x);
    } else {
      OverwriteOther(t, first, second, x);
    }
  }

  lemma OverwriteMetric(t: Table, first: seq<Metric>, second: seq<Metric>, x: string)
    requires WellFormed(t) && "UID" in t.columns
    requires |first| == |MetricNames| && |second| == |MetricNames|
    requires x in MetricNames
    ensures ColumnNamed(AddMetrics(AddMetrics(t, first, 0), second, 0), x) == ColumnNamed(AddMetrics(t, second, 0), x)
  {
    var u := AddMetrics(t, first, 0);
    var j :| 0 <= j < |MetricNames| && MetricNames[j] == x;
    AddMetricsValues(u, second, 0);
    AddMetricsValues(t, second, 0);
    assert Values(u, "UID") == Values(t, "UID");
  }

  lemma OverwriteOther(t: Table, first: seq<Metric>, second: seq<Metric>, x: string)
    requires WellFormed(t) && "UID" in t.columns
    requires |first| == |MetricNames| && |second| == |MetricNames|
    requires x !in MetricNames
    ensures ColumnNamed(AddMetrics(AddMetrics(t, first, 0), second, 0), x) == ColumnNamed(AddMetrics(t, second, 0), x)
  {
    var u := AddMetrics(t, first, 0);
    assert MetricNames[0..] == MetricNames;
    AddMetricsOthers(u, second, 0);
    AddMetricsOthers(t, second, 0);
    AddMetricsOthers(t, first, 0);
  }

  /** Writing the metrics a second time replaces every trace of the first:
      the table is the one the second metrics alone would give. */
  lemma AddMetricsOverwrite(t: Table, first: seq<Metric>, second: seq<Metric>)
    requires WellFormed(t) && "UID" in t.columns
    requires |first| == |MetricNames| && |second| == |MetricNames|
    ensures AddMetrics(AddMetrics(t, first, 0), second, 0) == AddMetrics(t, second, 0)
  {
    var twice, once := AddMetrics(AddMetrics(t, first, 0), second, 0), AddMetrics(t, second, 0);
    OverwriteColumns(t, first, second);
    forall x | x in twice.columns
      ensures ColumnNamed(twice, x) == ColumnNamed(once, x)
    {
      OverwriteColumn(t, first, second, x);
    }
    TableExt(twice, once);
  }

  lemma InTail<T>(s: seq<T>, x: T)
    requires |s| > 0 && x in s && x != s[0]
    ensures x in s[1..]
  {
    var j :| 0 <= j < |s| && s[j] == x;
    assert s[1..][j - 1] == x;
  }

  /** After the metrics are written, each metric name is a column after the
      first. */
  lemma MetricAfterFirst(users: Table, c: Centralities, k: nat)
    requires WellFormed(users) && |users.columns| > 0 && users.columns[0] == "UID"
    requires k < |MetricNames|
    ensures var u := AddMetrics(users, Measures(c), 0);
            |u.columns| > 0 && MetricNames[k] in u.columns[1..]
  {
    var u := AddMetrics(users, Measures(c), 0);
    assert MetricNames[0..] == MetricNames;
    AddMetricsColumns(users, Measures(c), 0);
    MetricNamesDistinct();
    assert MetricNames[k] in MetricNames;
    assert u.columns[..|users.columns|][0] == "UID";
    InTail(u.columns, MetricNames[k]);
  }

  lemma FeatureMetricColumn(users: Table, c: Centralities, k: nat)
    requires WellFormed(users) && |users.columns| > 0 && users.columns[0] == "UID"
    requires k < |MetricNames|
    ensures ColumnNamed(XTrain(AddMetrics(users, Measures(c), 0)), MetricNames[k])
            == Some(Feature(Values(users, "UID"), Measures(c)[k]))
  {
    var u := AddMetrics(users, Measures(c), 0);
    MetricAfterFirst(users, c, k);
    XTrainColumn(u, MetricNames[k]);
    AddMetricsValues(users, Measures(c), 0);
  }

  lemma FeatureOtherColumn(users: Table, c: Centralities, y: string)
    requires WellFormed(users) && |users.columns| > 0 && users.columns[0] == "UID"
    requires y in users.columns[1..] && y !in MetricNames
    ensures ColumnNamed(XTrain(AddMetrics(users, Measures(c), 0)), y) == Some(FillNa(Values(users, y)))
  {
    var u := AddMetrics(users, Measures(c), 0);
    assert MetricNames[0..] == MetricNames;
    AddMetricsColumns(users, Measures(c), 0);
    InPrefixTail(users.columns, u.columns, y);
    XTrainColumn(u, y);
    AddMetricsOthers(users, Measures(c), 0);
  }

  lemma InPrefixTail<T>(s: seq<T>, t: seq<T>, y: T)
    requires 0 < |s| <= |t| && t[..|s|] == s && y in s[1..]
    ensures y in t[1..]
  {
    var j :| 0 <= j < |s| - 1 && s[1..][j] == y;
    assert t[1..][j] == y;
  }

  /** The feature table of one graph, for a user table whose first column
      is `UID`: the other user columns, then the metric columns that were
      not already there; each metric column is that metric normalised and
      NaN-filled; every other column is the user column, NaN-filled. */
  lemma FeatureTable(users: Table, c: Centralities)
    requires WellFormed(users) && |users.columns| > 0 && users.columns[0] == "UID"
    ensures var x := XTrain(AddMetrics(users, Measures(c), 0));
            && x.columns == WithNames(users.columns, MetricNames)[1..]
            && |x.rows| == |users.rows|
            && (forall k :: 0 <= k < |MetricNames| ==>
                  ColumnNamed(x, MetricNames[k]) == Some(Feature(Values(users, "UID"), Measures(c)[k])))
            && (forall y :: y in users.columns[1..] && y !in MetricNames ==>
                  ColumnNamed(x, y) == Some(FillNa(Values(users, y))))
  {
    assert MetricNames[0..] == MetricNames;
    AddMetricsColumns(users, Measures(c), 0);
    forall k | 0 <= k < |MetricNames|
      ensures ColumnNamed(XTrain(AddMetrics(users, Measures(c), 0)), MetricNames[k])
              == Some(Feature(Values(users, "UID"), Measures(c)[k]))
    {
      FeatureMetricColumn(users, c, k);
    }
    forall y | y in users.columns[1..] && y !in MetricNames
      ensures ColumnNamed(XTrain(AddMetrics(users, Measures(c), 0)), y) == Some(FillNa(Values(users, y)))
    {
      FeatureOtherColumn(users, c, y);
    }
  }

  /** `train_model` writes, for the `i`-th coefficient, the feature table of
      that coefficient's graph computed from the loaded user table. */
  lemma TrainModelAt(rs: seq<Rating>, users: Table, measure: Graph -> Centralities, i: nat)
    requires WellFormed(users) && "UID" in users.columns && i < |AlphaCoefs|
    ensures TrainModel(rs, users, measure).Ok?
    ensures TrainModel(rs, users, measure).value[i]
            == XTrain(AddMetrics(users, Measures(measure(CoRatingGraph(rs, AlphaCoefs[i]))), 0))
  {
    UserStepOverwrites(rs, measure);
    StepsAt<UserTable, real>(users, UserStep(rs, measure), AlphaCoefs, i);
  }

  /** Each pass of the loop overwrites all the metric columns of the one before. */
  lemma UserStepOverwrites(rs: seq<Rating>, measure: Graph -> Centralities)
    ensures var step := UserStep(rs, measure);
            forall u: UserTable, a: real, b: real :: step(step(u, a), b) == step(u, b)
  {
    var step := UserStep(rs, measure);
    forall u: UserTable, a: real, b: real
      ensures step(step(u, a), b) == step(u, b)
    {
      WriteTwice(u, measure(CoRatingGraph(rs, a)), measure(CoRatingGraph(rs, b)));
    }
  }

  lemma WriteTwice(u: UserTable, first: Centralities, second: Centralities)
    ensures WriteMetrics(WriteMetrics(u, first), second) == WriteMetrics(u, second)
  {
    AddMetricsOverwrite(u, Measures(first), Measures(second));
  }

  /** networkx gives every centrality a value for the nodes of the graph
      and for nothing else. */
  ghost predicate OnNodes(measure: Graph -> Centralities) {
    forall g: Graph, k: nat, u: int :: k < |MetricNames| && u in Measures(measure(g))[k] ==> u in g.nodes
  }

  /** The cell holds the id of a node of `g`. */
  predicate IsNode(c: Cell, g: Graph) {
    c.Num? && c.v.Floor as real == c.v && c.v.Floor in g.nodes
  }

  /** A user who is not a node has no entry in any centrality. */
  lemma NotNodeNoEntry(c: Cell, g: Graph, measure: Graph -> Centralities, k: nat)
    requires OnNodes(measure) && !IsNode(c, g) && k < |MetricNames|
    ensures Lookup(c, Measures(measure(g))[k]).None?
  {
  }

  /** A user who is not a node of the `i`-th graph gets 0 in every metric
      column of the `i`-th feature table. */
  lemma TrainModelAbsent(rs: seq<Rating>, users: Table, measure: Graph -> Centralities, i: nat, r: nat)
    requires WellFormed(users) && |users.columns| > 0 && users.columns[0] == "UID"
    requires OnNodes(measure) && i < |AlphaCoefs| && r < |users.rows|
    requires !IsNode(users.rows[r][0], CoRatingGraph(rs, AlphaCoefs[i]))
    ensures TrainModel(rs, users, measure).Ok?
    ensures var x := TrainModel(rs, users, measure).value[i];
            && WellFormed(x) && |x.rows| == |users.rows|
            && forall k :: 0 <= k < |MetricNames| ==>
                 MetricNames[k] in x.columns && ColumnNamed(x, MetricNames[k]).value[r] == Num(0.0)
  {
    var g := CoRatingGraph(rs, AlphaCoefs[i]);
    var c := measure(g);
    TrainModelAt(rs, users, measure, i);
    FeatureTable(users, c);
    ColumnNamedAt(users, 0);
    var uids := Values(users, "UID");
    assert uids[r] == users.rows[r][0];
    forall k | 0 <= k < |MetricNames|
      ensures Feature(uids, Measures(c)[k])[r] == Num(0.0)
    {
      NotNodeNoEntry(users.rows[r][0], g, measure, k);
      FeatureAbsent(uids, Measures(c)[k], r);
    }
  }

  /** Setting columns none of which exists yet appends them in order. */
  lemma {:induction false} WithNamesFresh(cols: seq<string>, names: seq<string>)
    requires Distinct(names)
    requires forall x :: x in names ==> x !in cols
    ensures WithNames(cols, names) == cols + names
    decreases |names|
  {
    if |names| > 0 {
      var next := cols + [names[0]];
      FreshStep(cols, names);
      WithNamesFresh(next, names[1..]);
      AppendHead(cols, names);
    }
  }

  lemma AppendHead<T>(s: seq<T>, t: seq<T>)
    requires |t| > 0
    ensures s + [t[0]] + t[1..] == s + t
  {
  }

  /** One fresh name appended: the rest are still fresh. */
  lemma FreshStep(cols: seq<string>, names: seq<string>)
    requires Distinct(names) && |names| > 0
    requires forall x :: x in names ==> x !in cols
    ensures WithNames(cols, names) == WithNames(cols + [names[0]], names[1..])
    ensures Distinct(names[1..])
    ensures forall x :: x in names[1..] ==> x !in cols + [names[0]]
  {
    assert names[0] in names;
    forall x | x in names[1..]
      ensures x !in cols + [names[0]]
    {
      var j :| 0 <= j < |names[1..]| && names[1..][j] == x;
      assert names[j + 1] == x;
    }
  }
}
