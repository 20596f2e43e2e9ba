/** The whole script: the user table as `load_data` leaves it, fed to
    `train_model`. */
module Pipeline {
  import opened Tables
  import opened CellOrder
  import opened OneHot
  import opened CoRating
  import opened CoGraph
  import opened Normalize
  import opened Features
  import UserLoad

  /** No column of the loaded user table is a metric name, and `UID` comes
      first. */
  lemma UsersNoMetrics(raw: Table)
    requires UserLoad.RawUsers(raw)
    ensures UserLoad.LoadUsers(raw).Ok?
    ensures var cols := UserLoad.LoadUsers(raw).value.columns;
            && |cols| > 0 && cols[0] == "UID"
            && forall y :: y in cols ==> y !in MetricNames
  {
    UserLoad.LoadUsersLayout(raw);
    var an, gn, jn := UserLoad.AgeNames(raw), UserLoad.GenderNames(raw), UserLoad.JobNames(raw);
    UserLoad.IndicatorNamesStart("age", |an|);
    UserLoad.IndicatorNamesStart("gender", |gn|);
    UserLoad.IndicatorNamesStart("job", |jn|);
    LayoutNoMetrics(an, gn, jn);
  }

  /** `UID` followed by names starting with `a`, `g` and `j` holds no
      metric name. */
  lemma LayoutNoMetrics(an: seq<string>, gn: seq<string>, jn: seq<string>)
    requires forall y :: y in an ==> |y| > 0 && y[0] == 'a'
    requires forall y :: y in gn ==> |y| > 0 && y[0] == 'g'
    requires forall y :: y in jn ==> |y| > 0 && y[0] == 'j'
    ensures forall y :: y in ["UID"] + an + gn + jn ==> y !in MetricNames
  {
    forall y | y in ["UID"] + an + gn + jn
      ensures y !in MetricNames
    {
      if y != "UID" {
        assert y in an || y in gn || y in jn;
        NotMetricByInitial(y);
      }
    }
  }

  /** A name starting with a lower-case letter is not a metric name. */
  lemma NotMetricByInitial(y: string)
    requires |y| > 0 && 'a' <= y[0] <= 'z'
    ensures y !in MetricNames
  {
    forall k | 0 <= k < |MetricNames|
      ensures MetricNames[k] != y
    {
      assert 'A' <= MetricNames[k][0] <= 'Z';
    }
  }

  /** `fillna(0)` leaves an indicator column as it is. */
  lemma FillOneHot(values: seq<Cell>, j: nat)
    requires j < |Classes(values)|
    ensures FillNa(OneHotOf(values, j)) == OneHotOf(values, j)
  {
  }

  /** The indicator columns of the user table come through to the feature
      table unchanged, when their names are neither `UID` nor a metric. */
  lemma FeatureIndicators(users: Table, x: Table, name: string, values: seq<Cell>)
    requires WellFormed(users) && WellFormed(x) && |users.columns| > 0 && users.columns[0] == "UID"
    requires forall y :: y in users.columns[1..] && y !in MetricNames ==> ColumnNamed(x, y) == Some(FillNa(Values(users, y)))
    requires Encodes(users, name, values)
    requires |name| > 0 && 'a' <= name[0] <= 'z'
    ensures Encodes(x, name, values)
  {
    var ns := IndicatorNames(name, |Classes(values)|);
    forall j | 0 <= j < |Classes(values)|
      ensures ColumnNamed(x, ns[j]) == Some(OneHotOf(values, j))
    {
      var y := ns[j];
      assert y[0] == name[0];
      NotMetricByInitial(y);
      var p :| 0 <= p < |users.columns| && users.columns[p] == y;
      assert users.columns[1..][p - 1] == y;
      FillOneHot(values, j);
    }
  }

  /** The `i`-th feature table in terms of the user file. */
  lemma PipelineTable(raw: Table, rs: seq<Rating>, measure: Graph -> Centralities, i: nat)
    requires UserLoad.RawUsers(raw) && i < |AlphaCoefs|
    ensures UserLoad.LoadUsers(raw).Ok?
    ensures var users := UserLoad.LoadUsers(raw).value;
            && TrainModel(rs, users, measure).Ok?
            && var x := TrainModel(rs, users, measure).value[i];
            && WellFormed(x)
            && x.columns == WithNames(users.columns, MetricNames)[1..]
            && |x.rows| == |raw.rows|
            && (forall k :: 0 <= k < |MetricNames| ==>
                  ColumnNamed(x, MetricNames[k])
                  == Some(Feature(Values(users, "UID"), Measures(measure(CoRatingGraph(rs, AlphaCoefs[i])))[k])))
            && (forall y :: y in users.columns[1..] && y !in MetricNames ==>
                  ColumnNamed(x, y) == Some(FillNa(Values(users, y))))
  {
    UserLoad.LoadUsersLayout(raw);
    var users := UserLoad.LoadUsers(raw).value;
    assert users.columns[0] == "UID";
    TrainModelAt(rs, users, measure, i);
    FeatureTable(users, measure(CoRatingGraph(rs, AlphaCoefs[i])));
  }

  /** For a well-formed user file, every coefficient of the sweep gets a
      feature table with one row per user: the age, gender and job
      indicators, each 1 exactly on the users with that bin, gender or job,
      then the six metric columns, each the coefficient's centrality of the
      user normalised and NaN-filled. */
  lemma PipelineAt(raw: Table, rs: seq<Rating>, measure: Graph -> Centralities, i: nat)
    requires UserLoad.RawUsers(raw) && i < |AlphaCoefs|
    ensures UserLoad.LoadUsers(raw).Ok?
    ensures var users := UserLoad.LoadUsers(raw).value;
            && TrainModel(rs, users, measure).Ok?
            && var x := TrainModel(rs, users, measure).value[i];
            && WellFormed(x)
            && x.columns == UserLoad.AgeNames(raw) + UserLoad.GenderNames(raw) + UserLoad.JobNames(raw) + MetricNames
            && |x.rows| == |raw.rows|
            && (forall k :: 0 <= k < |MetricNames| ==>
                  ColumnNamed(x, MetricNames[k])
                  == Some(Feature(Values(raw, "UID"), Measures(measure(CoRatingGraph(rs, AlphaCoefs[i])))[k])))
            && Encodes(x, "age", UserLoad.AgeBinsOf(raw))
            && Encodes(x, "gender", Values(raw, "gender"))
            && Encodes(x, "job", Values(raw, "job"))
  {
    PipelineTable(raw, rs, measure, i);
    UserLoad.LoadUsersLayout(raw);
    var users := UserLoad.LoadUsers(raw).value;
    var x := TrainModel(rs, users, measure).value[i];
    assert "UID" in users.columns && Values(users, "UID") == Values(raw, "UID") by {
      UserLoad.LoadUsersCells(raw);
    }
    assert x.columns == UserLoad.AgeNames(raw) + UserLoad.GenderNames(raw) + UserLoad.JobNames(raw) + MetricNames by {
      UsersNoMetrics(raw);
      MetricNamesDistinct();
      FeatureColumns(users.columns, x.columns, MetricNames);
      DropHead("UID", UserLoad.AgeNames(raw), UserLoad.GenderNames(raw), UserLoad.JobNames(raw), MetricNames);
    }
    assert Encodes(x, "age", UserLoad.AgeBinsOf(raw)) && Encodes(x, "gender", Values(raw, "gender"))
           && Encodes(x, "job", Values(raw, "job")) by {
      UserLoad.LoadUsersCells(raw);
      FeatureLayout(users, x, UserLoad.AgeBinsOf(raw), Values(raw, "gender"), Values(raw, "job"));
    }
  }

  /** The age, gender and job indicators of a user table laid out as
      `load_data` lays it out, in the feature table built from it. */
  lemma FeatureLayout(users: Table, x: Table, ages: seq<Cell>, genders: seq<Cell>, jobs: seq<Cell>)
    requires WellFormed(users) && WellFormed(x) && |users.columns| > 0 && users.columns[0] == "UID"
    requires forall y :: y in users.columns[1..] && y !in MetricNames ==> ColumnNamed(x, y) == Some(FillNa(Values(users, y)))
    requires Encodes(users, "age", ages) && Encodes(users, "gender", genders) && Encodes(users, "job", jobs)
    ensures Encodes(x, "age", ages) && Encodes(x, "gender", genders) && Encodes(x, "job", jobs)
  {
    FeatureIndicators(users, x, "age", ages);
    FeatureIndicators(users, x, "gender", genders);
    FeatureIndicators(users, x, "job", jobs);
  }

  /** Metric names new to a column list land after it, in order. */
  lemma FeatureColumns(cols: seq<string>, xcols: seq<string>, names: seq<string>)
    requires |cols| > 0 && Distinct(names)
    requires forall y :: y in cols ==> y !in names
    requires xcols == WithNames(cols, names)[1..]
    ensures xcols == cols[1..] + names
  {
    WithNamesFresh(cols, names);
    assert (cols + names)[1..] == cols[1..] + names;
  }

  lemma DropHead<T>(u: T, a: seq<T>, g: seq<T>, j: seq<T>, m: seq<T>)
    ensures ([u] + a + g + j)[1..] + m == a + g + j + m
  {
  }

  /** A user who is not a node of the `i`-th graph gets 0 in all six metric
      columns of the `i`-th feature table. */
  lemma PipelineAbsent(raw: Table, rs: seq<Rating>, measure: Graph -> Centralities, i: nat, r: nat)
    requires UserLoad.RawUsers(raw) && OnNodes(measure) && i < |AlphaCoefs| && r < |raw.rows|
    requires !IsNode(raw.rows[r][0], CoRatingGraph(rs, AlphaCoefs[i]))
    ensures UserLoad.LoadUsers(raw).Ok?
    ensures var users := UserLoad.LoadUsers(raw).value;
            && TrainModel(rs, users, measure).Ok?
            && var x := TrainModel(rs, users, measure).value[i];
            && WellFormed(x) && |x.rows| == |raw.rows|
            && forall k :: 0 <= k < |MetricNames| ==>
                 MetricNames[k] in x.columns && ColumnNamed(x, MetricNames[k]).value[r] == Num(0.0)
  {
    UserLoad.LoadUsersLayout(raw);
    UserLoad.LoadUsersCells(raw);
    var users := UserLoad.LoadUsers(raw).value;
    assert users.columns[0] == "UID";
    ColumnNamedAt(users, 0);
    ColumnNamedAt(raw, 0);
    assert users.rows[r][0] == Column(users, 0)[r] == Column(raw, 0)[r];
    TrainModelAbsent(rs, users, measure, i, r);
  }
}
