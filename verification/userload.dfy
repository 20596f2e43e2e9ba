/** The user-table half of `load_data`: one-hot encode `job`, then `gender`,
    bin `age` and one-hot encode the bins, then drop `zip`. Reading the two
    files is not modelled; the function starts from the table they give. */
module UserLoad {
  import opened Tables
  import opened CellOrder
  import opened Decimal
  import opened OneHot
  import opened AgeBins

  /** `load_data` after `pd.read_csv`. */
  function LoadUsers(raw: Table): (r: Result<Table>)
    requires WellFormed(raw)
    ensures r.Ok? ==> WellFormed(r.value) && |r.value.rows| == |raw.rows|
  {
    var t1 :- ConvertCategorical(raw, "job");
    var t2 :- ConvertCategorical(t1, "gender");
    var t3 :- BinAges(t2);
    var t4 :- ConvertCategorical(t3, "age");
    DropColumn(t4, "zip")
  }

  /** A user file with no rows stops at the first encoding: `OneHotEncoder`
      rejects 0 samples. */
  lemma LoadUsersEmpty(raw: Table)
    requires WellFormed(raw) && "job" in raw.columns && |raw.rows| == 0
    ensures LoadUsers(raw) == Err(EmptyColumn("job"))
  {
    var c := IndexOf(raw.columns, "job").value;
    assert Orderable(Column(raw, c));
  }

  /** The user file as read: `UID, age, gender, job, zip`, at least one row,
      genders and jobs the encoder can sort, and no string among the ages. */
  predicate RawUsers(raw: Table) {
    && WellFormed(raw)
    && raw.columns == ["UID", "age", "gender", "job", "zip"]
    && |raw.rows| > 0
    && Orderable(Values(raw, "gender")) && Orderable(Values(raw, "job"))
    && forall i :: 0 <= i < |raw.rows| ==> !raw.rows[i][1].Text?
  }

  // ---------------------------------------------------------------------
  // Helpers about the column names involved.
  // ---------------------------------------------------------------------

  lemma NumberedNotIn(name: string, k: nat, cols: seq<string>)
    requires |name| > 0
    requires forall x :: x in cols ==> x == name || (|x| > 0 && x[0] != name[0])
    ensures name + Dec(k) !in cols
  {
    var y := name + Dec(k);
    assert y[0] == name[0] && |y| > |name|;
  }

  lemma NamesFreeBy(name: string, n: nat, cols: seq<string>)
    requires |name| > 0
    requires forall x :: x in cols ==> x == name || (|x| > 0 && x[0] != name[0])
    ensures NamesFree(cols, name, 0, n)
  {
    forall k | 0 < k <= n
      ensures name + Dec(k) !in cols
    {
      NumberedNotIn(name, k, cols);
    }
  }

  lemma IndicatorNamesStart(name: string, n: nat)
    requires |name| > 0
    ensures forall x :: x in IndicatorNames(name, n) ==> |x| > 0 && x[0] == name[0]
  {
    forall x | x in IndicatorNames(name, n)
      ensures |x| > 0 && x[0] == name[0]
    {
      var j :| 0 <= j < n && IndicatorNames(name, n)[j] == x;
    }
  }

  lemma RemoveMiddle<T>(a: seq<T>, x: T, b: seq<T>)
    ensures RemoveAt(a + [x] + b, |a|) == a + b
  {
    assert (a + [x] + b)[..|a|] == a;
    assert (a + [x] + b)[|a| + 1..] == b;
  }

  /** Removing the column after `[u] + mid` and inserting `names` right
      after `u` gives `[u] + names + mid + tail`. */
  lemma Reinsert<T>(u: T, mid: seq<T>, x: T, tail: seq<T>, names: seq<T>)
    ensures var rest := RemoveAt([u] + mid + [x] + tail, 1 + |mid|);
            |rest| >= 1 && [rest[0]] + names + rest[1..] == [u] + names + mid + tail
  {
    var rest := RemoveAt([u] + mid + [x] + tail, 1 + |mid|);
    RemoveMiddle([u] + mid, x, tail);
    assert rest == [u] + (mid + tail);
    assert rest[1..] == mid + tail;
  }

  /** The column lists of the steps, in terms of arbitrary names. */
  lemma ReinsertJob<T>(u: T, a: T, g: T, j: T, z: T, names: seq<T>)
    ensures var rest := RemoveAt([u, a, g, j, z], 3);
            |rest| >= 1 && [rest[0]] + names + rest[1..] == [u] + names + [a, g, z]
  {
    Reinsert(u, [a, g], j, [z], names);
    assert [u, a, g, j, z] == [u] + [a, g] + [j] + [z];
  }

  lemma ReinsertGender<T>(u: T, jn: seq<T>, a: T, g: T, z: T, names: seq<T>)
    ensures var rest := RemoveAt([u] + jn + [a, g, z], |jn| + 2);
            |rest| >= 1 && [rest[0]] + names + rest[1..] == [u] + names + jn + [a, z]
  {
    Reinsert(u, jn + [a], g, [z], names);
    assert [u] + jn + [a, g, z] == [u] + (jn + [a]) + [g] + [z];
    assert [u] + names + (jn + [a]) + [z] == [u] + names + jn + [a, z];
  }

  lemma ReinsertAge<T>(u: T, gn: seq<T>, jn: seq<T>, a: T, z: T, names: seq<T>)
    ensures var rest := RemoveAt([u] + gn + jn + [a, z], 1 + |gn| + |jn|);
            |rest| >= 1 && [rest[0]] + names + rest[1..] == [u] + names + gn + jn + [z]
  {
    Reinsert(u, gn + jn, a, [z], names);
    assert [u] + gn + jn + [a, z] == [u] + (gn + jn) + [a] + [z];
    assert [u] + names + (gn + jn) + [z] == [u] + names + gn + jn + [z];
  }

  /** The column list after encoding the column at `c`. */
  lemma ShapeAt(t: Table, name: string, c: nat)
    requires WellFormed(t) && ConvertCategorical(t, name).Ok?
    requires IndexOf(t.columns, name) == Some(c)
    ensures var rest := RemoveAt(t.columns, c);
            var names := IndicatorNames(name, NumDistinct(Values(t, name)));
            |rest| >= 1 && ConvertCategorical(t, name).value.columns == [rest[0]] + names + rest[1..]
  {
    ConvertCategoricalShape(t, name);
  }

  /** Dropping the last column. */
  lemma DropLast(t: Table, init: seq<string>, z: string)
    requires WellFormed(t) && t.columns == init + [z]
    ensures DropColumn(t, z).Ok? && DropColumn(t, z).value.columns == init
  {
    IndexOfDistinct(t.columns, |init|);
    RemoveMiddle(init, z, []);
    assert init + [z] + [] == t.columns;
  }

  // ---------------------------------------------------------------------
  // The layout, one step at a time.
  // ---------------------------------------------------------------------

  /** The indicator names each encoding adds: one per distinct value. */
  function JobNames(raw: Table): (ns: seq<string>)
    requires RawUsers(raw)
    ensures ns == IndicatorNames("job", |ns|)
  {
    IndexOfDistinct(raw.columns, 3);
    IndicatorNames("job", NumDistinct(Values(raw, "job")))
  }

  function GenderNames(raw: Table): (ns: seq<string>)
    requires RawUsers(raw)
    ensures ns == IndicatorNames("gender", |ns|)
  {
    IndexOfDistinct(raw.columns, 2);
    IndicatorNames("gender", NumDistinct(Values(raw, "gender")))
  }

  /** The age indicators count the distinct bins, not the distinct ages. */
  function AgeNames(raw: Table): (ns: seq<string>)
    requires RawUsers(raw)
    ensures ns == IndicatorNames("age", |ns|)
  {
    BinsNotNumbers(raw);
    IndicatorNames("age", NumDistinct(BinCells(Values(raw, "age")).value))
  }

  lemma JobEncodable(raw: Table)
    requires RawUsers(raw)
    ensures ConvertCategorical(raw, "job").Ok?
  {
    NamesFreeBy("job", |Classes(Values(raw, "job"))|, raw.columns);
    ConvertCategoricalSpec(raw, "job");
  }

  lemma JobColumns(raw: Table)
    requires RawUsers(raw) && ConvertCategorical(raw, "job").Ok?
    ensures ConvertCategorical(raw, "job").value.columns == ["UID"] + JobNames(raw) + ["age", "gender", "zip"]
  {
    IndexOfDistinct(raw.columns, 3);
    ConvertCategoricalShape(raw, "job");
    ReinsertJob("UID", "age", "gender", "job", "zip", JobNames(raw));
  }

  /** The table after `job` is encoded. */
  predicate AfterJob(raw: Table, t1: Table, jn: seq<string>) {
    && RawUsers(raw) && WellFormed(t1)
    && jn == IndicatorNames("job", |jn|)
    && t1.columns == ["UID"] + jn + ["age", "gender", "zip"]
    && ColumnNamed(t1, "age") == ColumnNamed(raw, "age")
    && ColumnNamed(t1, "gender") == ColumnNamed(raw, "gender")
  }

  /** Step 1: `job` becomes `job1..jobJ` right after `UID`. */
  lemma StepJob(raw: Table)
    requires RawUsers(raw)
    ensures ConvertCategorical(raw, "job").Ok?
    ensures AfterJob(raw, ConvertCategorical(raw, "job").value, JobNames(raw))
  {
    JobEncodable(raw);
    JobColumns(raw);
    ConvertKeepsOthers(raw, "job", "age");
    ConvertKeepsOthers(raw, "job", "gender");
  }

  lemma GenderAt(t1: Table, jn: seq<string>)
    requires WellFormed(t1)
    requires t1.columns == ["UID"] + jn + ["age", "gender", "zip"]
    ensures IndexOf(t1.columns, "gender") == Some(|jn| + 2)
  {
    assert t1.columns[|jn| + 2] == "gender";
    IndexOfDistinct(t1.columns, |jn| + 2);
  }

  lemma GenderEncodable(raw: Table, t1: Table, jn: seq<string>)
    requires AfterJob(raw, t1, jn)
    ensures ConvertCategorical(t1, "gender").Ok?
  {
    GenderNamesFree(t1.columns, jn, |Classes(Values(t1, "gender"))|);
    ConvertCategoricalSpec(t1, "gender");
  }

  lemma GenderNamesFree(cols: seq<string>, jn: seq<string>, n: nat)
    requires jn == IndicatorNames("job", |jn|)
    requires cols == ["UID"] + jn + ["age", "gender", "zip"]
    ensures NamesFree(cols, "gender", 0, n)
  {
    IndicatorNamesStart("job", |jn|);
    NamesFreeBy("gender", n, cols);
  }

  lemma GenderShape(raw: Table, t1: Table, jn: seq<string>)
    requires AfterJob(raw, t1, jn) && ConvertCategorical(t1, "gender").Ok?
    ensures var rest := RemoveAt(t1.columns, |jn| + 2);
            |rest| >= 1 && ConvertCategorical(t1, "gender").value.columns == [rest[0]] + GenderNames(raw) + rest[1..]
  {
    GenderAt(t1, jn);
    IndexOfDistinct(raw.columns, 2);
    assert Values(t1, "gender") == Values(raw, "gender");
    ConvertCategoricalShape(t1, "gender");
  }

  lemma GenderColumns(raw: Table, t1: Table, jn: seq<string>)
    requires AfterJob(raw, t1, jn) && ConvertCategorical(t1, "gender").Ok?
    ensures ConvertCategorical(t1, "gender").value.columns == ["UID"] + GenderNames(raw) + jn + ["age", "zip"]
  {
    GenderShape(raw, t1, jn);
    ReinsertGender("UID", jn, "age", "gender", "zip", GenderNames(raw));
  }

  /** The table after `gender` is encoded. */
  predicate AfterGender(raw: Table, t2: Table, gn: seq<string>, jn: seq<string>) {
    && RawUsers(raw) && WellFormed(t2)
    && gn == IndicatorNames("gender", |gn|) && jn == IndicatorNames("job", |jn|)
    && t2.columns == ["UID"] + gn + jn + ["age", "zip"]
    && ColumnNamed(t2, "age") == ColumnNamed(raw, "age")
    && |t2.rows| == |raw.rows|
  }

  /** Step 2: `gender` becomes `gender1..genderG`, again right after `UID`. */
  lemma StepGender(raw: Table, t1: Table, jn: seq<string>)
    requires AfterJob(raw, t1, jn) && |t1.rows| == |raw.rows|
    ensures ConvertCategorical(t1, "gender").Ok?
    ensures AfterGender(raw, ConvertCategorical(t1, "gender").value, GenderNames(raw), jn)
  {
    GenderEncodable(raw, t1, jn);
    GenderColumns(raw, t1, jn);
    ConvertKeepsOthers(t1, "gender", "age");
  }

  lemma AgesNumeric(raw: Table)
    requires RawUsers(raw)
    ensures "age" in raw.columns
    ensures forall i :: 0 <= i < |raw.rows| ==> !Values(raw, "age")[i].Text?
  {
    IndexOfDistinct(raw.columns, 1);
  }

  /** Binning the ages succeeds, and every bin is a label or NaN. */
  lemma BinsNotNumbers(raw: Table)
    requires RawUsers(raw)
    ensures "age" in raw.columns
    ensures BinCells(Values(raw, "age")).Ok?
    ensures forall i :: 0 <= i < |raw.rows| ==> !BinCells(Values(raw, "age")).value[i].Num?
  {
    AgesNumeric(raw);
    var ages := Values(raw, "age");
    var bins := BinCells(ages).value;
    forall i | 0 <= i < |raw.rows|
      ensures !bins[i].Num?
    {
      assert BinCell(ages[i]) == Ok(bins[i]);
    }
  }

  /** The table after the ages are binned: the bins sit where `age` was and
      are labels or NaN, never numbers. */
  predicate AfterBins(t3: Table, gn: seq<string>, jn: seq<string>) {
    && WellFormed(t3) && |t3.rows| > 0
    && gn == IndicatorNames("gender", |gn|) && jn == IndicatorNames("job", |jn|)
    && t3.columns == ["UID"] + gn + jn + ["age", "zip"]
    && "age" in t3.columns
    && forall i :: 0 <= i < |t3.rows| ==> !Values(t3, "age")[i].Num?
  }

  /** Step 3: the ages are replaced by their bin labels in place. */
  lemma StepBins(raw: Table, t2: Table, gn: seq<string>, jn: seq<string>)
    requires AfterGender(raw, t2, gn, jn)
    ensures BinAges(t2).Ok?
    ensures AfterBins(BinAges(t2).value, gn, jn)
    ensures "age" in raw.columns && BinCells(Values(raw, "age")).Ok?
    ensures Values(BinAges(t2).value, "age") == BinCells(Values(raw, "age")).value
  {
    BinsNotNumbers(raw);
    BinFree(gn, jn);
    BinAgesSpec(t2);
  }

  /** `bin` is none of the columns after the gender step. */
  lemma BinFree(gn: seq<string>, jn: seq<string>)
    requires gn == IndicatorNames("gender", |gn|) && jn == IndicatorNames("job", |jn|)
    ensures "bin" !in ["UID"] + gn + jn + ["age", "zip"]
  {
    IndicatorNamesStart("gender", |gn|);
    IndicatorNamesStart("job", |jn|);
  }

  lemma AgeEncodable(t3: Table, gn: seq<string>, jn: seq<string>)
    requires AfterBins(t3, gn, jn)
    ensures ConvertCategorical(t3, "age").Ok?
  {
    assert Orderable(Values(t3, "age"));
    AgeNamesFree(t3.columns, gn, jn, |Classes(Values(t3, "age"))|);
    ConvertCategoricalSpec(t3, "age");
  }

  lemma AgeNamesFree(cols: seq<string>, gn: seq<string>, jn: seq<string>, n: nat)
    requires gn == IndicatorNames("gender", |gn|) && jn == IndicatorNames("job", |jn|)
    requires cols == ["UID"] + gn + jn + ["age", "zip"]
    ensures NamesFree(cols, "age", 0, n)
  {
    IndicatorNamesStart("gender", |gn|);
    IndicatorNamesStart("job", |jn|);
    NamesFreeBy("age", n, cols);
  }

  /** Encoding the column after `[u] + gn + jn` puts its indicators right
      after `u`. */
  lemma AgeColumns(t3: Table, u: string, gn: seq<string>, jn: seq<string>, name: string, z: string, an: seq<string>)
    requires WellFormed(t3) && ConvertCategorical(t3, name).Ok?
    requires t3.columns == [u] + gn + jn + [name, z]
    requires an == IndicatorNames(name, NumDistinct(Values(t3, name)))
    ensures ConvertCategorical(t3, name).value.columns == [u] + an + gn + jn + [z]
  {
    var c := 1 + |gn| + |jn|;
    assert t3.columns[c] == name;
    IndexOfDistinct(t3.columns, c);
    var rest := RemoveAt(t3.columns, c);
    ShapeAt(t3, name, c);
    assert ConvertCategorical(t3, name).value.columns == [rest[0]] + an + rest[1..];
    ReinsertAge(u, gn, jn, name, z, an);
  }

  /** Step 4: the bins become `age1..ageA` right after `UID`. */
  lemma StepAge(t3: Table, gn: seq<string>, jn: seq<string>)
    requires AfterBins(t3, gn, jn)
    ensures ConvertCategorical(t3, "age").Ok?
    ensures ConvertCategorical(t3, "age").value.columns
            == ["UID"] + IndicatorNames("age", NumDistinct(Values(t3, "age"))) + gn + jn + ["zip"]
  {
    AgeEncodable(t3, gn, jn);
    AgeColumns(t3, "UID", gn, jn, "age", "zip", IndicatorNames("age", NumDistinct(Values(t3, "age"))));
  }

  /** `load_data` as the chain of its steps, each of which succeeds. */
  lemma LoadUsersUnfold(raw: Table, t1: Table, t2: Table, t3: Table, t4: Table)
    requires WellFormed(raw)
    requires ConvertCategorical(raw, "job") == Ok(t1)
    requires ConvertCategorical(t1, "gender") == Ok(t2)
    requires BinAges(t2) == Ok(t3)
    requires ConvertCategorical(t3, "age") == Ok(t4)
    ensures LoadUsers(raw) == DropColumn(t4, "zip")
  {
  }

  /** The encoded user table: `UID`, then the age, gender and job indicators
      in that order (each call inserts right after `UID`), as many of each as
      there are distinct values; `zip` is gone and no row is lost. */
  lemma LoadUsersLayout(raw: Table)
    requires RawUsers(raw)
    ensures LoadUsers(raw).Ok?
    ensures LoadUsers(raw).value.columns == ["UID"] + AgeNames(raw) + GenderNames(raw) + JobNames(raw)
    ensures |LoadUsers(raw).value.rows| == |raw.rows|
  {
    StepJob(raw);
    var t1 := ConvertCategorical(raw, "job").value;
    var jn := JobNames(raw);
    StepGender(raw, t1, jn);
    var t2 := ConvertCategorical(t1, "gender").value;
    var gn := GenderNames(raw);
    StepBins(raw, t2, gn, jn);
    var t3 := BinAges(t2).value;
    StepAge(t3, gn, jn);
    var t4 := ConvertCategorical(t3, "age").value;
    DropLast(t4, ["UID"] + AgeNames(raw) + gn + jn, "zip");
    LoadUsersUnfold(raw, t1, t2, t3, t4);
  }

  // ---------------------------------------------------------------------
  // The cells: what each indicator column of the loaded table holds.
  // ---------------------------------------------------------------------

  /** The binned ages of the user file. */
  function AgeBinsOf(raw: Table): (bins: seq<Cell>)
    requires RawUsers(raw)
    ensures |bins| == |raw.rows|
    ensures forall i :: 0 <= i < |raw.rows| ==> BinCell(Values(raw, "age")[i]) == Ok(bins[i])
  {
    BinsNotNumbers(raw);
    BinCells(Values(raw, "age")).value
  }

  /** The intermediate tables of `load_data`, with what each step gives. */
  lemma Stages(raw: Table) returns (t1: Table, t2: Table, t3: Table, t4: Table)
    requires RawUsers(raw)
    ensures ConvertCategorical(raw, "job") == Ok(t1) && AfterJob(raw, t1, JobNames(raw))
    ensures ConvertCategorical(t1, "gender") == Ok(t2) && AfterGender(raw, t2, GenderNames(raw), JobNames(raw))
    ensures "bin" !in t2.columns
    ensures BinAges(t2) == Ok(t3) && AfterBins(t3, GenderNames(raw), JobNames(raw))
    ensures Values(t3, "age") == AgeBinsOf(raw)
    ensures ConvertCategorical(t3, "age") == Ok(t4)
    ensures t4.columns == ["UID"] + AgeNames(raw) + GenderNames(raw) + JobNames(raw) + ["zip"]
    ensures LoadUsers(raw) == DropColumn(t4, "zip")
  {
    StepJob(raw);
    t1 := ConvertCategorical(raw, "job").value;
    var jn := JobNames(raw);
    StepGender(raw, t1, jn);
    t2 := ConvertCategorical(t1, "gender").value;
    var gn := GenderNames(raw);
    IndicatorNamesStart("gender", |gn|);
    IndicatorNamesStart("job", |jn|);
    StepBins(raw, t2, gn, jn);
    t3 := BinAges(t2).value;
    StepAge(t3, gn, jn);
    t4 := ConvertCategorical(t3, "age").value;
    LoadUsersUnfold(raw, t1, t2, t3, t4);
  }

  /** Binning the ages leaves the indicators of a column whose name starts
      with neither `a` nor `b`. */
  lemma EncodesAfterBins(t: Table, other: string, values: seq<Cell>)
    requires WellFormed(t) && BinAges(t).Ok? && "bin" !in t.columns
    requires Encodes(t, other, values)
    requires |other| > 0 && other[0] != 'a' && other[0] != 'b'
    ensures Encodes(BinAges(t).value, other, values)
  {
    var ns := IndicatorNames(other, |Classes(values)|);
    BinAgesSpec(t);
    forall j | 0 <= j < |Classes(values)|
      ensures ColumnNamed(BinAges(t).value, ns[j]) == Some(OneHotOf(values, j))
    {
      assert ns[j][0] == other[0];
    }
  }

  /** Dropping a column leaves the indicators of a column whose name starts
      with another letter. */
  lemma EncodesAfterDrop(t: Table, z: string, other: string, values: seq<Cell>)
    requires WellFormed(t) && z in t.columns
    requires Encodes(t, other, values)
    requires |z| > 0 && |other| > 0 && other[0] != z[0]
    ensures Encodes(DropColumn(t, z).value, other, values)
  {
    var ns := IndicatorNames(other, |Classes(values)|);
    forall j | 0 <= j < |Classes(values)|
      ensures ColumnNamed(DropColumn(t, z).value, ns[j]) == Some(OneHotOf(values, j))
    {
      assert ns[j][0] == other[0];
    }
  }

  lemma LoadedJobs(raw: Table)
    requires RawUsers(raw)
    ensures LoadUsers(raw).Ok? && Encodes(LoadUsers(raw).value, "job", Values(raw, "job"))
  {
    var t1, t2, t3, t4 := Stages(raw);
    ConvertEncodes(raw, "job");
    EncodesAfterConvert(t1, "gender", "job", Values(raw, "job"));
    EncodesAfterBins(t2, "job", Values(raw, "job"));
    EncodesAfterConvert(t3, "age", "job", Values(raw, "job"));
    EncodesAfterDrop(t4, "zip", "job", Values(raw, "job"));
  }

  lemma LoadedGenders(raw: Table)
    requires RawUsers(raw)
    ensures LoadUsers(raw).Ok? && Encodes(LoadUsers(raw).value, "gender", Values(raw, "gender"))
  {
    var t1, t2, t3, t4 := Stages(raw);
    assert Values(t1, "gender") == Values(raw, "gender");
    ConvertEncodes(t1, "gender");
    EncodesAfterBins(t2, "gender", Values(raw, "gender"));
    EncodesAfterConvert(t3, "age", "gender", Values(raw, "gender"));
    EncodesAfterDrop(t4, "zip", "gender", Values(raw, "gender"));
  }

  lemma LoadedAges(raw: Table)
    requires RawUsers(raw)
    ensures LoadUsers(raw).Ok? && Encodes(LoadUsers(raw).value, "age", AgeBinsOf(raw))
  {
    var t1, t2, t3, t4 := Stages(raw);
    ConvertEncodes(t3, "age");
    EncodesAfterDrop(t4, "zip", "age", AgeBinsOf(raw));
  }

  lemma LoadedIds(raw: Table)
    requires RawUsers(raw)
    ensures LoadUsers(raw).Ok? && ColumnNamed(LoadUsers(raw).value, "UID") == ColumnNamed(raw, "UID")
  {
    var t1, t2, t3, t4 := Stages(raw);
    ConvertKeepsOthers(raw, "job", "UID");
    ConvertKeepsOthers(t1, "gender", "UID");
    BinAgesSpec(t2);
    ConvertKeepsOthers(t3, "age", "UID");
  }

  /** The cells of the encoded user table: `UID` is the file's column, and
      each indicator column `jobK`, `genderK`, `ageK` is 1 exactly on the
      users whose job, gender or age bin is the K-th smallest of the file. */
  lemma LoadUsersCells(raw: Table)
    requires RawUsers(raw)
    ensures LoadUsers(raw).Ok?
    ensures var users := LoadUsers(raw).value;
            && ColumnNamed(users, "UID") == ColumnNamed(raw, "UID")
            && Encodes(users, "job", Values(raw, "job"))
            && Encodes(users, "gender", Values(raw, "gender"))
            && Encodes(users, "age", AgeBinsOf(raw))
  {
    LoadedIds(raw);
    LoadedJobs(raw);
    LoadedGenders(raw);
    LoadedAges(raw);
  }
}
