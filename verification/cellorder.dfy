/** The order in which label encoding sorts a column's distinct values:
    numbers numerically, strings by Python's code-point lexicographic `<`,
    and NaN after everything else: the encoder sets NaN apart and appends it
    as one last class. A column mixing numbers and strings cannot be sorted
    and is rejected before this order is used; between numbers and strings
    the order below only serves to make `Less` total. */
module CellOrder {
  import opened Tables

  /** Python's `<` on `str`. */
  predicate StrLess(a: string, b: string)
    decreases |a|
  {
    if |a| == 0 then |b| > 0
    else if |b| == 0 then false
    else if a[0] != b[0] then a[0] < b[0]
    else StrLess(a[1..], b[1..])
  }

  lemma {:induction false} StrLessIrreflexive(a: string)
    ensures !StrLess(a, a)
    decreases |a|
  {
    if |a| > 0 {
      StrLessIrreflexive(a[1..]);
    }
  }

  lemma {:induction false} StrLessTransitive(a: string, b: string, c: string)
    requires StrLess(a, b) && StrLess(b, c)
    ensures StrLess(a, c)
    decreases |a|
  {
    if |a| > 0 && a[0] == b[0] && b[0] == c[0] {
      StrLessTransitive(a[1..], b[1..], c[1..]);
    }
  }

  lemma {:induction false} StrLessTotal(a: string, b: string)
    requires a != b
    ensures StrLess(a, b) || StrLess(b, a)
    decreases |a|
  {
    if |a| > 0 && |b| > 0 && a[0] == b[0] {
      assert a == [a[0]] + a[1..] && b == [b[0]] + b[1..];
      StrLessTotal(a[1..], b[1..]);
    }
  }

  function KindRank(c: Cell): nat {
    match c
    case Num(_) => 0
    case Text(_) => 1
    case Missing => 2
  }

  /** A strict total order on cells that agrees with Python's `<` within a kind. */
  predicate Less(a: Cell, b: Cell) {
    if KindRank(a) != KindRank(b) then KindRank(a) < KindRank(b)
    else
      match (a, b)
      case (Num(x), Num(y)) => x < y
      case (Text(x), Text(y)) => StrLess(x, y)
      case _ => false
  }

  lemma LessIrreflexive(a: Cell)
    ensures !Less(a, a)
  {
    if a.Text? {
      StrLessIrreflexive(a.s);
    }
  }

  lemma LessTransitive(a: Cell, b: Cell, c: Cell)
    requires Less(a, b) && Less(b, c)
    ensures Less(a, c)
  {
    if a.Text? && b.Text? && c.Text? {
      StrLessTransitive(a.s, b.s, c.s);
    }
  }

  lemma LessTotal(a: Cell, b: Cell)
    requires a != b
    ensures Less(a, b) || Less(b, a)
  {
    if a.Text? && b.Text? {
      StrLessTotal(a.s, b.s);
    }
  }

  lemma LessAsymmetric(a: Cell, b: Cell)
    requires Less(a, b)
    ensures !Less(b, a)
  {
    if Less(b, a) {
      LessTransitive(a, b, a);
      LessIrreflexive(a);
    }
  }

  /** Values the encoder can sort: no strings, or no numbers. NaN may sit
      among either kind. */
  predicate Orderable(values: seq<Cell>) {
    || (forall i :: 0 <= i < |values| ==> !values[i].Text?)
    || (forall i :: 0 <= i < |values| ==> !values[i].Num?)
  }

  predicate StrictlySorted(s: seq<Cell>) {
    forall i, j :: 0 <= i < j < |s| ==> Less(s[i], s[j])
  }

  lemma SortedIsDistinct(s: seq<Cell>)
    requires StrictlySorted(s)
    ensures Distinct(s)
  {
    forall i, j | 0 <= i < j < |s|
      ensures s[i] != s[j]
    {
      LessIrreflexive(s[i]);
    }
  }

  /** In a strictly sorted sequence, position order is value order. */
  lemma SortedOrder(s: seq<Cell>, i: nat, j: nat)
    requires StrictlySorted(s) && i < |s| && j < |s|
    ensures i < j <==> Less(s[i], s[j])
  {
    if j < i {
      LessAsymmetric(s[j], s[i]);
    } else if i == j {
      LessIrreflexive(s[i]);
    }
  }

  /** Insert `x` into a strictly sorted sequence unless it is already there. */
  function InsertSorted(s: seq<Cell>, x: Cell): (r: seq<Cell>)
    requires StrictlySorted(s)
    ensures StrictlySorted(r)
    ensures forall y :: y in r <==> y in s || y == x
  {
    if |s| == 0 then [x]
    else if x == s[0] then s
    else if Less(x, s[0]) then
      assert forall j :: 0 < j < |s| ==> Less(x, s[j]) by {
        forall j | 0 < j < |s|
          ensures Less(x, s[j])
        {
          LessTransitive(x, s[0], s[j]);
        }
      }
      [x] + s
    else
      LessTotal(x, s[0]);
      var rest := InsertSorted(s[1..], x);
      assert forall y :: y in rest ==> Less(s[0], y);
      [s[0]] + rest
  }

  /** The sorted distinct values of a column: what `LabelEncoder` stores as
      its classes (`np.unique`). */
  function Classes(values: seq<Cell>): (cs: seq<Cell>)
    ensures StrictlySorted(cs)
    ensures forall y :: y in cs <==> y in values
  {
    if |values| == 0 then []
    else
      var init := values[..|values| - 1];
      assert values == init + [values[|values| - 1]];
      InsertSorted(Classes(init), values[|values| - 1])
  }

  /** NaN, when the column holds it, is the last class. */
  lemma NaNLastClass(values: seq<Cell>)
    requires Missing in values
    ensures |Classes(values)| > 0 && Classes(values)[|Classes(values)| - 1] == Missing
  {
    var cs := Classes(values);
    var p :| 0 <= p < |cs| && cs[p] == Missing;
    assert !Less(cs[p], cs[|cs| - 1]);
  }

  /** The number of distinct elements of `s`. */
  function NumDistinct<T(==)>(s: seq<T>): nat {
    |set x | x in s|
  }

  lemma DistinctCard<T>(s: seq<T>)
    requires Distinct(s)
    ensures NumDistinct(s) == |s|
  {
    if |s| > 0 {
      var init := s[..|s| - 1];
      DistinctCard(init);
      assert (set x | x in s) == (set x | x in init) + {s[|s| - 1]};
    }
  }

  /** The number of classes is the number of distinct values in the column. */
  lemma ClassesCount(values: seq<Cell>)
    ensures |Classes(values)| == NumDistinct(values)
  {
    var cs := Classes(values);
    SortedIsDistinct(cs);
    DistinctCard(cs);
    assert (set x | x in cs) == (set x | x in values);
  }
}
