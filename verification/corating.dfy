/** The co-rating pairs of `train_model`: the ratings are grouped by
    `(MID, rate)`, every 2-combination of the users of a group is listed in
    row order, and the ordered pairs are counted (`collections.Counter`). */
module CoRating {
  import opened Tables

  /** One row of the ratings table; the timestamp plays no part. */
  datatype Rating = Rating(uid: int, mid: int, rate: int)

  /** An ordered pair of users, as the tuples `itertools.combinations` yields. */
  type Pair = (int, int)

  /** The group key `(MID, rate)`. */
  function KeyOf(r: Rating): (int, int) {
    (r.mid, r.rate)
  }

  /** Each user rated each item at most once. */
  predicate UniqueUserItem(rs: seq<Rating>) {
    forall i, j :: 0 <= i < j < |rs| ==> (rs[i].uid, rs[i].mid) != (rs[j].uid, rs[j].mid)
  }

  /** `group['UID']`: the users of the rows with key `k`, in row order. */
  function Group(rs: seq<Rating>, k: (int, int)): (g: seq<int>)
    ensures forall u :: u in g <==> Rating(u, k.0, k.1) in rs
  {
    if |rs| == 0 then []
    else
      var init := Group(rs[..|rs| - 1], k);
      var last := rs[|rs| - 1];
      assert rs == rs[..|rs| - 1] + [last];
      if KeyOf(last) == k then init + [last.uid] else init
  }

  /** Row `i` of `rs`, before row `j`, is user `a`'s rating `k` and row `j`
      is user `b`'s. */
  predicate RowsPrecede(rs: seq<Rating>, k: (int, int), a: int, b: int) {
    exists i, j :: 0 <= i < j < |rs| && rs[i] == Rating(a, k.0, k.1) && rs[j] == Rating(b, k.0, k.1)
  }

  /** The group lists its users in row order: `a` comes before `b` in it
      exactly when a row of `a` with that key comes before a row of `b`. */
  lemma {:induction false} GroupOrder(rs: seq<Rating>, k: (int, int), a: int, b: int)
    ensures Precedes(Group(rs, k), a, b) <==> RowsPrecede(rs, k, a, b)
  {
    if |rs| > 0 {
      var init, last := rs[..|rs| - 1], rs[|rs| - 1];
      assert rs == init + [last];
      GroupOrder(init, k, a, b);
      RowsPrecedeSnoc(init, last, k, a, b);
      if KeyOf(last) == k {
        PrecedesSnoc(Group(init, k), last.uid, a, b);
      }
    }
  }

  lemma PrecedesSnoc(g: seq<int>, x: int, a: int, b: int)
    ensures Precedes(g + [x], a, b) <==> Precedes(g, a, b) || (a in g && b == x)
  {
    var h := g + [x];
    if Precedes(h, a, b) {
      var i, j :| 0 <= i < j < |h| && h[i] == a && h[j] == b;
      if j < |g| {
        assert g[i] == a && g[j] == b;
      } else {
        assert g[i] == a;
      }
    }
    if Precedes(g, a, b) {
      var i, j :| 0 <= i < j < |g| && g[i] == a && g[j] == b;
      assert h[i] == a && h[j] == b;
    }
    if a in g && b == x {
      var i :| 0 <= i < |g| && g[i] == a;
      assert h[i] == a && h[|g|] == b;
    }
  }

  lemma RowsPrecedeSnoc(rs: seq<Rating>, r: Rating, k: (int, int), a: int, b: int)
    ensures RowsPrecede(rs + [r], k, a, b)
            <==> RowsPrecede(rs, k, a, b) || (Rating(a, k.0, k.1) in rs && r == Rating(b, k.0, k.1))
  {
    var h := rs + [r];
    if RowsPrecede(h, k, a, b) {
      var i, j :| 0 <= i < j < |h| && h[i] == Rating(a, k.0, k.1) && h[j] == Rating(b, k.0, k.1);
      if j < |rs| {
        assert rs[i] == h[i] && rs[j] == h[j];
      } else {
        assert rs[i] == h[i];
      }
    }
    if RowsPrecede(rs, k, a, b) {
      var i, j :| 0 <= i < j < |rs| && rs[i] == Rating(a, k.0, k.1) && rs[j] == Rating(b, k.0, k.1);
      assert h[i] == rs[i] && h[j] == rs[j];
    }
    if Rating(a, k.0, k.1) in rs && r == Rating(b, k.0, k.1) {
      var i :| 0 <= i < |rs| && rs[i] == Rating(a, k.0, k.1);
      assert h[i] == rs[i] && h[|rs|] == r;
    }
  }

  /** Within one key, rows with distinct (user, item) have distinct users. */
  lemma {:induction false} GroupDistinct(rs: seq<Rating>, k: (int, int))
    requires UniqueUserItem(rs)
    ensures Distinct(Group(rs, k))
  {
    if |rs| > 0 {
      var init := rs[..|rs| - 1];
      var last := rs[|rs| - 1];
      assert UniqueUserItem(init);
      GroupDistinct(init, k);
    }
  }

  /** The distinct elements of `s` in order of first appearance. */
  function Dedup<T(==,!new)>(s: seq<T>): (r: seq<T>)
    ensures Distinct(r)
    ensures forall x :: x in r <==> x in s
  {
    if |s| == 0 then []
    else
      var d := Dedup(s[..|s| - 1]);
      var last := s[|s| - 1];
      assert s == s[..|s| - 1] + [last];
      if last in d then d else d + [last]
  }

  function Keys(rs: seq<Rating>): (ks: seq<(int, int)>)
    ensures |ks| == |rs|
    ensures forall i :: 0 <= i < |rs| ==> ks[i] == KeyOf(rs[i])
  {
    seq(|rs|, i requires 0 <= i < |rs| => KeyOf(rs[i]))
  }

  /** The keys of `df.groupby(['MID', 'rate'])`, each once. */
  function GroupKeys(rs: seq<Rating>): (ks: seq<(int, int)>)
    ensures Distinct(ks)
    ensures forall k :: k in ks <==> k in Keys(rs)
  {
    Dedup(Keys(rs))
  }

  /** The pairs `(a, x)` for every `x` of `rest`, in order. */
  function PairsWith(a: int, rest: seq<int>): (ps: seq<Pair>)
    ensures |ps| == |rest|
    ensures forall k :: 0 <= k < |rest| ==> ps[k] == (a, rest[k])
  {
    seq(|rest|, k requires 0 <= k < |rest| => (a, rest[k]))
  }

  /** `itertools.combinations(g, 2)`: the pairs of positions `i < j`, in
      lexicographic order of positions. */
  function Combinations(g: seq<int>): (ps: seq<Pair>)
    ensures forall p :: p in ps <==> exists i, j :: 0 <= i < j < |g| && p == (g[i], g[j])
  {
    if |g| == 0 then []
    else
      var rest := Combinations(g[1..]);
      assert forall i, j :: 0 < i < j < |g| ==> g[i] == g[1..][i - 1] && g[j] == g[1..][j - 1];
      PairsWith(g[0], g[1..]) + rest
  }

  /** There are `n (n - 1) / 2` combinations of `n` users. */
  lemma {:induction false} CombinationsCount(g: seq<int>)
    ensures 2 * |Combinations(g)| == |g| * (|g| - 1)
  {
    if |g| > 0 {
      CombinationsCount(g[1..]);
    }
  }

  /** `a` comes before `b` in the group. */
  predicate Precedes(g: seq<int>, a: int, b: int) {
    exists i, j :: 0 <= i < j < |g| && g[i] == a && g[j] == b
  }

  lemma CombinationsPrecedes(g: seq<int>, a: int, b: int)
    ensures (a, b) in Combinations(g) <==> Precedes(g, a, b)
  {
  }

  /** In a group without repeated users, each ordered pair is listed at most
      once: once when its first user comes first, never otherwise. */
  lemma {:induction false} CombinationsOnce(g: seq<int>, a: int, b: int)
    requires Distinct(g)
    ensures multiset(Combinations(g))[(a, b)] == if Precedes(g, a, b) then 1 else 0
  {
    if |g| > 0 {
      var tail := g[1..];
      assert Distinct(tail);
      CombinationsOnce(tail, a, b);
      var head := PairsWith(g[0], tail);
      assert Combinations(g) == head + Combinations(tail);
      WithOnce(g[0], tail, a, b);
      PrecedesSplit(g, a, b);
    }
  }

  lemma {:induction false} WithOnce(x: int, rest: seq<int>, a: int, b: int)
    requires Distinct(rest)
    ensures multiset(PairsWith(x, rest))[(a, b)] == if a == x && b in rest then 1 else 0
  {
    if |rest| > 0 {
      var init := rest[..|rest| - 1];
      assert Distinct(init);
      WithOnce(x, init, a, b);
      assert PairsWith(x, rest) == PairsWith(x, init) + [(x, rest[|rest| - 1])];
      assert rest == init + [rest[|rest| - 1]];
    }
  }

  /** `a` precedes `b` either from the head or within the tail, never both. */
  lemma PrecedesSplit(g: seq<int>, a: int, b: int)
    requires Distinct(g) && |g| > 0
    ensures Precedes(g, a, b) <==> (a == g[0] && b in g[1..]) || Precedes(g[1..], a, b)
    ensures !(a == g[0] && Precedes(g[1..], a, b))
  {
    var tail := g[1..];
    if Precedes(g, a, b) {
      var i, j :| 0 <= i < j < |g| && g[i] == a && g[j] == b;
      if i > 0 {
        assert tail[i - 1] == a && tail[j - 1] == b;
      } else {
        assert b == tail[j - 1];
      }
    }
    if a == g[0] && b in tail {
      var j :| 0 <= j < |tail| && tail[j] == b;
      assert g[j + 1] == b;
    }
    if Precedes(tail, a, b) {
      var i, j :| 0 <= i < j < |tail| && tail[i] == a && tail[j] == b;
      assert g[i + 1] == a && g[j + 1] == b;
    }
  }

  /** `pairs.extend(...)` over the groups with keys `ks`, in that order. */
  function PairsOf(rs: seq<Rating>, ks: seq<(int, int)>): (ps: seq<Pair>)
  {
    if |ks| == 0 then [] else Combinations(Group(rs, ks[0])) + PairsOf(rs, ks[1..])
  }

  /** The pairs of `train_model`, groups taken in order of first appearance. */
  function CoRatedPairs(rs: seq<Rating>): seq<Pair> {
    PairsOf(rs, GroupKeys(rs))
  }

  /** `Counter(pairs)`: how often each pair occurs. */
  function Tally(ps: seq<Pair>): (c: map<Pair, nat>)
    ensures forall p :: p in c <==> p in ps
    ensures forall p :: p in c ==> c[p] == multiset(ps)[p]
  {
    if |ps| == 0 then map[]
    else
      var init := ps[..|ps| - 1];
      var last := ps[|ps| - 1];
      assert ps == init + [last];
      var c := Tally(init);
      c[last := (if last in c then c[last] else 0) + 1]
  }

  /** `counter[p]`: zero for a pair never seen. */
  function Count(c: map<Pair, nat>, p: Pair): nat {
    if p in c then c[p] else 0
  }

  lemma CountIsMultiplicity(ps: seq<Pair>, p: Pair)
    ensures Count(Tally(ps), p) == multiset(ps)[p]
  {
  }

  /** The keys of `ks` whose group has `a` before `b`; with `ks` the keys
      of all rows, the `(MID, rate)` groups in which `a` comes before `b`. */
  function PrecedingKeys(rs: seq<Rating>, ks: seq<(int, int)>, a: int, b: int): set<(int, int)> {
    set k | k in ks && Precedes(Group(rs, k), a, b)
  }

  lemma {:induction false} PairsOfCount(rs: seq<Rating>, ks: seq<(int, int)>, a: int, b: int)
    requires UniqueUserItem(rs) && Distinct(ks)
    ensures multiset(PairsOf(rs, ks))[(a, b)] == |PrecedingKeys(rs, ks, a, b)|
  {
    if |ks| > 0 {
      var tail := ks[1..];
      assert Distinct(tail);
      PairsOfCount(rs, tail, a, b);
      GroupDistinct(rs, ks[0]);
      CombinationsOnce(Group(rs, ks[0]), a, b);
      PrecedingKeysCons(rs, ks, a, b);
    }
  }

  /** Peeling the first key off adds one preceding key exactly when its
      group has `a` before `b`. */
  lemma PrecedingKeysCons(rs: seq<Rating>, ks: seq<(int, int)>, a: int, b: int)
    requires Distinct(ks) && |ks| > 0
    ensures |PrecedingKeys(rs, ks, a, b)|
            == |PrecedingKeys(rs, ks[1..], a, b)| + (if Precedes(Group(rs, ks[0]), a, b) then 1 else 0)
  {
    var tail := ks[1..];
    assert ks == [ks[0]] + tail;
    if Precedes(Group(rs, ks[0]), a, b) {
      assert PrecedingKeys(rs, ks, a, b) == PrecedingKeys(rs, tail, a, b) + {ks[0]};
      assert ks[0] !in PrecedingKeys(rs, tail, a, b);
    } else {
      assert PrecedingKeys(rs, ks, a, b) == PrecedingKeys(rs, tail, a, b);
    }
  }

  /** With each (user, item) rated once, the count of `(a, b)` is the number
      of `(MID, rate)` groups in which `a` comes before `b`, whatever order
      the groups are visited in. */
  lemma PairCount(rs: seq<Rating>, ks: seq<(int, int)>, a: int, b: int)
    requires UniqueUserItem(rs)
    requires Distinct(ks) && forall k :: k in ks <==> k in Keys(rs)
    ensures Count(Tally(PairsOf(rs, ks)), (a, b)) == |PrecedingKeys(rs, Keys(rs), a, b)|
  {
    PairsOfCount(rs, ks, a, b);
    CountIsMultiplicity(PairsOf(rs, ks), (a, b));
    assert PrecedingKeys(rs, ks, a, b) == PrecedingKeys(rs, Keys(rs), a, b);
  }

  /** The same count for the groups in first-appearance order. */
  lemma CoRatedCount(rs: seq<Rating>, a: int, b: int)
    requires UniqueUserItem(rs)
    ensures Count(Tally(CoRatedPairs(rs)), (a, b)) == |PrecedingKeys(rs, Keys(rs), a, b)|
  {
    PairCount(rs, GroupKeys(rs), a, b);
  }

  /** The keys of the groups in which `a`'s rating comes before `b`'s in
      row order. */
  function RowKeys(rs: seq<Rating>, a: int, b: int): set<(int, int)> {
    set k | k in Keys(rs) && RowsPrecede(rs, k, a, b)
  }

  /** With each (user, item) rated once, the count of `(a, b)` is the number
      of `(MID, rate)` keys under which `a`'s rating is a row above `b`'s. */
  lemma CoRatedCountRows(rs: seq<Rating>, a: int, b: int)
    requires UniqueUserItem(rs)
    ensures Count(Tally(CoRatedPairs(rs)), (a, b)) == |RowKeys(rs, a, b)|
  {
    CoRatedCount(rs, a, b);
    forall k | k in Keys(rs)
      ensures Precedes(Group(rs, k), a, b) <==> RowsPrecede(rs, k, a, b)
    {
      GroupOrder(rs, k, a, b);
    }
    assert PrecedingKeys(rs, Keys(rs), a, b) == RowKeys(rs, a, b);
  }

  /** A user's rating of an item is unique. */
  lemma RateUnique(rs: seq<Rating>, u: int, m: int, x: int, y: int)
    requires UniqueUserItem(rs)
    requires Rating(u, m, x) in rs && Rating(u, m, y) in rs
    ensures x == y
  {
    var i :| 0 <= i < |rs| && rs[i] == Rating(u, m, x);
    var j :| 0 <= j < |rs| && rs[j] == Rating(u, m, y);
    assert i == j || (rs[i].uid, rs[i].mid) == (rs[j].uid, rs[j].mid);
  }

  /** Two users who rated item `m` with different values share no group of
      that item, so `m` contributes to neither of their pair counts. */
  lemma DifferentRatesNotPaired(rs: seq<Rating>, a: int, b: int, m: int, ra: int, rb: int, r: int)
    requires UniqueUserItem(rs)
    requires Rating(a, m, ra) in rs && Rating(b, m, rb) in rs && ra != rb
    ensures !Precedes(Group(rs, (m, r)), a, b) && !Precedes(Group(rs, (m, r)), b, a)
  {
    var g := Group(rs, (m, r));
    if a in g {
      RateUnique(rs, a, m, ra, r);
    }
    if b in g {
      RateUnique(rs, b, m, rb, r);
    }
  }
}
