/** The user graph of `train_model`: the counted pairs that reach
    `alpha_coef * 1682` become undirected edges of weight 1, and every
    endpoint of such a pair gets a self-loop. */
module CoGraph {
  import opened Tables
  import opened CoRating

  /** The number of items of the MovieLens 100K data set. */
  const ItemCount: real := 1682.0

  /** The coefficients the script sweeps, one graph each. */
  const AlphaCoefs: seq<real> := [0.005, 0.01, 0.015, 0.02, 0.025, 0.03, 0.035, 0.04, 0.045]

  function Threshold(alphaCoef: real): real {
    alphaCoef * ItemCount
  }

  /** A pair is kept when its count reaches the threshold. */
  predicate Survives(c: map<Pair, nat>, p: Pair, alpha: real) {
    p in c && c[p] as real >= alpha
  }

  function Repeat(p: Pair, n: nat): (r: seq<Pair>)
    ensures |r| == n
    ensures forall q :: q in r <==> n > 0 && q == p
  {
    var r := seq(n, _ => p);
    assert n > 0 ==> r[0] == p;
    r
  }

  /** `counter.elements()`: every key, in the order given, repeated as often
      as it was counted. */
  function Elements(c: map<Pair, nat>, order: seq<Pair>): (r: seq<Pair>)
    requires forall p :: p in order ==> p in c
    ensures forall p :: p in r <==> p in order && c[p] > 0
  {
    if |order| == 0 then []
    else Repeat(order[0], c[order[0]]) + Elements(c, order[1..])
  }

  /** The generator `el for el in ... if counter[el] >= alpha`. */
  function KeepFrequent(es: seq<Pair>, c: map<Pair, nat>, alpha: real): (r: seq<Pair>)
    ensures forall p :: p in r <==> p in es && Count(c, p) as real >= alpha
  {
    if |es| == 0 then []
    else
      var rest := KeepFrequent(es[1..], c, alpha);
      assert es == [es[0]] + es[1..];
      if Count(c, es[0]) as real >= alpha then [es[0]] + rest else rest
  }

  /** `Counter(...).keys()` of the kept elements: the surviving pairs, each
      once, in the order the pairs were first counted. */
  function EdgeList(ps: seq<Pair>, alpha: real): (el: seq<Pair>)
    ensures Distinct(el)
    ensures forall p :: p in el <==> Survives(Tally(ps), p, alpha)
  {
    var c := Tally(ps);
    Dedup(KeepFrequent(Elements(c, Dedup(ps)), c, alpha))
  }

  /** An `nx.Graph` whose edges all have weight 1: a node set and a set of
      edges, an edge being the set of its one or two endpoints. */
  datatype Graph = Graph(nodes: set<int>, edges: set<set<int>>)

  /** `G.add_edge(u, v, weight=1)`. */
  function AddEdge(g: Graph, u: int, v: int): Graph {
    Graph(g.nodes + {u, v}, g.edges + {{u, v}})
  }

  /** The three `add_edge` calls for one surviving pair. */
  function AddPair(g: Graph, p: Pair): Graph {
    AddEdge(AddEdge(AddEdge(g, p.0, p.1), p.0, p.0), p.1, p.1)
  }

  function Endpoints(el: seq<Pair>): set<int> {
    (set p | p in el :: p.0) + (set p | p in el :: p.1)
  }

  /** The pairs of the list as unordered edges. */
  function PairEdges(el: seq<Pair>): set<set<int>> {
    set p | p in el :: {p.0, p.1}
  }

  function SelfLoops(nodes: set<int>): set<set<int>> {
    set u | u in nodes :: {u}
  }

  /** The graph built from the edge list, pair by pair: the endpoints of the
      pairs are its nodes, and its edges are the pairs, unordered, plus a
      self-loop on every node. */
  function BuildGraph(el: seq<Pair>): (g: Graph)
    ensures g.nodes == Endpoints(el)
    ensures g.edges == PairEdges(el) + SelfLoops(Endpoints(el))
  {
    if |el| == 0 then Graph({}, {})
    else
      var init := el[..|el| - 1];
      var last := el[|el| - 1];
      SnocPair(el, init, last);
      AddPairSets(BuildGraph(init), last);
      AddPair(BuildGraph(init), last)
  }

  /** How the three sets grow with one more pair. */
  lemma SnocPair(el: seq<Pair>, init: seq<Pair>, last: Pair)
    requires el == init + [last]
    ensures Endpoints(el) == Endpoints(init) + {last.0, last.1}
    ensures PairEdges(el) == PairEdges(init) + {{last.0, last.1}}
    ensures SelfLoops(Endpoints(el)) == SelfLoops(Endpoints(init)) + {{last.0}, {last.1}}
  {
    assert forall p :: p in el <==> p in init || p == last;
    assert Endpoints(el) == Endpoints(init) + {last.0, last.1};
    SelfLoopsUnion(Endpoints(init), {last.0, last.1});
    SelfLoopsPair(last.0, last.1);
  }

  lemma SelfLoopsPair(x: int, y: int)
    ensures SelfLoops({x, y}) == {{x}, {y}}
  {
    assert {x} in SelfLoops({x, y}) && {y} in SelfLoops({x, y});
    forall e | e in SelfLoops({x, y})
      ensures e == {x} || e == {y}
    {
      var u :| u in {x, y} && e == {u};
    }
  }

  lemma SelfLoopsUnion(a: set<int>, b: set<int>)
    ensures SelfLoops(a + b) == SelfLoops(a) + SelfLoops(b)
  {
  }

  lemma AddPairSets(g: Graph, p: Pair)
    ensures AddPair(g, p).nodes == g.nodes + {p.0, p.1}
    ensures AddPair(g, p).edges == g.edges + {{p.0, p.1}} + {{p.0}, {p.1}}
  {
    assert {p.0, p.0} == {p.0} && {p.1, p.1} == {p.1};
  }

  /** Every node carries a self-loop and every edge joins nodes. */
  lemma GraphLoops(el: seq<Pair>)
    ensures forall u :: u in BuildGraph(el).nodes ==> {u} in BuildGraph(el).edges
    ensures forall e :: e in BuildGraph(el).edges ==> 0 < |e| <= 2 && e <= BuildGraph(el).nodes
  {
    var g := BuildGraph(el);
    forall e | e in g.edges
      ensures 0 < |e| <= 2 && e <= g.nodes
    {
      if e in PairEdges(el) {
        var p :| p in el && e == {p.0, p.1};
        assert p.0 in Endpoints(el) && p.1 in Endpoints(el);
        if p.0 == p.1 {
          assert e == {p.0};
        }
      } else {
        var u :| u in Endpoints(el) && e == {u};
      }
    }
  }

  /** Two distinct users are joined exactly when one of the two orders of
      the pair is in the edge list. */
  lemma GraphEdge(el: seq<Pair>, a: int, b: int)
    requires a != b
    ensures {a, b} in BuildGraph(el).edges <==> (a, b) in el || (b, a) in el
  {
    var g := BuildGraph(el);
    if {a, b} in g.edges {
      if {a, b} in PairEdges(el) {
        var p :| p in el && {a, b} == {p.0, p.1};
        assert a in {p.0, p.1} && b in {p.0, p.1};
        assert p == (a, b) || p == (b, a);
      }
    }
    if (a, b) in el {
      assert {a, b} == {(a, b).0, (a, b).1};
    }
    if (b, a) in el {
      assert {a, b} == {(b, a).0, (b, a).1};
    }
  }

  /** The graph for one coefficient. */
  function CoRatingGraph(rs: seq<Rating>, alphaCoef: real): Graph {
    BuildGraph(EdgeList(CoRatedPairs(rs), Threshold(alphaCoef)))
  }

  /** The users of the graph are exactly the users of a surviving pair. */
  lemma CoRatingNodes(rs: seq<Rating>, alphaCoef: real, u: int)
    ensures var c := Tally(CoRatedPairs(rs));
            var alpha := Threshold(alphaCoef);
            u in CoRatingGraph(rs, alphaCoef).nodes
            <==> exists p :: Survives(c, p, alpha) && (p.0 == u || p.1 == u)
  {
    var c := Tally(CoRatedPairs(rs));
    var el := EdgeList(CoRatedPairs(rs), Threshold(alphaCoef));
    if u in Endpoints(el) {
      var p :| p in el && (p.0 == u || p.1 == u);
      assert Survives(c, p, Threshold(alphaCoef));
    }
    if exists p :: Survives(c, p, Threshold(alphaCoef)) && (p.0 == u || p.1 == u) {
      var p :| Survives(c, p, Threshold(alphaCoef)) && (p.0 == u || p.1 == u);
      assert p in el;
      assert p.0 in Endpoints(el) && p.1 in Endpoints(el);
    }
  }

  /** Two distinct users are joined exactly when their pair reaches the
      threshold in one order or the other. */
  lemma CoRatingEdge(rs: seq<Rating>, alphaCoef: real, a: int, b: int)
    requires a != b
    ensures var c := Tally(CoRatedPairs(rs));
            var alpha := Threshold(alphaCoef);
            {a, b} in CoRatingGraph(rs, alphaCoef).edges
            <==> Survives(c, (a, b), alpha) || Survives(c, (b, a), alpha)
  {
    GraphEdge(EdgeList(CoRatedPairs(rs), Threshold(alphaCoef)), a, b);
  }

  /** With each (user, item) rated once and a positive coefficient, users
      `a != b` are joined exactly when the groups in which one precedes the
      other, in one of the two orders, number at least the threshold. */
  lemma CoRatingEdgeGroups(rs: seq<Rating>, alphaCoef: real, a: int, b: int)
    requires UniqueUserItem(rs) && alphaCoef > 0.0 && a != b
    ensures {a, b} in CoRatingGraph(rs, alphaCoef).edges
            <==> || |PrecedingKeys(rs, Keys(rs), a, b)| as real >= Threshold(alphaCoef)
                 || |PrecedingKeys(rs, Keys(rs), b, a)| as real >= Threshold(alphaCoef)
  {
    var c := Tally(CoRatedPairs(rs));
    CoRatingEdge(rs, alphaCoef, a, b);
    CoRatedCount(rs, a, b);
    CoRatedCount(rs, b, a);
    assert Survives(c, (a, b), Threshold(alphaCoef)) <==> Count(c, (a, b)) as real >= Threshold(alphaCoef);
    assert Survives(c, (b, a), Threshold(alphaCoef)) <==> Count(c, (b, a)) as real >= Threshold(alphaCoef);
  }

  /** A pair that survives a threshold survives every lower one. */
  lemma EdgeListMonotone(ps: seq<Pair>, lo: real, hi: real)
    requires lo <= hi
    ensures forall p :: p in EdgeList(ps, hi) ==> p in EdgeList(ps, lo)
  {
  }

  /** Raising the coefficient can only remove nodes and edges. */
  lemma CoRatingMonotone(rs: seq<Rating>, lo: real, hi: real)
    requires lo <= hi
    ensures CoRatingGraph(rs, hi).nodes <= CoRatingGraph(rs, lo).nodes
    ensures CoRatingGraph(rs, hi).edges <= CoRatingGraph(rs, lo).edges
  {
    var ps := CoRatedPairs(rs);
    var small, big := EdgeList(ps, Threshold(hi)), EdgeList(ps, Threshold(lo));
    EdgeListMonotone(ps, Threshold(lo), Threshold(hi));
    assert Endpoints(small) <= Endpoints(big);
  }

  /** The graphs of the sweep are nested: each is contained in the one
      before it. */
  lemma SweepNested(rs: seq<Rating>, i: nat, j: nat)
    requires i <= j < |AlphaCoefs|
    ensures CoRatingGraph(rs, AlphaCoefs[j]).nodes <= CoRatingGraph(rs, AlphaCoefs[i]).nodes
    ensures CoRatingGraph(rs, AlphaCoefs[j]).edges <= CoRatingGraph(rs, AlphaCoefs[i]).edges
  {
    assert forall x, y :: 0 <= x <= y < |AlphaCoefs| ==> AlphaCoefs[x] <= AlphaCoefs[y];
    CoRatingMonotone(rs, AlphaCoefs[i], AlphaCoefs[j]);
  }

  /** Item 1 rated 5 by users 1 and 2 and 4 by user 3. */
  const ThreeRatings: seq<Rating> := [Rating(1, 1, 5), Rating(2, 1, 5), Rating(3, 1, 4)]

  lemma GroupSnoc(rs: seq<Rating>, r: Rating, k: (int, int))
    ensures Group(rs + [r], k) == if KeyOf(r) == k then Group(rs, k) + [r.uid] else Group(rs, k)
  {
    assert (rs + [r])[..|rs|] == rs;
  }

  lemma ThreeRatingsUnique()
    ensures UniqueUserItem(ThreeRatings)
  {
  }

  lemma ThreeRatingsKeys()
    ensures forall k :: k in Keys(ThreeRatings) ==> k == (1, 5) || k == (1, 4)
    ensures (1, 5) in Keys(ThreeRatings)
  {
    assert Keys(ThreeRatings) == [(1, 5), (1, 5), (1, 4)];
  }

  lemma ThreeRatingsGroup(k: (int, int))
    ensures Group(ThreeRatings, k)
            == (if k == (1, 5) then [1] + [2] else []) + (if k == (1, 4) then [3] else [])
  {
    var a, b, c := Rating(1, 1, 5), Rating(2, 1, 5), Rating(3, 1, 4);
    assert ThreeRatings == [] + [a] + [b] + [c];
    GroupSnoc([], a, k);
    assert [] + [a] == [a];
    GroupSnoc([a], b, k);
    assert [a] + [b] == [a, b];
    GroupSnoc([a, b], c, k);
  }

  lemma PrecedesTwo(x: int, y: int, a: int, b: int)
    ensures Precedes([x, y], a, b) <==> a == x && b == y
  {
    if a == x && b == y {
      assert [x, y][0] == a && [x, y][1] == b;
    }
  }

  lemma PrecedesOne(x: int, a: int, b: int)
    ensures !Precedes([x], a, b)
  {
  }

  /** Only `(1, 2)` is counted, once. */
  lemma ThreeRatingsCount(p: Pair)
    ensures Count(Tally(CoRatedPairs(ThreeRatings)), p) == if p == (1, 2) then 1 else 0
  {
    ThreeRatingsUnique();
    ThreeRatingsKeys();
    ThreeRatingsGroup((1, 5));
    ThreeRatingsGroup((1, 4));
    assert [1] + [2] == [1, 2];
    PrecedesTwo(1, 2, p.0, p.1);
    PrecedesOne(3, p.0, p.1);
    ThreeRatingsPreceding(p);
    CoRatedCount(ThreeRatings, p.0, p.1);
  }

  lemma ThreeRatingsPreceding(p: Pair)
    requires forall k :: k in Keys(ThreeRatings) ==> k == (1, 5) || k == (1, 4)
    requires (1, 5) in Keys(ThreeRatings)
    requires Precedes(Group(ThreeRatings, (1, 5)), p.0, p.1) <==> p == (1, 2)
    requires !Precedes(Group(ThreeRatings, (1, 4)), p.0, p.1)
    ensures PrecedingKeys(ThreeRatings, Keys(ThreeRatings), p.0, p.1) == if p == (1, 2) then {(1, 5)} else {}
  {
  }

  /** The graph of an edge list that holds one pair and nothing else. */
  lemma SinglePairGraph(el: seq<Pair>, q: Pair)
    requires q in el && forall p :: p in el ==> p == q
    ensures BuildGraph(el) == Graph({q.0, q.1}, {{q.0, q.1}, {q.0}, {q.1}})
  {
    assert Endpoints(el) == {q.0, q.1};
    assert PairEdges(el) == {{q.0, q.1}};
    SelfLoopsPair(q.0, q.1);
  }

  /** With a coefficient that makes the threshold one shared group, users 1
      and 2 are joined and looped, and user 3, who gave the item another
      rating, is not in the graph. */
  lemma ThreeRatingsGraph()
    ensures var g := CoRatingGraph(ThreeRatings, 1.0 / 1682.0);
            g.nodes == {1, 2} && g.edges == {{1, 2}, {1}, {2}}
  {
    var el := EdgeList(CoRatedPairs(ThreeRatings), Threshold(1.0 / 1682.0));
    forall p | p in el
      ensures p == (1, 2)
    {
      ThreeRatingsCount(p);
    }
    ThreeRatingsCount((1, 2));
    SinglePairGraph(el, (1, 2));
  }
}
