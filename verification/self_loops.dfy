/**
 * Self-loops. The ingestion keeps a row `(a, a)` as `a ∈ N(a)`, and the
 * search then never reports a maximal clique containing `a`: `a` stays a
 * common neighbour of every frame whose R contains it, so P ∪ X never
 * empties below such a frame. `LoopHidesMaximalClique` shows a graph where
 * this loses a clique; `FindAllMaximalCliques` runs the search on the graph
 * with its self-loops removed and reports every maximal clique.
 */
module SelfLoops {
  import opened Common
  import opened Graphs
  import opened CliqueSearch
  import opened FileReading
  import BronKerbosch

  /**
   * The rows (1, 2) and (1, 1) give the graph 1 — 2 with a loop at 1. Its
   * one maximal clique {1, 2} has two vertices, yet the top-level frame
   * reports nothing at threshold 2, so `FindCliques` returns an empty list.
   */
  lemma LoopHidesMaximalClique()
    ensures Undirected([(1, 2), (1, 1)]) == map[1 := {1, 2}, 2 := {1}]
    ensures {1, 2} in MaximalCliques(map[1 := {1, 2}, 2 := {1}], AtLeast(2))
    ensures Found(map[1 := {1, 2}, 2 := {1}], AtLeast(2), {}, {1, 2}) == {}
  {
    var g: Graph := map[1 := {1, 2}, 2 := {1}];
    LoopRows();
    PairIsMaximal();
    forall c: set<u32> | c <= {1, 2} ensures !Reportable(g, AtLeast(2), c) {
      LoopedGraphReportsNothing(c);
    }
  }

  /** In the looped graph the pair {1, 2} is a maximal clique of two vertices. */
  lemma PairIsMaximal()
    ensures IsMaximalClique(map[1 := {1, 2}, 2 := {1}], {1, 2})
    ensures |{1 as u32, 2}| == 2
  {
    var g: Graph := map[1 := {1, 2}, 2 := {1}];
    assert g.Keys == {1, 2};
    assert IsClique(g, {1, 2});
  }

  /** No vertex set of the looped graph is reportable: 1 is looped, and 1 extends every set without it. */
  lemma LoopedGraphReportsNothing(c: set<u32>)
    ensures !Reportable(map[1 := {1, 2}, 2 := {1}], AtLeast(2), c)
  {
    var g: Graph := map[1 := {1, 2}, 2 := {1}];
    if 1 in c {
      assert HasSelfLoop(g, 1);
    } else if c <= {1, 2} {
      assert c <= {2};
      assert IsClique(g, c + {1});
    }
  }

  /** The map `csv_to_hashmap` builds from the rows (1, 2) and (1, 1). */
  lemma LoopRows()
    ensures Undirected([(1, 2), (1, 1)]) == map[1 := {1, 2}, 2 := {1}]
  {
    var g: Graph := map[1 := {1, 2}, 2 := {1}];
    var rows: seq<(u32, u32)> := [(1, 2), (1, 1)];
    var empty: Graph := map[];
    UndirectedStep([], 1, 2);
    UndirectedStep([(1, 2)], 1, 1);
    assert [] + [(1 as u32, 2 as u32)] == [(1, 2)];
    assert [(1 as u32, 2 as u32)] + [(1, 1)] == rows;
    var one := empty[1 := {2}];
    assert Neighbours(empty, 1) + {2} == {2};
    assert Neighbours(one, 2) + {1} == {1};
    assert AddEdge(empty, 1, 2) == one[2 := {1}];
    var oneTwo: Graph := map[1 := {2}, 2 := {1}];
    assert one[2 := {1}] == oneTwo;
    var looped := oneTwo[1 := {1, 2}];
    assert Neighbours(oneTwo, 1) + {1} == {1, 2};
    assert Neighbours(looped, 1) + {1} == {1, 2};
    assert AddEdge(oneTwo, 1, 1) == looped[1 := {1, 2}];
    assert looped[1 := {1, 2}] == g;
  }

  /** The graph with every vertex removed from its own neighbour set. */
  function WithoutSelfLoops(g: Graph): (r: Graph)
    ensures r.Keys == g.Keys
    ensures forall v :: !HasSelfLoop(r, v)
    ensures forall a, b :: a != b ==> (b in Neighbours(r, a) <==> b in Neighbours(g, a))
  {
    map v | v in g :: g[v] - {v}
  }

  /** Removing self-loops keeps a graph symmetric and changes none of its maximal cliques. */
  lemma WithoutSelfLoopsKeepsCliques(g: Graph, t: Threshold)
    requires Symmetric(g)
    ensures Symmetric(WithoutSelfLoops(g))
    ensures MaximalCliques(WithoutSelfLoops(g), t) == MaximalCliques(g, t)
  {
    var h := WithoutSelfLoops(g);
    forall c ensures IsClique(h, c) <==> IsClique(g, c) {
    }
    forall c ensures IsMaximalClique(h, c) <==> IsMaximalClique(g, c) {
    }
  }

  /**
   * The evident intent of the search: every maximal clique of at least
   * `minValue` vertices, each once and sorted, self-loops or not.
   */
  method FindAllMaximalCliques(graph: Graph, minValue: u32) returns (cliques: seq<seq<u32>>)
    requires Symmetric(graph)
    ensures AllAscending(cliques) && NoRepeats(cliques)
    ensures CliqueSets(cliques) == MaximalCliques(graph, AtLeast(minValue as nat))
  {
    var loopFree := WithoutSelfLoops(graph);
    WithoutSelfLoopsKeepsCliques(graph, AtLeast(minValue as nat));
    cliques := BronKerbosch.FindCliques(loopFree, minValue);
  }
}
