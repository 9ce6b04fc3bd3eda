/**
 * `run_bron_kerbosch` of `project_code/src/bron_kerbosch.rs`, the search the
 * program runs, and the way its tests and its `main` start it and compare
 * it with the oracle.
 */
module BronKerbosch {
  import opened Common
  import opened Graphs
  import opened CliqueSearch
  import CopiedAlg

  /**
   * The production variant: the pivot ranked by `Option<usize>` degree, an
   * inclusive threshold given as a `u32` and widened to `usize`, candidates
   * in set order.
   */
  function Production(minValue: u32): Variant
  {
    Variant(OptionalDegree, AtLeast(minValue as nat), false)
  }

  /** One call on the frame (R, P, X), appending the cliques of at least `minValue` vertices it finds. */
  method RunBronKerbosch(
    r: set<u32>, p: set<u32>, x: set<u32>, graph: Graph, cliques: seq<seq<u32>>, minValue: u32)
    returns (pOut: set<u32>, xOut: set<u32>, cliquesOut: seq<seq<u32>>)
    requires Symmetric(graph)
    requires Frame(graph, r, p, x)
    ensures |cliquesOut| >= |cliques| && cliquesOut[..|cliques|] == cliques
    ensures AllAscending(cliquesOut[|cliques|..])
    ensures NoRepeats(cliquesOut[|cliques|..])
    ensures CliqueSets(cliquesOut[|cliques|..]) == Found(graph, AtLeast(minValue as nat), r, p)
    ensures pOut !! xOut && pOut + xOut == p + x && pOut <= p
    ensures p + x != {} ==>
      exists u :: IsPivot(OptionalDegree, graph, p + x, u)
        && pOut == p * Neighbours(graph, u)
        && xOut == x + (p - Neighbours(graph, u))
  {
    pOut, xOut, cliquesOut := Search(Production(minValue), r, p, x, graph, cliques);
  }

  /**
   * The top-level run: R empty, P every key, X empty, no cliques yet. It
   * lists, each once and sorted, the maximal cliques of at least `minValue`
   * vertices that contain no self-looped vertex; on a graph without
   * self-loops, all maximal cliques of that size.
   */
  method FindCliques(graph: Graph, minValue: u32) returns (cliques: seq<seq<u32>>)
    requires Symmetric(graph)
    ensures AllAscending(cliques) && NoRepeats(cliques)
    ensures CliqueSets(cliques) == set c | c in MaximalCliques(graph, AtLeast(minValue as nat)) && LoopFree(graph, c)
    ensures (forall v :: !HasSelfLoop(graph, v)) ==> CliqueSets(cliques) == MaximalCliques(graph, AtLeast(minValue as nat))
  {
    TopFrame(graph, AtLeast(minValue as nat));
    var _, _, found := RunBronKerbosch({}, graph.Keys, {}, graph, [], minValue);
    assert found[0..] == found;
    cliques := found;
    if forall v :: !HasSelfLoop(graph, v) {
      LoopFreeGraphReportsAll(graph, AtLeast(minValue as nat));
    }
  }

  /**
   * The comparison the tests make: both searches from the top-level frame
   * with the same threshold. The two lists hold the same entries, each as
   * often, so they are equal once sorted.
   */
  method CrossCheck(graph: Graph, minValue: u32) returns (mine: seq<seq<u32>>, checking: seq<seq<u32>>)
    requires Symmetric(graph)
    ensures AllAscending(mine) && NoRepeats(mine)
    ensures AllAscending(checking) && NoRepeats(checking)
    ensures multiset(mine) == multiset(checking)
    ensures CliqueSets(mine) == set c | c in MaximalCliques(graph, AtLeast(minValue as nat)) && LoopFree(graph, c)
  {
    mine := FindCliques(graph, minValue);
    TopFrame(graph, AtLeast(minValue as nat));
    var _, _, oracle := CopiedAlg.BronKerboschV2({}, graph.Keys, {}, graph, [], minValue as nat);
    assert oracle[0..] == oracle;
    checking := oracle;
    SameReportsArePermutations(mine, checking);
  }

  /** The graph of the small-scale test: the triangles 1-2-3 and 4-5-6, each edge listed both ways. */
  const Left: set<u32> := {1, 2, 3}
  const Right: set<u32> := {4, 5, 6}

  function TwoTriangles(): Graph
  {
    map v | v in Left + Right :: if v in Left then Left - {v} else Right - {v}
  }

  /** In the two-triangle graph every clique lies within one triangle. */
  lemma CliqueWithinTriangle(c: set<u32>)
    requires c <= TwoTriangles().Keys && IsClique(TwoTriangles(), c)
    ensures c <= Left || c <= Right
  {
    var g := TwoTriangles();
    if a :| a in c && a in Left {
      forall b | b in c ensures b in Left {
        if b != a {
          assert b in Neighbours(g, a);
        }
      }
    } else {
      forall b | b in c ensures b in Right {
        assert b in g.Keys;
      }
    }
  }

  /** Each triangle is a maximal clique: a vertex of the other triangle is adjacent to none of it. */
  lemma TriangleIsMaximal(side: set<u32>, other: set<u32>, corner: u32)
    requires (side, other) == (Left, Right) || (side, other) == (Right, Left)
    requires corner in side
    ensures IsMaximalClique(TwoTriangles(), side)
  {
    var g := TwoTriangles();
    assert Neighbours(g, corner) == side - {corner};
    forall w | w in g && w !in side ensures !IsClique(g, side + {w}) {
      assert w in other;
      assert corner in side + {w} && w !in Neighbours(g, corner);
    }
  }

  /** A maximal clique inside a triangle is the whole triangle. */
  lemma FillsTriangle(c: set<u32>, side: set<u32>)
    requires side == Left || side == Right
    requires IsMaximalClique(TwoTriangles(), c) && c <= side
    ensures c == side
  {
    var g := TwoTriangles();
    forall w | w in side ensures w in c {
      WithinTriangleIsClique(c + {w}, side);
    }
  }

  /** Any set of vertices of one triangle is a clique. */
  lemma WithinTriangleIsClique(c: set<u32>, side: set<u32>)
    requires side == Left || side == Right
    requires c <= side
    ensures IsClique(TwoTriangles(), c)
  {
    var g := TwoTriangles();
    forall a | a in c ensures Neighbours(g, a) == side - {a} { }
  }

  /** The two-triangle graph lists every edge both ways and has no self-loops. */
  lemma TwoTrianglesUndirected()
    ensures Symmetric(TwoTriangles())
    ensures forall v :: !HasSelfLoop(TwoTriangles(), v)
  {
  }

  lemma TriangleSizes()
    ensures |Left| == 3 && |Right| == 3
  {
  }

  /** The maximal cliques of the two-triangle graph are the two triangles. */
  lemma TwoTrianglesMaximal(c: set<u32>)
    ensures IsMaximalClique(TwoTriangles(), c) <==> c == Left || c == Right
  {
    TriangleIsMaximal(Left, Right, 1);
    TriangleIsMaximal(Right, Left, 4);
    if IsMaximalClique(TwoTriangles(), c) {
      CliqueWithinTriangle(c);
      if c <= Left {
        FillsTriangle(c, Left);
      } else {
        FillsTriangle(c, Right);
      }
    }
  }

  /**
   * The scenario of the small-scale test: the two triangles are symmetric
   * and loop-free, and their maximal cliques of at least two vertices are
   * exactly the two triangles, which both searches therefore report.
   */
  lemma TwoTrianglesScenario()
    ensures Symmetric(TwoTriangles())
    ensures forall v :: !HasSelfLoop(TwoTriangles(), v)
    ensures MaximalCliques(TwoTriangles(), AtLeast(2)) == {Left, Right}
  {
    TwoTrianglesUndirected();
    TriangleSizes();
    forall c ensures c in MaximalCliques(TwoTriangles(), AtLeast(2)) <==> c == Left || c == Right {
      TwoTrianglesMaximal(c);
    }
  }

  /**
   * The small-scale test as it evidently means to run: both searches on the
   * two triangles at threshold 2 report each triangle once, sorted
   * ascending (`[[1, 2, 3], [4, 5, 6]]` up to order), and agree once sorted.
   */
  method SmallScaleTest() returns (mine: seq<seq<u32>>, checking: seq<seq<u32>>)
    ensures AllAscending(mine) && NoRepeats(mine)
    ensures AllAscending(checking) && NoRepeats(checking)
    ensures multiset(mine) == multiset(checking)
    ensures CliqueSets(mine) == {Left, Right}
  {
    TwoTrianglesScenario();
    mine, checking := CrossCheck(TwoTriangles(), 2);
  }
}
