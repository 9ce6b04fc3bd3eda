/**
 * The graph the clique search reads: `HashMap<u32, HashSet<u32>>`, a vertex
 * mapped to its neighbours. A vertex that is not a key has no neighbours
 * (every lookup goes through `unwrap_or_default` or `map_or(0, ..)`), and the
 * keys are the graph's vertices.
 */
module Graphs {
  import opened Common

  type Graph = map<u32, set<u32>>

  /** `graph.get(&v).cloned().unwrap_or_default()`. */
  function Neighbours(g: Graph, v: u32): set<u32>
  {
    if v in g then g[v] else {}
  }

  /** Every edge is recorded in both directions. */
  ghost predicate Symmetric(g: Graph)
  {
    forall a, b :: b in Neighbours(g, a) ==> a in Neighbours(g, b)
  }

  /** Every two distinct members are adjacent. */
  ghost predicate IsClique(g: Graph, c: set<u32>)
  {
    forall a, b :: a in c && b in c && a != b ==> b in Neighbours(g, a)
  }

  /** A clique of vertices of `g` that no further vertex of `g` extends. */
  ghost predicate IsMaximalClique(g: Graph, c: set<u32>)
  {
    && c <= g.Keys
    && IsClique(g, c)
    && forall w :: w in g && w !in c ==> !IsClique(g, c + {w})
  }

  /** `v` lists itself as a neighbour (an input row `(v, v)`). */
  ghost predicate HasSelfLoop(g: Graph, v: u32)
  {
    v in Neighbours(g, v)
  }

  ghost predicate LoopFree(g: Graph, c: set<u32>)
  {
    forall v :: v in c ==> !HasSelfLoop(g, v)
  }

  /** The vertices adjacent to every member of `r` (all vertices when `r` is empty). */
  ghost function CommonNeighbours(g: Graph, r: set<u32>): set<u32>
  {
    set w | w in g && forall a :: a in r ==> w in Neighbours(g, a)
  }

  /** A vertex that extends a clique is a common neighbour of it. */
  lemma ExtensionIsCommonNeighbour(g: Graph, c: set<u32>, w: u32)
    requires w in g && w !in c
    ensures IsClique(g, c + {w}) ==> w in CommonNeighbours(g, c)
  {
    if IsClique(g, c + {w}) {
      forall a | a in c ensures w in Neighbours(g, a) {
        assert a in c + {w} && w in c + {w} && a != w;
      }
    }
  }

  /**
   * A common neighbour of a clique stops it from being reported: either it
   * lies inside the clique, and then it has a self-loop, or it extends the
   * clique, which is then not maximal.
   */
  lemma CommonNeighbourBlocks(g: Graph, c: set<u32>, w: u32)
    requires Symmetric(g)
    requires w in CommonNeighbours(g, c)
    ensures !(IsMaximalClique(g, c) && LoopFree(g, c))
  {
    if w in c {
      assert HasSelfLoop(g, w);
    } else {
      forall a, b | a in c + {w} && b in c + {w} && a != b && IsClique(g, c)
        ensures b in Neighbours(g, a)
      {
        if a == w {
          assert w in Neighbours(g, b);
        }
      }
    }
  }
}
