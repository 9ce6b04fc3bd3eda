/**
 * `bron_kerbosch_v2` of `project_code/src/copied_alg.rs`, the oracle the
 * production search is checked against: an inclusive `usize` threshold, a
 * pivot ranked by the number of neighbours other than the vertex itself
 * (absent vertices count 0), and candidates visited in ascending order.
 */
module CopiedAlg {
  import opened Common
  import opened Graphs
  import opened CliqueSearch

  function Oracle(minValue: nat): Variant
  {
    Variant(DegreeWithoutSelf, AtLeast(minValue), true)
  }

  /**
   * One call on the frame (R, P, X). The `if let Some(pivot)` branch is
   * always taken outside a leaf, since P ∪ X is then non-empty.
   */
  method BronKerboschV2(
    r: set<u32>, p: set<u32>, x: set<u32>, g: Graph, cliques: seq<seq<u32>>, minValue: nat)
    returns (pOut: set<u32>, xOut: set<u32>, cliquesOut: seq<seq<u32>>)
    requires Symmetric(g)
    requires Frame(g, r, p, x)
    ensures |cliquesOut| >= |cliques| && cliquesOut[..|cliques|] == cliques
    ensures AllAscending(cliquesOut[|cliques|..])
    ensures NoRepeats(cliquesOut[|cliques|..])
    ensures CliqueSets(cliquesOut[|cliques|..]) == Found(g, AtLeast(minValue), r, p)
    ensures pOut !! xOut && pOut + xOut == p + x && pOut <= p
    ensures p + x != {} ==>
      exists u :: IsPivot(DegreeWithoutSelf, g, p + x, u)
        && pOut == p * Neighbours(g, u)
        && xOut == x + (p - Neighbours(g, u))
  {
    pOut, xOut, cliquesOut := Search(Oracle(minValue), r, p, x, g, cliques);
  }
}
