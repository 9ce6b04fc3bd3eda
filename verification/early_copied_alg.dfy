/**
 * `bron_kerbosch_v2` of `src/copied_alg.rs`, an earlier copy of the oracle:
 * a fixed strict threshold `|R| > 2`, a pivot ranked by the raw size of its
 * neighbour set (absent vertices count 0), and candidates in set order.
 */
module EarlyCopiedAlg {
  import opened Common
  import opened Graphs
  import opened CliqueSearch

  function Early(): Variant
  {
    Variant(RawDegree, MoreThan(2), false)
  }

  /** One call on the frame (R, P, X); only cliques of three or more vertices are saved. */
  method BronKerboschV2(r: set<u32>, p: set<u32>, x: set<u32>, g: Graph, cliques: seq<seq<u32>>)
    returns (pOut: set<u32>, xOut: set<u32>, cliquesOut: seq<seq<u32>>)
    requires Symmetric(g)
    requires Frame(g, r, p, x)
    ensures |cliquesOut| >= |cliques| && cliquesOut[..|cliques|] == cliques
    ensures AllAscending(cliquesOut[|cliques|..])
    ensures NoRepeats(cliquesOut[|cliques|..])
    ensures CliqueSets(cliquesOut[|cliques|..]) == Found(g, AtLeast(3), r, p)
    ensures forall i :: |cliques| <= i < |cliquesOut| ==> |cliquesOut[i]| >= 3
    ensures pOut !! xOut && pOut + xOut == p + x && pOut <= p
    ensures p + x != {} ==>
      exists u :: IsPivot(RawDegree, g, p + x, u)
        && pOut == p * Neighbours(g, u)
        && xOut == x + (p - Neighbours(g, u))
  {
    pOut, xOut, cliquesOut := Search(Early(), r, p, x, g, cliques);
    StrictBoundIsInclusive(g, r, p, 2);
    ghost var added := cliquesOut[|cliques|..];
    forall i | |cliques| <= i < |cliquesOut| ensures |cliquesOut[i]| >= 3 {
      assert cliquesOut[i] == added[i - |cliques|];
      assert Elements(added[i - |cliques|]) in Found(g, AtLeast(3), r, p);
      ListingLength(cliquesOut[i]);
    }
  }
}
