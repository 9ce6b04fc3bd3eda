/**
 * Pivoted Bron–Kerbosch maximal-clique enumeration (Tomita-style pivoting).
 *
 * The repository carries three near-copies of the search; they differ only
 * in how the pivot is ranked, in the size threshold and in whether the
 * candidates are visited in ascending order. `Search` is the one engine,
 * parameterised by a `Variant`; the entry points of the three copies live
 * in modules BronKerbosch, CopiedAlg and EarlyCopiedAlg.
 *
 * A search frame is the triple (R, P, X) of the source: R the clique built so
 * far, P the candidates, X the vertices already explored. What a frame
 * reports is specified by `Found`.
 */
module CliqueSearch {
  import opened Common
  import opened Graphs

  /** How `max_by_key` ranks a vertex of P ∪ X when choosing the pivot. */
  datatype PivotRule =
    | // `graph.get(v).map(|n| n.len())`: an `Option<usize>`, so an absent vertex
      // (None) ranks below every present one, even one with no neighbours
      OptionalDegree
    | // neighbours other than `v` itself; an absent vertex counts 0
      DegreeWithoutSelf
    | // `map_or(0, |n| n.len())`: all neighbours; an absent vertex counts 0
      RawDegree

  /** Which leaves are saved: `|R| >= min` or `|R| > bound`. */
  datatype Threshold = AtLeast(min: nat) | MoreThan(bound: nat)

  datatype Variant = Variant(pivot: PivotRule, threshold: Threshold, sortedCandidates: bool)

  predicate Passes(t: Threshold, size: nat)
  {
    match t
    case AtLeast(min) => size >= min
    case MoreThan(bound) => size > bound
  }

  /**
   * The key `max_by_key` maximises. For `OptionalDegree` the Rust key is an
   * `Option<usize>`; None is encoded as 0 and Some(n) as n + 1, which orders
   * the vertices exactly as Rust's `Option` ordering does (see
   * `OptionalDegreeRanksAbsentLowest`).
   */
  function PivotKey(rule: PivotRule, g: Graph, v: u32): nat
  {
    match rule
    case OptionalDegree => if v in g then |g[v]| + 1 else 0
    case DegreeWithoutSelf => if v in g then |g[v] - {v}| else 0
    case RawDegree => if v in g then |g[v]| else 0
  }

  /** `graph.get(v).map(|n| n.len())`: the degree of `v`, None when `v` is not a key. */
  function DegreeOption(g: Graph, v: u32): Option<nat>
  {
    if v in g then Some(|g[v]|) else None
  }

  /** Rust's derived ordering on `Option<usize>`: None first, then Some by value. */
  predicate OptionLe(a: Option<nat>, b: Option<nat>)
  {
    match (a, b)
    case (None, _) => true
    case (Some(_), None) => false
    case (Some(m), Some(n)) => m <= n
  }

  /**
   * The encoding of the `OptionalDegree` key orders vertices exactly as
   * Rust orders their `Option<usize>` keys; in particular a vertex that is
   * not a key ranks below every key, even one with no neighbours.
   */
  lemma OptionalDegreeRanksAbsentLowest(g: Graph, v: u32, w: u32)
    ensures PivotKey(OptionalDegree, g, v) <= PivotKey(OptionalDegree, g, w)
      <==> OptionLe(DegreeOption(g, v), DegreeOption(g, w))
    ensures v !in g && w in g ==> PivotKey(OptionalDegree, g, v) < PivotKey(OptionalDegree, g, w)
  {
  }

  /** `u` is a pivot of `pool`: a member whose key no other member exceeds. */
  ghost predicate IsPivot(rule: PivotRule, g: Graph, pool: set<u32>, u: u32)
  {
    u in pool && forall w :: w in pool ==> PivotKey(rule, g, w) <= PivotKey(rule, g, u)
  }

  /**
   * The frame invariant: R is a clique of vertices of the graph, P and X are
   * disjoint, and together they are exactly the vertices adjacent to every
   * member of R (all vertices at the top-level call).
   */
  ghost predicate Frame(g: Graph, r: set<u32>, p: set<u32>, x: set<u32>)
  {
    && r <= g.Keys
    && IsClique(g, r)
    && p !! x
    && p + x == CommonNeighbours(g, r)
  }

  /** A clique the search reports when it reaches it. */
  ghost predicate Reportable(g: Graph, t: Threshold, c: set<u32>)
  {
    IsMaximalClique(g, c) && Passes(t, |c|) && LoopFree(g, c)
  }

  /**
   * What the frame (R, P, X) reports: the reportable cliques that contain R
   * and draw every other member from P.
   */
  ghost function Found(g: Graph, t: Threshold, r: set<u32>, p: set<u32>): set<set<u32>>
  {
    set c: set<u32> | c <= g.Keys && r <= c && c - r <= p && Reportable(g, t, c)
  }

  /** All maximal cliques of the graph that pass the threshold. */
  ghost function MaximalCliques(g: Graph, t: Threshold): set<set<u32>>
  {
    set c: set<u32> | c <= g.Keys && IsMaximalClique(g, c) && Passes(t, |c|)
  }

  /** The vertex sets of a list of reported cliques. */
  ghost function CliqueSets(cliques: seq<seq<u32>>): set<set<u32>>
  {
    set i | 0 <= i < |cliques| :: Elements(cliques[i])
  }

  /** No vertex set is reported twice. */
  ghost predicate NoRepeats(cliques: seq<seq<u32>>)
  {
    forall i, j :: 0 <= i < j < |cliques| ==> Elements(cliques[i]) != Elements(cliques[j])
  }

  /** Every reported clique is listed in strictly ascending order. */
  ghost predicate AllAscending(cliques: seq<seq<u32>>)
  {
    forall i :: 0 <= i < |cliques| ==> StrictlyAscending(cliques[i])
  }

  // ---------------------------------------------------------------------
  // Facts about frames and `Found`
  // ---------------------------------------------------------------------

  /** The top-level call `(∅, all keys, ∅)` is a frame and reports the loop-free maximal cliques. */
  lemma TopFrame(g: Graph, t: Threshold)
    ensures Frame(g, {}, g.Keys, {})
    ensures Found(g, t, {}, g.Keys) == set c | c in MaximalCliques(g, t) && LoopFree(g, c)
  {
    assert CommonNeighbours(g, {}) == g.Keys;
  }

  /** On a graph without self-loops the top-level call reports every maximal clique. */
  lemma LoopFreeGraphReportsAll(g: Graph, t: Threshold)
    requires forall v :: !HasSelfLoop(g, v)
    ensures Found(g, t, {}, g.Keys) == MaximalCliques(g, t)
  {
    TopFrame(g, t);
  }

  /**
   * A leaf (P and X empty): R is then a maximal clique without self-loops,
   * so the frame reports R alone, and only if R passes the threshold.
   */
  lemma LeafReports(g: Graph, t: Threshold, r: set<u32>)
    requires Frame(g, r, {}, {})
    ensures Found(g, t, r, {}) == if Passes(t, |r|) then {r} else {}
  {
    LeafIsMaximal(g, r);
    forall c | c in Found(g, t, r, {}) ensures c == r {
      assert c - r == {};
    }
  }

  /** With no common neighbour left, R is a maximal clique and none of its vertices is looped. */
  lemma LeafIsMaximal(g: Graph, r: set<u32>)
    requires Frame(g, r, {}, {})
    ensures IsMaximalClique(g, r) && LoopFree(g, r)
  {
    forall w | w in g && w !in r ensures !IsClique(g, r + {w}) {
      ExtensionIsCommonNeighbour(g, r, w);
    }
    forall v | v in r ensures !HasSelfLoop(g, v) {
      SelfLoopInCliqueIsCommonNeighbour(g, r, v);
    }
  }

  /** A member of a clique with a self-loop is adjacent to every member. */
  lemma SelfLoopInCliqueIsCommonNeighbour(g: Graph, r: set<u32>, v: u32)
    requires r <= g.Keys && IsClique(g, r) && v in r
    ensures HasSelfLoop(g, v) ==> v in CommonNeighbours(g, r)
  {
  }

  /**
   * Outside a leaf no frame reports R itself: every clique it reports is
   * strictly larger than R, so only leaves append directly.
   */
  lemma NonLeafReportsSupersets(g: Graph, t: Threshold, r: set<u32>, p: set<u32>, x: set<u32>)
    requires Symmetric(g) && Frame(g, r, p, x)
    requires p + x != {}
    ensures forall c :: c in Found(g, t, r, p) ==> r < c
  {
    var w :| w in p + x;
    CommonNeighbourBlocks(g, r, w);
  }

  /**
   * The child frame of candidate `v` (a member of P that is not a neighbour
   * of the pivot `u`) is `(R ∪ {v}, P ∩ N(v), X ∩ N(v))`; it is again a
   * frame, and `v` is a vertex not yet in R, so the recursion descends.
   */
  lemma ChildFrame(g: Graph, r: set<u32>, p: set<u32>, x: set<u32>, u: u32, v: u32)
    requires Symmetric(g) && Frame(g, r, p, x)
    requires u in p + x && v in p && v !in Neighbours(g, u)
    ensures v in g && v !in r
    ensures Frame(g, r + {v}, p * Neighbours(g, v), x * Neighbours(g, v))
  {
    assert u in Neighbours(g, v) ==> v in Neighbours(g, u);
    forall a | a in r ensures a in Neighbours(g, v) {
      assert v in Neighbours(g, a);
    }
    var n := Neighbours(g, v);
    assert CommonNeighbours(g, r + {v}) == CommonNeighbours(g, r) * n;
  }

  /** Moving explored candidates from P to X keeps the frame invariant. */
  lemma MoveKeepsFrame(g: Graph, r: set<u32>, p: set<u32>, x: set<u32>, moved: set<u32>)
    requires Frame(g, r, p, x) && moved <= p
    ensures Frame(g, r, p - moved, x + moved)
  {
    assert (p - moved) + (x + moved) == p + x;
  }

  /**
   * Branching on candidate `v` splits what the frame reports into the
   * cliques that contain `v` (reported by the child frame) and those that do
   * not (reported by the rest of the loop, once `v` has left P).
   */
  lemma SplitOnCandidate(g: Graph, t: Threshold, r: set<u32>, p: set<u32>, v: u32)
    requires v in p && v !in r
    ensures Found(g, t, r, p) == Found(g, t, r + {v}, p * Neighbours(g, v)) + Found(g, t, r, p - {v})
    ensures Found(g, t, r + {v}, p * Neighbours(g, v)) !! Found(g, t, r, p - {v})
  {
    forall c ensures
      && (c in Found(g, t, r, p) <==> c in Found(g, t, r + {v}, p * Neighbours(g, v)) || c in Found(g, t, r, p - {v}))
      && (c in Found(g, t, r + {v}, p * Neighbours(g, v)) ==> v in c)
      && (c in Found(g, t, r, p - {v}) ==> v !in c)
    {
      SplitMember(g, t, r, p, v, c);
    }
  }

  /** `SplitOnCandidate` for one clique. */
  lemma SplitMember(g: Graph, t: Threshold, r: set<u32>, p: set<u32>, v: u32, c: set<u32>)
    requires v in p && v !in r
    ensures c in Found(g, t, r, p) <==> c in Found(g, t, r + {v}, p * Neighbours(g, v)) || c in Found(g, t, r, p - {v})
    ensures c in Found(g, t, r + {v}, p * Neighbours(g, v)) ==> v in c
    ensures c in Found(g, t, r, p - {v}) ==> v !in c
  {
    if v in c {
      assert c - r == (c - (r + {v})) + {v};
      if IsClique(g, c) {
        forall w | w in c - (r + {v}) ensures w in Neighbours(g, v) {
          assert v in c && w in c && v != w;
        }
      }
    } else {
      assert c - r <= p ==> c - r <= p - {v};
    }
  }

  /**
   * Once every candidate has been tried, P is P ∩ N(pivot), and such a frame
   * reports nothing: the pivot would extend any clique it could report.
   */
  lemma PivotLeavesNothing(g: Graph, t: Threshold, r: set<u32>, p: set<u32>, x: set<u32>, u: u32)
    requires Symmetric(g) && Frame(g, r, p, x)
    requires u in p + x
    ensures Found(g, t, r, p * Neighbours(g, u)) == {}
  {
    forall c | r <= c && c - r <= p * Neighbours(g, u)
      ensures u in CommonNeighbours(g, c)
    {
      forall a | a in c ensures u in Neighbours(g, a) {
        if a !in r {
          assert a in c - r;
          assert a in Neighbours(g, u);
        }
      }
    }
    forall c | r <= c && c - r <= p * Neighbours(g, u)
      ensures !(IsMaximalClique(g, c) && LoopFree(g, c))
    {
      CommonNeighbourBlocks(g, c, u);
    }
  }

  /** A list holding one clique record. */
  lemma SingleReport(clique: seq<u32>)
    ensures CliqueSets([clique]) == {Elements(clique)}
    ensures NoRepeats([clique])
    ensures StrictlyAscending(clique) ==> AllAscending([clique])
  {
    assert [clique][0] == clique;
    assert Elements(clique) in CliqueSets([clique]);
  }

  /** Appending one list of reported cliques to another. */
  lemma AppendReports(done: seq<seq<u32>>, added: seq<seq<u32>>)
    ensures CliqueSets(done + added) == CliqueSets(done) + CliqueSets(added)
    ensures AllAscending(done) && AllAscending(added) ==> AllAscending(done + added)
    ensures NoRepeats(done) && NoRepeats(added) && CliqueSets(done) !! CliqueSets(added)
      ==> NoRepeats(done + added)
  {
    var all := done + added;
    forall i | 0 <= i < |all| ensures Elements(all[i]) in CliqueSets(done) + CliqueSets(added) {
      if i < |done| {
        assert all[i] == done[i];
      } else {
        assert all[i] == added[i - |done|];
      }
    }
    forall i | 0 <= i < |done| ensures Elements(done[i]) in CliqueSets(all) {
      assert all[i] == done[i];
    }
    forall i | 0 <= i < |added| ensures Elements(added[i]) in CliqueSets(all) {
      assert all[|done| + i] == added[i];
    }
    if NoRepeats(done) && NoRepeats(added) && CliqueSets(done) !! CliqueSets(added) {
      forall i, j | 0 <= i < j < |all| ensures Elements(all[i]) != Elements(all[j]) {
        if j < |done| {
          assert all[i] == done[i] && all[j] == done[j];
        } else if i >= |done| {
          assert all[i] == added[i - |done|] && all[j] == added[j - |done|];
        } else {
          assert all[i] == done[i] && all[j] == added[j - |done|];
          assert Elements(all[i]) in CliqueSets(done) && Elements(all[j]) in CliqueSets(added);
        }
      }
    }
  }

  /**
   * The loop of `Search` after candidate `v`: the child's reports join the
   * ones already made, and `v` leaves P.
   */
  lemma StepKeepsReports(
    g: Graph, t: Threshold, r: set<u32>, p: set<u32>, pNow: set<u32>, v: u32,
    done: seq<seq<u32>>, added: seq<seq<u32>>)
    requires v in pNow && v !in r
    requires AllAscending(done) && NoRepeats(done)
    requires CliqueSets(done) !! Found(g, t, r, pNow)
    requires CliqueSets(done) + Found(g, t, r, pNow) == Found(g, t, r, p)
    requires AllAscending(added) && NoRepeats(added)
    requires CliqueSets(added) == Found(g, t, r + {v}, pNow * Neighbours(g, v))
    ensures AllAscending(done + added) && NoRepeats(done + added)
    ensures CliqueSets(done + added) !! Found(g, t, r, pNow - {v})
    ensures CliqueSets(done + added) + Found(g, t, r, pNow - {v}) == Found(g, t, r, p)
  {
    SplitOnCandidate(g, t, r, pNow, v);
    AppendReports(done, added);
  }

  /** Raising an inclusive threshold keeps exactly the larger cliques. */
  lemma RaisingThresholdKeepsLarger(g: Graph, low: nat, high: nat)
    requires low <= high
    ensures MaximalCliques(g, AtLeast(high)) == set c | c in MaximalCliques(g, AtLeast(low)) && |c| >= high
  {
  }

  /** A strict bound `> b` is the inclusive threshold `>= b + 1`. */
  lemma StrictBoundIsInclusive(g: Graph, r: set<u32>, p: set<u32>, bound: nat)
    ensures Found(g, MoreThan(bound), r, p) == Found(g, AtLeast(bound + 1), r, p)
    ensures MaximalCliques(g, MoreThan(bound)) == MaximalCliques(g, AtLeast(bound + 1))
  {
  }

  /** A list without repeated vertex sets has no repeated entries. */
  lemma NoRepeatsIsDistinct(cliques: seq<seq<u32>>)
    requires NoRepeats(cliques)
    ensures Distinct(cliques)
  {
    forall i, j | 0 <= i < j < |cliques| ensures cliques[i] != cliques[j] {
      assert Elements(cliques[i]) != Elements(cliques[j]);
    }
  }

  /** An ascending listing of a set reported in `a` is an entry of `b` when `b` reports that set in ascending order. */
  lemma ListedIn(a: seq<seq<u32>>, b: seq<seq<u32>>, s: seq<u32>)
    requires AllAscending(a) && AllAscending(b)
    requires CliqueSets(a) <= CliqueSets(b)
    ensures s in a ==> s in b
  {
    if s in a {
      var i :| 0 <= i < |a| && a[i] == s;
      assert Elements(s) in CliqueSets(b);
      var j :| 0 <= j < |b| && Elements(b[j]) == Elements(s);
      AscendingListingIsUnique(b[j], s);
    }
  }

  /**
   * Two report lists that name the same vertex sets, each once and each in
   * ascending order, are permutations of one another, so they are equal
   * once sorted.
   */
  lemma SameReportsArePermutations(a: seq<seq<u32>>, b: seq<seq<u32>>)
    requires AllAscending(a) && NoRepeats(a)
    requires AllAscending(b) && NoRepeats(b)
    requires CliqueSets(a) == CliqueSets(b)
    ensures multiset(a) == multiset(b)
  {
    NoRepeatsIsDistinct(a);
    NoRepeatsIsDistinct(b);
    DistinctCounts(a);
    DistinctCounts(b);
    forall s ensures multiset(a)[s] == multiset(b)[s] {
      ListedIn(a, b, s);
      ListedIn(b, a, s);
    }
  }

  // ---------------------------------------------------------------------
  // The search
  // ---------------------------------------------------------------------

  /**
   * Pivot choice: `p.union(x).max_by_key(..)`. The `unwrap` (or the
   * `if let Some`) always succeeds, because a non-leaf frame has P ∪ X non-empty.
   */
  method ChoosePivot(rule: PivotRule, graph: Graph, p: set<u32>, x: set<u32>) returns (pivot: u32)
    requires p + x != {}
    ensures IsPivot(rule, graph, p + x, pivot)
  {
    pivot := MaxByKey(p + x, v => PivotKey(rule, graph, v));
  }

  /**
   * `p.difference(&neighbours).cloned().collect()`, with the pivot's
   * neighbours defaulting to the empty set; sorted ascending when the
   * variant asks for it.
   */
  method Candidates(sorted: bool, graph: Graph, p: set<u32>, pivot: u32) returns (candidates: seq<u32>)
    ensures Elements(candidates) == p - Neighbours(graph, pivot)
    ensures Distinct(candidates)
    ensures sorted ==> StrictlyAscending(candidates)
  {
    candidates := Collect(p - Neighbours(graph, pivot));
    if sorted {
      SortDistinct(candidates);
      PermutationOfDistinct(candidates, Sort(candidates));
      candidates := Sort(candidates);
    }
  }

  /** The clique record of a leaf: R collected into a vector and sorted. */
  method SortedClique(r: set<u32>) returns (clique: seq<u32>)
    ensures StrictlyAscending(clique)
    ensures Elements(clique) == r
    ensures |clique| == |r|
  {
    clique := Collect(r);
    SortDistinct(clique);
    clique := Sort(clique);
    assert Distinct(clique);
    ListingLength(clique);
  }

  /** Extending the explored prefix of a repeat-free candidate list by one. */
  lemma PrefixStep<T>(candidates: seq<T>, i: nat)
    requires i < |candidates| && Distinct(candidates)
    ensures Elements(candidates[..i + 1]) == Elements(candidates[..i]) + {candidates[i]}
    ensures Elements(candidates[..i]) <= Elements(candidates)
    ensures candidates[i] in Elements(candidates) - Elements(candidates[..i])
  {
    assert candidates[..i + 1] == candidates[..i] + [candidates[i]];
  }

  /**
   * The recursive call for candidate `v`: the search on the child frame
   * `(R ∪ {v}, P ∩ N(v), X ∩ N(v))`, appending what that frame reports.
   */
  method Branch(variant: Variant, r: set<u32>, p: set<u32>, x: set<u32>, pivot: u32, v: u32, graph: Graph, cliques: seq<seq<u32>>)
    returns (grown: seq<seq<u32>>)
    requires Symmetric(graph) && Frame(graph, r, p, x)
    requires pivot in p + x && v in p && v !in Neighbours(graph, pivot)
    ensures |grown| >= |cliques| && grown == cliques + grown[|cliques|..]
    ensures AllAscending(grown[|cliques|..]) && NoRepeats(grown[|cliques|..])
    ensures CliqueSets(grown[|cliques|..]) == Found(graph, variant.threshold, r + {v}, p * Neighbours(graph, v))
    decreases graph.Keys - r, 0
  {
    ChildFrame(graph, r, p, x, pivot, v);
    var neighbours := Neighbours(graph, v);
    var _, _, cliquesOut := Search(variant, r + {v}, p * neighbours, x * neighbours, graph, cliques);
    grown := cliquesOut;
    assert grown == cliques + grown[|cliques|..];
  }

  /**
   * One call of the search on the frame (R, P, X), appending to `cliques`.
   * `p` and `x` are the caller's sets, which the source updates in place;
   * their final values are returned as `pOut` and `xOut`. The graph and R are
   * only read.
   *
   * The entries appended are exactly the cliques `Found` specifies, each
   * once, each in ascending order; earlier entries are left alone. P and X
   * end as the candidates' moves from P to X left them. The loop over the
   * candidates is `Explore`, and the recursive call for one candidate is
   * `Branch`.
   */
  method Search(variant: Variant, r: set<u32>, p: set<u32>, x: set<u32>, graph: Graph, cliques: seq<seq<u32>>)
    returns (pOut: set<u32>, xOut: set<u32>, cliquesOut: seq<seq<u32>>)
    requires Symmetric(graph)
    requires Frame(graph, r, p, x)
    ensures |cliquesOut| >= |cliques| && cliquesOut[..|cliques|] == cliques
    ensures AllAscending(cliquesOut[|cliques|..])
    ensures NoRepeats(cliquesOut[|cliques|..])
    ensures CliqueSets(cliquesOut[|cliques|..]) == Found(graph, variant.threshold, r, p)
    ensures pOut !! xOut && pOut + xOut == p + x && pOut <= p
    ensures p == {} && x == {} ==> pOut == {} && xOut == {}
    ensures p + x != {} ==>
      exists u :: IsPivot(variant.pivot, graph, p + x, u)
        && pOut == p * Neighbours(graph, u)
        && xOut == x + (p - Neighbours(graph, u))
    decreases graph.Keys - r, 2
  {
    if p == {} && x == {} {
      pOut, xOut := p, x;
      LeafReports(graph, variant.threshold, r);
      if Passes(variant.threshold, |r|) {
        var clique := SortedClique(r);
        cliquesOut := cliques + [clique];
        assert cliquesOut[|cliques|..] == [clique];
        SingleReport(clique);
      } else {
        cliquesOut := cliques;
      }
      return;
    }

    var pivot := ChoosePivot(variant.pivot, graph, p, x);
    var candidates := Candidates(variant.sortedCandidates, graph, p, pivot);
    pOut, xOut, cliquesOut := Explore(variant, r, p, x, graph, cliques, pivot, candidates);
  }

  /**
   * The loop of the search over the candidates `P \ N(pivot)`: each one is
   * branched on and then moved from P to X.
   */
  method Explore(
    variant: Variant, r: set<u32>, p: set<u32>, x: set<u32>, graph: Graph, cliques: seq<seq<u32>>,
    pivot: u32, candidates: seq<u32>)
    returns (pOut: set<u32>, xOut: set<u32>, cliquesOut: seq<seq<u32>>)
    requires Symmetric(graph) && Frame(graph, r, p, x)
    requires pivot in p + x
    requires Elements(candidates) == p - Neighbours(graph, pivot) && Distinct(candidates)
    ensures |cliquesOut| >= |cliques| && cliquesOut[..|cliques|] == cliques
    ensures AllAscending(cliquesOut[|cliques|..])
    ensures NoRepeats(cliquesOut[|cliques|..])
    ensures CliqueSets(cliquesOut[|cliques|..]) == Found(graph, variant.threshold, r, p)
    ensures pOut == p * Neighbours(graph, pivot)
    ensures xOut == x + (p - Neighbours(graph, pivot))
    decreases graph.Keys - r, 1
  {
    pOut, xOut, cliquesOut := p, x, cliques;
    ghost var done: seq<seq<u32>> := [];
    ghost var t := variant.threshold;

    for i := 0 to |candidates|
      invariant pOut == p - Elements(candidates[..i])
      invariant xOut == x + Elements(candidates[..i])
      invariant cliquesOut == cliques + done
      invariant AllAscending(done) && NoRepeats(done)
      invariant CliqueSets(done) !! Found(graph, t, r, pOut)
      invariant CliqueSets(done) + Found(graph, t, r, pOut) == Found(graph, t, r, p)
    {
      var v := candidates[i];
      PrefixStep(candidates, i);
      MoveKeepsFrame(graph, r, p, x, Elements(candidates[..i]));
      var grown := Branch(variant, r, pOut, xOut, pivot, v, graph, cliquesOut);
      ghost var added := grown[|cliquesOut|..];
      StepKeepsReports(graph, t, r, p, pOut, v, done, added);
      done := done + added;
      cliquesOut := grown;
      pOut := pOut - {v};
      xOut := xOut + {v};
    }

    PivotLeavesNothing(graph, t, r, p, x, pivot);
    assert candidates[..|candidates|] == candidates;
    assert pOut == p * Neighbours(graph, pivot);
    assert Found(graph, t, r, pOut) == {};
    assert CliqueSets(done) == Found(graph, t, r, p);
    assert cliquesOut[|cliques|..] == done;
  }
}
