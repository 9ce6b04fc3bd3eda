/**
 * The pieces of Rust's standard library that the clique code leans on:
 * `u32` vertex identifiers, `Option`, collecting a `HashSet` into a `Vec`
 * (unspecified order), `Vec::sort`, and `Iterator::max_by_key`.
 */
module Common {

  /** Rust's `u32`: vertex identifiers and the engine's `min_value`. */
  newtype u32 = x: int | 0 <= x < 0x1_0000_0000

  datatype Option<T> = None | Some(value: T)

  /** The set of values a sequence holds. */
  function Elements<T(==)>(s: seq<T>): set<T>
  {
    set v | v in s
  }

  /** No value occurs twice. */
  predicate Distinct<T(==)>(s: seq<T>)
  {
    forall i, j :: 0 <= i < j < |s| ==> s[i] != s[j]
  }

  predicate Ascending(s: seq<u32>)
  {
    forall i, j :: 0 <= i < j < |s| ==> s[i] <= s[j]
  }

  predicate StrictlyAscending(s: seq<u32>)
  {
    forall i, j :: 0 <= i < j < |s| ==> s[i] < s[j]
  }

  /**
   * `set.iter().cloned().collect::<Vec<_>>()`: every element of the set
   * once, in the set's (unspecified) iteration order.
   */
  method Collect<T(==)>(s: set<T>) returns (xs: seq<T>)
    ensures Elements(xs) == s
    ensures Distinct(xs)
  {
    xs := [];
    var rest := s;
    while rest != {}
      invariant Elements(xs) + rest == s
      invariant Elements(xs) !! rest
      invariant Distinct(xs)
      decreases rest
    {
      var v :| v in rest;
      xs := xs + [v];
      rest := rest - {v};
    }
  }

  /** A listing has at least as many entries as values, and exactly as many when it has no repeats. */
  lemma {:induction false} ListingLength<T>(s: seq<T>)
    ensures |Elements(s)| <= |s|
    ensures Distinct(s) ==> |Elements(s)| == |s|
  {
    if s != [] {
      var init := s[..|s| - 1];
      var last := s[|s| - 1];
      assert s == init + [last];
      assert Elements(s) == Elements(init) + {last};
      ListingLength(init);
      if Distinct(s) {
        assert last !in Elements(init) by {
          forall k | 0 <= k < |init| ensures init[k] != last {
            assert init[k] == s[k];
          }
        }
        assert Distinct(init) by {
          forall i, j | 0 <= i < j < |init| ensures init[i] != init[j] {
            assert init[i] == s[i] && init[j] == s[j];
          }
        }
      }
    }
  }

  /** Inserts `v` into an ascending sequence, keeping it ascending. */
  function Insert(v: u32, s: seq<u32>): (r: seq<u32>)
    requires Ascending(s)
    ensures Ascending(r)
    ensures multiset(r) == multiset(s) + multiset{v}
  {
    if s == [] || v <= s[0] then
      PrependLowest(v, s);
      [v] + s
    else
      var tail := Insert(v, s[1..]);
      BoundedBelow(s[0], s, v, tail);
      PrependLowest(s[0], tail);
      assert s == [s[0]] + s[1..];
      [s[0]] + tail
  }

  /** A value no larger than the head of an ascending sequence can go in front of it. */
  lemma PrependLowest(h: u32, t: seq<u32>)
    requires Ascending(t)
    requires t == [] || h <= t[0]
    ensures Ascending([h] + t)
  {
  }

  /** The tail of an insertion into `s` (with `s[0] <= v`) starts no lower than `s[0]`. */
  lemma BoundedBelow(h: u32, s: seq<u32>, v: u32, tail: seq<u32>)
    requires Ascending(s) && s != [] && h == s[0] && h <= v
    requires multiset(tail) == multiset(s[1..]) + multiset{v}
    ensures tail == [] || h <= tail[0]
  {
    if tail != [] {
      assert tail[0] in multiset(tail);
      if tail[0] != v {
        assert tail[0] in multiset(s[1..]);
        var k :| 0 <= k < |s[1..]| && s[1..][k] == tail[0];
        assert s[k + 1] == tail[0];
      }
    }
  }

  /** `Vec::sort`: an ascending permutation of its input. */
  function Sort(s: seq<u32>): (r: seq<u32>)
    ensures Ascending(r)
    ensures multiset(r) == multiset(s)
  {
    if s == [] then
      []
    else
      assert s == [s[0]] + s[1..];
      Insert(s[0], Sort(s[1..]))
  }

  /** A sequence has no repeated value exactly when no value occurs in it more than once. */
  lemma {:induction false} DistinctIffSingleCopies<T>(s: seq<T>)
    ensures Distinct(s) <==> forall e :: multiset(s)[e] <= 1
  {
    if s != [] {
      var t := s[1..];
      assert s == [s[0]] + t;
      DistinctIffSingleCopies(t);
      assert multiset(s) == multiset{s[0]} + multiset(t);
      if Distinct(s) {
        assert Distinct(t) by {
          forall i, j | 0 <= i < j < |t| ensures t[i] != t[j] {
            assert t[i] == s[i + 1] && t[j] == s[j + 1];
          }
        }
        assert s[0] !in t by {
          forall k | 0 <= k < |t| ensures t[k] != s[0] {
            assert t[k] == s[k + 1];
          }
        }
      }
      if forall e :: multiset(s)[e] <= 1 {
        assert multiset(s)[s[0]] <= 1;
        assert multiset(t)[s[0]] == 0;
        assert forall e :: multiset(t)[e] <= multiset(s)[e];
        forall i, j | 0 <= i < j < |s| ensures s[i] != s[j] {
          if i == 0 {
            assert s[j] == t[j - 1] && s[j] in t;
          } else {
            assert s[i] == t[i - 1] && s[j] == t[j - 1];
          }
        }
      }
    }
  }

  /** In a sequence without repeats every member occurs exactly once. */
  lemma DistinctCounts<T>(s: seq<T>)
    requires Distinct(s)
    ensures forall e :: multiset(s)[e] == if e in s then 1 else 0
  {
    DistinctIffSingleCopies(s);
  }

  /** A permutation of a repeat-free sequence is repeat-free and holds the same values. */
  lemma PermutationOfDistinct<T>(xs: seq<T>, ys: seq<T>)
    requires multiset(xs) == multiset(ys)
    requires Distinct(xs)
    ensures Distinct(ys)
    ensures Elements(ys) == Elements(xs)
  {
    DistinctIffSingleCopies(xs);
    DistinctIffSingleCopies(ys);
    assert forall e :: e in ys <==> e in multiset(ys);
    assert forall e :: e in xs <==> e in multiset(xs);
  }

  /** Sorting a repeat-free sequence gives the strictly ascending listing of its values. */
  lemma SortDistinct(xs: seq<u32>)
    requires Distinct(xs)
    ensures StrictlyAscending(Sort(xs))
    ensures Elements(Sort(xs)) == Elements(xs)
  {
    PermutationOfDistinct(xs, Sort(xs));
  }

  /** A set has exactly one strictly ascending listing. */
  lemma {:induction false} AscendingListingIsUnique(a: seq<u32>, b: seq<u32>)
    requires StrictlyAscending(a) && StrictlyAscending(b)
    requires Elements(a) == Elements(b)
    ensures a == b
  {
    if a == [] {
      assert forall k :: 0 <= k < |b| ==> b[k] in Elements(b);
    } else {
      assert a[0] in Elements(b);
      assert b != [];
      assert b[0] in Elements(a);
      assert a[0] == b[0];
      assert Elements(a[1..]) == Elements(a) - {a[0]} by {
        assert a == [a[0]] + a[1..];
      }
      assert Elements(b[1..]) == Elements(b) - {b[0]} by {
        assert b == [b[0]] + b[1..];
      }
      AscendingListingIsUnique(a[1..], b[1..]);
      assert a == [a[0]] + a[1..] && b == [b[0]] + b[1..];
    }
  }

  /**
   * `iter.max_by_key(key)` over a non-empty set: an element whose key no
   * other element exceeds. On ties Rust keeps the last one it meets; the
   * iteration order of a hash set is unspecified, so the model keeps the
   * last maximum in an arbitrary order.
   */
  method MaxByKey<T(==)>(s: set<T>, key: T -> nat) returns (best: T)
    requires s != {}
    ensures best in s
    ensures forall w :: w in s ==> key(w) <= key(best)
  {
    best :| best in s;
    var rest := s - {best};
    while rest != {}
      invariant rest <= s && best in s
      invariant forall w :: w in s - rest ==> key(w) <= key(best)
      decreases rest
    {
      var w :| w in rest;
      if key(w) >= key(best) {
        best := w;
      }
      rest := rest - {w};
    }
  }
}
