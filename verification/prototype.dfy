/**
 * The first prototype in `src/main.rs`: a directed adjacency map whose
 * values are vectors (each row appends its end vertex to the list of its
 * start vertex, duplicates included), and `find_connected_node`, the key
 * with the longest list.
 */
module Prototype {
  import opened Common
  import opened FileReading

  /** `HashMap<u32, Vec<u32>>`. */
  type Lists = map<u32, seq<u32>>

  /** `map.entry(start).or_insert_with(Vec::new).push(end)`. */
  function Push(m: Lists, a: u32, b: u32): Lists
  {
    m[a := (if a in m then m[a] else []) + [b]]
  }

  /** The map built from `rows`, processed in order from an empty map. */
  function Directed(rows: seq<(u32, u32)>): Lists
  {
    if rows == [] then map[]
    else
      var last := rows[|rows| - 1];
      Push(Directed(rows[..|rows| - 1]), last.0, last.1)
  }

  /** The end vertices of the rows that start at `a`, in row order. */
  function Targets(rows: seq<(u32, u32)>, a: u32): seq<u32>
  {
    if rows == [] then []
    else (if rows[0].0 == a then [rows[0].1] else []) + Targets(rows[1..], a)
  }

  /** The vertices some row starts at. */
  function Starts(rows: seq<(u32, u32)>): set<u32>
  {
    set e | e in rows :: e.0
  }

  lemma {:induction false} TargetsAppend(rows: seq<(u32, u32)>, e: (u32, u32), a: u32)
    ensures Targets(rows + [e], a) == Targets(rows, a) + if e.0 == a then [e.1] else []
  {
    if rows != [] {
      assert (rows + [e])[1..] == rows[1..] + [e];
      TargetsAppend(rows[1..], e, a);
    }
  }

  /** The map after one more row. */
  lemma DirectedStep(rows: seq<(u32, u32)>, a: u32, b: u32)
    ensures Directed(rows + [(a, b)]) == Push(Directed(rows), a, b)
  {
    assert (rows + [(a, b)])[..|rows|] == rows;
  }

  /**
   * The map holds exactly what the rows say: its keys are the start
   * vertices, and each key lists the end vertices of its rows in order,
   * once per row.
   */
  lemma {:induction false} DirectedContents(rows: seq<(u32, u32)>)
    ensures Directed(rows).Keys == Starts(rows)
    ensures forall a :: a in Directed(rows) ==> Directed(rows)[a] == Targets(rows, a)
  {
    if rows != [] {
      var init := rows[..|rows| - 1];
      var last := rows[|rows| - 1];
      assert rows == init + [last];
      DirectedContents(init);
      DirectedStep(init, last.0, last.1);
      assert forall e :: e in rows <==> e in init || e == last;
      assert Starts(rows) == Starts(init) + {last.0};
      forall a | a in Directed(rows) ensures Directed(rows)[a] == Targets(rows, a) {
        TargetsAppend(init, last, a);
        if a !in Directed(init) {
          assert Targets(init, a) == [] by {
            TargetsOfNonStart(init, a);
          }
        }
      }
    }
  }

  /** A vertex no row starts at has no targets. */
  lemma {:induction false} TargetsOfNonStart(rows: seq<(u32, u32)>, a: u32)
    requires a !in Starts(rows)
    ensures Targets(rows, a) == []
  {
    if rows != [] {
      assert rows[0] in rows;
      assert Starts(rows[1..]) <= Starts(rows) by {
        forall e | e in rows[1..] ensures e in rows { }
      }
      TargetsOfNonStart(rows[1..], a);
    }
  }

  /**
   * Duplicates are kept: a row appends its end vertex to its start
   * vertex's list even when it is already there, so the list grows by one.
   */
  lemma RowAppendsAgain(rows: seq<(u32, u32)>, a: u32, b: u32)
    requires (a, b) in rows
    ensures a in Directed(rows) && a in Directed(rows + [(a, b)])
    ensures Directed(rows + [(a, b)])[a] == Directed(rows)[a] + [b]
    ensures |Directed(rows + [(a, b)])[a]| == |Directed(rows)[a]| + 1
  {
    DirectedContents(rows);
    DirectedStep(rows, a, b);
  }

  /** The map is directed: a row `(1, 2)` makes 1 a key listing 2, but not 2 a key. */
  lemma OneWayOnly()
    ensures Directed([(1, 2)]) == map[1 := [2]]
    ensures 2 !in Directed([(1, 2)])
  {
    var rows: seq<(u32, u32)> := [(1, 2)];
    assert rows[..0] == [];
    assert Directed(rows) == Push(map[], 1, 2);
    assert [] + [2 as u32] == [2];
  }

  /** The loop of the prototype `csv_to_hashmap`: an error at the first rejected record, else the map of all rows. */
  method CsvToHashmap(records: seq<Record>) returns (result: Outcome<Lists>)
    ensures result.Err? ==>
      && result.row < |records|
      && records[result.row].Unreadable?
      && forall k :: 0 <= k < result.row ==> records[k].Edge?
    ensures result.Ok? <==> forall k :: 0 <= k < |records| ==> records[k].Edge?
    ensures result.Ok? ==> result.value == Directed(Pairs(records))
  {
    var lists: Lists := map[];
    for i := 0 to |records|
      invariant forall k :: 0 <= k < i ==> records[k].Edge?
      invariant lists == Directed(Pairs(records[..i]))
    {
      match records[i]
      case Unreadable =>
        return Err(i);
      case Edge(start, end) =>
        ghost var before := lists;
        var list := if start in lists then lists[start] else [];
        lists := lists[start := list + [end]];
        assert lists == Push(before, start, end);
        PairsStep(records, i);
        DirectedStep(Pairs(records[..i]), start, end);
    }
    assert records[..|records|] == records;
    return Ok(lists);
  }

  /**
   * `find_connected_node`: None exactly for the empty map; otherwise a key
   * whose list is at least as long as every other key's (which of several
   * longest is unspecified, as the map's iteration order is).
   */
  method FindConnectedNode(m: Lists) returns (node: Option<u32>)
    ensures node.None? <==> m == map[]
    ensures node.Some? ==> node.value in m && forall k :: k in m ==> |m[k]| <= |m[node.value]|
  {
    if m == map[] {
      return None;
    }
    assert m.Keys != {} by {
      var k :| k in m;
    }
    var key := MaxByKey(m.Keys, k => if k in m then |m[k]| else 0);
    return Some(key);
  }
}
