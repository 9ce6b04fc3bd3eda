/**
 * The edge-insertion loop of `csv_to_hashmap` in
 * `project_code/src/file_reading.rs`: every CSV row `(start, end)` adds
 * `end` to the neighbours of `start` and `start` to the neighbours of `end`,
 * creating either key on first use. The reader and the `u32` parser are
 * outside the model: the input is the sequence of records they produce.
 */
module FileReading {
  import opened Common
  import opened Graphs

  /** A CSV row: both columns parsed as `u32`, or a row the reader or the parser rejects. */
  datatype Record = Edge(start: u32, end: u32) | Unreadable

  /**
   * `Result<HashMap<..>, Box<dyn Error>>`. The source's error is the reader's
   * (which may carry a position) or the parser's (which names no row); the
   * model records the index of the first rejected record, at which the loop
   * stops.
   */
  datatype Outcome<T> = Ok(value: T) | Err(row: nat)

  /** The parsed rows among `records`, in order. */
  function Pairs(records: seq<Record>): seq<(u32, u32)>
  {
    if records == [] then []
    else
      var last := records[|records| - 1];
      Pairs(records[..|records| - 1]) + if last.Edge? then [(last.start, last.end)] else []
  }

  /** One row: the forward entry, then the reverse entry. */
  function AddEdge(g: Graph, a: u32, b: u32): Graph
  {
    var forward := g[a := Neighbours(g, a) + {b}];
    forward[b := Neighbours(forward, b) + {a}]
  }

  /** A row adds both its endpoints as keys and joins them in both directions, and nothing else. */
  lemma AddEdgeContents(g: Graph, a: u32, b: u32)
    ensures AddEdge(g, a, b).Keys == g.Keys + {a, b}
    ensures forall v, w :: w in Neighbours(AddEdge(g, a, b), v) <==>
      w in Neighbours(g, v) || (v == a && w == b) || (v == b && w == a)
  {
  }

  /** The map built from `rows`, processed in order from an empty map. */
  function Undirected(rows: seq<(u32, u32)>): Graph
  {
    if rows == [] then map[]
    else
      var last := rows[|rows| - 1];
      AddEdge(Undirected(rows[..|rows| - 1]), last.0, last.1)
  }

  /** Every vertex named by a row. */
  function Endpoints(rows: seq<(u32, u32)>): set<u32>
  {
    (set e | e in rows :: e.0) + (set e | e in rows :: e.1)
  }

  /** Some row joins `a` and `b`, in either direction. */
  predicate Linked(rows: seq<(u32, u32)>, a: u32, b: u32)
  {
    (a, b) in rows || (b, a) in rows
  }

  /**
   * The map holds exactly what the rows say: its keys are the endpoints
   * of the rows, and `b` is a neighbour of `a` exactly when some row joins
   * them in either direction.
   */
  lemma {:induction false} UndirectedContents(rows: seq<(u32, u32)>)
    ensures Undirected(rows).Keys == Endpoints(rows)
    ensures forall a, b :: b in Neighbours(Undirected(rows), a) <==> Linked(rows, a, b)
  {
    if rows != [] {
      var init := rows[..|rows| - 1];
      var last := rows[|rows| - 1];
      assert rows == init + [last];
      UndirectedContents(init);
      AddEdgeContents(Undirected(init), last.0, last.1);
      assert forall e :: e in rows <==> e in init || e == last;
      assert Endpoints(rows) == Endpoints(init) + {last.0, last.1};
      forall a, b ensures Linked(rows, a, b) <==>
        Linked(init, a, b) || (a == last.0 && b == last.1) || (a == last.1 && b == last.0)
      {
      }
    }
  }

  /** After any prefix of rows the map is symmetric: the clique search may run on it. */
  lemma UndirectedIsSymmetric(rows: seq<(u32, u32)>)
    ensures Symmetric(Undirected(rows))
  {
    UndirectedContents(rows);
  }

  /** Both endpoints of every row are keys, each listing the other. */
  lemma RowIsRecorded(rows: seq<(u32, u32)>, a: u32, b: u32)
    requires (a, b) in rows
    ensures a in Undirected(rows) && b in Undirected(rows)
    ensures b in Undirected(rows)[a] && a in Undirected(rows)[b]
  {
    UndirectedContents(rows);
    assert b in Neighbours(Undirected(rows), a) && a in Neighbours(Undirected(rows), b);
  }

  /** A key is only created together with an insertion, so no neighbour set is empty. */
  lemma NoEmptyNeighbourSets(rows: seq<(u32, u32)>)
    ensures forall v :: v in Undirected(rows) ==> Undirected(rows)[v] != {}
  {
    UndirectedContents(rows);
    forall v | v in Undirected(rows) ensures Undirected(rows)[v] != {} {
      assert v in Endpoints(rows);
      var e :| e in rows && (e.0 == v || e.1 == v);
      if e.0 == v {
        assert e.1 in Neighbours(Undirected(rows), v);
      } else {
        assert e.0 in Neighbours(Undirected(rows), v);
      }
    }
  }

  /** A row `(a, a)` is kept as a self-loop. */
  lemma SelfLoopRowIsKept(rows: seq<(u32, u32)>, a: u32)
    requires (a, a) in rows
    ensures HasSelfLoop(Undirected(rows), a)
  {
    UndirectedContents(rows);
  }

  /** Processing a row never removes a key or a neighbour. */
  lemma RowsOnlyAdd(rows: seq<(u32, u32)>, a: u32, b: u32)
    ensures Undirected(rows).Keys <= Undirected(rows + [(a, b)]).Keys
    ensures forall v :: Neighbours(Undirected(rows), v) <= Neighbours(Undirected(rows + [(a, b)]), v)
  {
    UndirectedStep(rows, a, b);
  }

  /** Repeating a row, or adding its reverse, leaves the map as it was. */
  lemma RepeatedRowChangesNothing(rows: seq<(u32, u32)>, a: u32, b: u32)
    requires Linked(rows, a, b)
    ensures Undirected(rows + [(a, b)]) == Undirected(rows)
  {
    var before := Undirected(rows);
    var after := Undirected(rows + [(a, b)]);
    UndirectedStep(rows, a, b);
    UndirectedContents(rows);
    assert b in Neighbours(before, a) && a in Neighbours(before, b);
    assert after.Keys == before.Keys;
    forall v | v in after ensures after[v] == before[v] {
      assert Neighbours(after, v) == Neighbours(before, v);
    }
  }

  /** The parsed rows of one more record. */
  lemma PairsStep(records: seq<Record>, i: nat)
    requires i < |records|
    ensures Pairs(records[..i + 1])
      == Pairs(records[..i]) + if records[i].Edge? then [(records[i].start, records[i].end)] else []
  {
    assert records[..i + 1][..i] == records[..i];
  }

  /** The map of one more row. */
  lemma UndirectedStep(rows: seq<(u32, u32)>, a: u32, b: u32)
    ensures Undirected(rows + [(a, b)]) == AddEdge(Undirected(rows), a, b)
  {
    assert (rows + [(a, b)])[..|rows|] == rows;
  }

  /**
   * The loop of `csv_to_hashmap`: the first rejected record ends the run
   * with an error and no map; otherwise the map built from all rows.
   */
  method CsvToHashmap(records: seq<Record>) returns (result: Outcome<Graph>)
    ensures result.Err? ==>
      && result.row < |records|
      && records[result.row].Unreadable?
      && forall k :: 0 <= k < result.row ==> records[k].Edge?
    ensures result.Ok? <==> forall k :: 0 <= k < |records| ==> records[k].Edge?
    ensures result.Ok? ==> result.value == Undirected(Pairs(records))
  {
    var graph: Graph := map[];
    for i := 0 to |records|
      invariant forall k :: 0 <= k < i ==> records[k].Edge?
      invariant graph == Undirected(Pairs(records[..i]))
    {
      match records[i]
      case Unreadable =>
        return Err(i);
      case Edge(start, end) =>
        ghost var before := graph;
        graph := graph[start := Neighbours(graph, start) + {end}];
        graph := graph[end := Neighbours(graph, end) + {start}];
        assert graph == AddEdge(before, start, end);
        PairsStep(records, i);
        UndirectedStep(Pairs(records[..i]), start, end);
    }
    assert records[..|records|] == records;
    return Ok(graph);
  }
}
