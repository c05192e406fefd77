/**
 * The adjacency structure of the route network (lib/graph.ts).
 *
 * `buildGraph` walks the flat edge collection once and appends every edge to
 * the bucket of its `from_stop`, creating the bucket on first use. Edges are
 * directed: nothing is added under `to_stop`.
 *
 * The source files each bucket under the text `String(id)` of the integer
 * stop id. That rendering is injective (`KeyOfInjective`) and never empty, so
 * the model names every key by the stop id itself.
 */
module TransitGraph {

  /** A stop, named by its integer id (the graph key is `String(id)`). */
  type StopId = int

  type RouteId = string

  /** One row of the edge collection, as the database returns it. */
  datatype EdgeRecord = EdgeRecord(from_stop: int, to_stop: int, route_id: RouteId, distance_km: nat)

  /** One entry of an adjacency list: `{ to, distance, route }`. */
  datatype GraphEdge = GraphEdge(to: StopId, distance: nat, route: RouteId)

  /** `Record<string, Array<{ to, distance, route }>>`, keyed by stop id. */
  type Graph = map<StopId, seq<GraphEdge>>

  /* ---------------------------------------------------------------------- */
  /* String(n) for integer stop ids                                          */
  /* ---------------------------------------------------------------------- */

  function DigitChar(d: nat): char
    requires d < 10
  {
    ('0' as int + d) as char
  }

  /** Decimal digits of a natural number, most significant first. */
  function Digits(n: nat): (s: string)
    ensures |s| > 0
    ensures s[0] != '-'
    ensures n < 10 <==> |s| == 1
    decreases n
  {
    if n < 10 then [DigitChar(n)] else Digits(n / 10) + [DigitChar(n % 10)]
  }

  /** `String(n)`: the text under which the source files stop `n`; never empty. */
  function KeyOf(n: int): (key: string)
    ensures |key| > 0
  {
    if n < 0 then "-" + Digits(-n) else Digits(n)
  }

  lemma DigitCharInjective(a: nat, b: nat)
    requires a < 10 && b < 10 && DigitChar(a) == DigitChar(b)
    ensures a == b
  {
  }

  lemma {:induction false} DigitsInjective(a: nat, b: nat)
    requires Digits(a) == Digits(b)
    ensures a == b
    decreases a
  {
    if a >= 10 && b >= 10 {
      var da, db := Digits(a), Digits(b);
      assert da[|da| - 1] == DigitChar(a % 10);
      assert db[|db| - 1] == DigitChar(b % 10);
      DigitCharInjective(a % 10, b % 10);
      assert Digits(a / 10) == da[..|da| - 1] == db[..|db| - 1] == Digits(b / 10);
      DigitsInjective(a / 10, b / 10);
    } else if a < 10 && b < 10 {
      assert Digits(a)[0] == DigitChar(a) && Digits(b)[0] == DigitChar(b);
      DigitCharInjective(a, b);
    }
  }

  /** Two different stop ids are never filed under the same key. */
  lemma KeyOfInjective(a: int, b: int)
    requires KeyOf(a) == KeyOf(b)
    ensures a == b
  {
    if a < 0 && b < 0 {
      assert KeyOf(a)[1..] == Digits(-a) && KeyOf(b)[1..] == Digits(-b);
      DigitsInjective(-a, -b);
    } else if a >= 0 && b >= 0 {
      DigitsInjective(a, b);
    }
  }

  /* ---------------------------------------------------------------------- */
  /* Reference definition of the grouping                                    */
  /* ---------------------------------------------------------------------- */

  /** The adjacency entry an edge row becomes; distance and route are copied unchanged. */
  function EntryOf(e: EdgeRecord): GraphEdge
  {
    GraphEdge(e.to_stop, e.distance_km, e.route_id)
  }

  /** The keys the grouping must produce: the `from_stop` of some row. */
  ghost function FromKeys(edges: seq<EdgeRecord>): set<StopId>
  {
    set e | e in edges :: e.from_stop
  }

  /** The entries of the rows filed under `k`, in input order. */
  function Bucket(edges: seq<EdgeRecord>, k: StopId): seq<GraphEdge>
    decreases |edges|
  {
    if edges == [] then []
    else
      var last := edges[|edges| - 1];
      Bucket(edges[..|edges| - 1], k) + if last.from_stop == k then [EntryOf(last)] else []
  }

  lemma FromKeysSnoc(edges: seq<EdgeRecord>, e: EdgeRecord)
    ensures FromKeys(edges + [e]) == FromKeys(edges) + {e.from_stop}
  {
    assert forall x | x in edges + [e] :: x in edges || x == e;
    assert forall x | x in edges :: x in edges + [e];
  }

  lemma BucketSnoc(edges: seq<EdgeRecord>, e: EdgeRecord, k: StopId)
    ensures Bucket(edges + [e], k) == Bucket(edges, k) + if e.from_stop == k then [EntryOf(e)] else []
  {
    assert (edges + [e])[..|edges|] == edges;
  }

  lemma {:induction false} BucketOfAbsentKey(edges: seq<EdgeRecord>, k: StopId)
    requires k !in FromKeys(edges)
    ensures Bucket(edges, k) == []
    decreases |edges|
  {
    if edges != [] {
      var pre := edges[..|edges| - 1];
      assert edges == pre + [edges[|edges| - 1]];
      FromKeysSnoc(pre, edges[|edges| - 1]);
      BucketOfAbsentKey(pre, k);
    }
  }

  /* ---------------------------------------------------------------------- */
  /* buildGraph                                                              */
  /* ---------------------------------------------------------------------- */

  /**
   * The grouping loop of `buildGraph`; the database fetch is the input `edges`.
   * The keys are exactly the `from_stop` values and every bucket lists the
   * entries of the rows with that `from_stop`, in input order.
   */
  method BuildGraph(edges: seq<EdgeRecord>) returns (graph: Graph)
    ensures graph.Keys == FromKeys(edges)
    ensures forall k | k in graph :: graph[k] == Bucket(edges, k)
  {
    graph := map[];
    for i := 0 to |edges|
      invariant graph.Keys == FromKeys(edges[..i])
      invariant forall k | k in graph :: graph[k] == Bucket(edges[..i], k)
    {
      var e := edges[i];
      var from := e.from_stop;
      var to := e.to_stop;
      ghost var done := edges[..i];
      if from !in graph {
        BucketOfAbsentKey(done, from);
        graph := graph[from := []];
      }
      graph := graph[from := graph[from] + [GraphEdge(to, e.distance_km, e.route_id)]];
      assert edges[..i + 1] == done + [e];
      FromKeysSnoc(done, e);
      forall k | k in graph
        ensures graph[k] == Bucket(done + [e], k)
      {
        BucketSnoc(done, e, k);
      }
    }
    assert edges[..|edges|] == edges;
  }

  /* ---------------------------------------------------------------------- */
  /* Properties of the grouping                                              */
  /* ---------------------------------------------------------------------- */

  /**
   * An entry is in the bucket of `k` exactly when some row filed under `k`
   * produced it: no entry is invented (in particular no reverse edge), and
   * every row is present.
   */
  lemma {:induction false} BucketMembers(edges: seq<EdgeRecord>, k: StopId, x: GraphEdge)
    ensures x in Bucket(edges, k) <==>
            exists i :: 0 <= i < |edges| && edges[i].from_stop == k && x == EntryOf(edges[i])
    decreases |edges|
  {
    if edges != [] {
      var n := |edges| - 1;
      var pre, last := edges[..n], edges[n];
      BucketMembers(pre, k, x);
      var hit := last.from_stop == k;
      assert Bucket(edges, k) == Bucket(pre, k) + if hit then [EntryOf(last)] else [];
      if x in Bucket(edges, k) {
        if x !in Bucket(pre, k) {
          assert hit && x == EntryOf(edges[n]);
        } else {
          var i :| 0 <= i < |pre| && pre[i].from_stop == k && x == EntryOf(pre[i]);
          assert edges[i] == pre[i];
        }
      } else {
        forall i | 0 <= i < |edges| && edges[i].from_stop == k
          ensures x != EntryOf(edges[i])
        {
          if i < n {
            assert pre[i] == edges[i];
          }
        }
      }
    }
  }

  /** Total number of entries in the buckets of `ks`, for any enumeration `ks` of keys. */
  function BucketTotal(edges: seq<EdgeRecord>, ks: seq<StopId>): nat
  {
    if ks == [] then 0 else |Bucket(edges, ks[0])| + BucketTotal(edges, ks[1..])
  }

  predicate Distinct(ks: seq<StopId>)
  {
    forall i, j | 0 <= i < j < |ks| :: ks[i] != ks[j]
  }

  /** Appending a row grows the bucket total by one exactly when its key is enumerated. */
  lemma {:induction false} BucketTotalSnoc(edges: seq<EdgeRecord>, e: EdgeRecord, ks: seq<StopId>)
    requires Distinct(ks)
    ensures BucketTotal(edges + [e], ks) == BucketTotal(edges, ks) + if e.from_stop in ks then 1 else 0
    decreases |ks|
  {
    if ks != [] {
      BucketSnoc(edges, e, ks[0]);
      assert Distinct(ks[1..]);
      BucketTotalSnoc(edges, e, ks[1..]);
      assert e.from_stop in ks <==> e.from_stop == ks[0] || e.from_stop in ks[1..];
      if e.from_stop == ks[0] {
        assert e.from_stop !in ks[1..];
      }
    }
  }

  /**
   * Every row produces exactly one entry: whatever order the keys are listed
   * in, the buckets hold `|edges|` entries in all.
   */
  lemma {:induction false} BucketTotalIsEdgeCount(edges: seq<EdgeRecord>, ks: seq<StopId>)
    requires Distinct(ks)
    requires FromKeys(edges) <= set k | k in ks
    ensures BucketTotal(edges, ks) == |edges|
    decreases |edges|
  {
    if edges == [] {
      BucketTotalEmpty(ks);
    } else {
      var n := |edges| - 1;
      var pre := edges[..n];
      assert edges == pre + [edges[n]];
      FromKeysSnoc(pre, edges[n]);
      BucketTotalIsEdgeCount(pre, ks);
      BucketTotalSnoc(pre, edges[n], ks);
    }
  }

  lemma {:induction false} BucketTotalEmpty(ks: seq<StopId>)
    ensures BucketTotal([], ks) == 0
    decreases |ks|
  {
    if ks != [] {
      BucketTotalEmpty(ks[1..]);
    }
  }

  /** What `BuildGraph` returns holds `|edges|` entries over any listing of its keys. */
  lemma BuiltGraphEntryCount(edges: seq<EdgeRecord>, graph: Graph, ks: seq<StopId>)
    requires graph.Keys == FromKeys(edges)
    requires forall k | k in graph :: graph[k] == Bucket(edges, k)
    requires Distinct(ks) && (set k | k in ks) == graph.Keys
    ensures EntryCount(graph, ks) == |edges|
  {
    EntryCountIsBucketTotal(edges, graph, ks);
    BucketTotalIsEdgeCount(edges, ks);
  }

  /** Number of adjacency entries of `graph` under the keys `ks`. */
  function EntryCount(graph: Graph, ks: seq<StopId>): nat
    requires forall i | 0 <= i < |ks| :: ks[i] in graph
  {
    if ks == [] then 0 else |graph[ks[0]]| + EntryCount(graph, ks[1..])
  }

  lemma {:induction false} EntryCountIsBucketTotal(edges: seq<EdgeRecord>, graph: Graph, ks: seq<StopId>)
    requires forall i | 0 <= i < |ks| :: ks[i] in graph && graph[ks[i]] == Bucket(edges, ks[i])
    ensures EntryCount(graph, ks) == BucketTotal(edges, ks)
    decreases |ks|
  {
    if ks != [] {
      EntryCountIsBucketTotal(edges, graph, ks[1..]);
    }
  }
}
