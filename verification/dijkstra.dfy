/**
 * `dijkstra(graph, start, goal)` of lib/dijkstra.ts: a binary-heap search
 * with lazy deletion of stale entries that stops when the goal is popped,
 * followed by the walk back along the `prev` links.
 *
 * Unreached stops are absent from `dist` (the source's `Infinity`); edge
 * distances are natural numbers, so no distance is negative.
 */
module RouteSearch {
  import opened Options
  import opened TransitGraph
  import opened PriorityQueue
  import opened Walks
  import opened SearchInvariant

  /** The value returned on success: `{ path, distance_km, meta }`. */
  datatype Found = Found(path: seq<StopId>, distance_km: nat, meta: map<StopId, Hop>)

  /** The proof's record `st` follows the program's `dist`, `prev` and heap contents. */
  ghost predicate Tracks(st: Search, dist: map<StopId, nat>, prev: map<StopId, Hop>, queue: multiset<Entry>)
  {
    st.dist == dist && st.prev == prev && st.queue == queue
  }

  /** Relaxing edge `k` of `u` in the proof's record is the program's update of `dist`, `prev` and the heap. */
  lemma RelaxTracks(g: Graph, st: Search, u: StopId, k: nat, e: GraphEdge, alt: nat,
                    dist: map<StopId, nat>, prev: map<StopId, Hop>, queue: multiset<Entry>)
    requires Tracks(st, dist, prev, queue) && u in dist && k < |Out(g, u)|
    requires e == Out(g, u)[k] && alt == dist[u] + e.distance
    ensures Tracks(Relax(g, st, u, k), dist[e.to := alt], prev[e.to := Hop(Some(u), Some(e.route))],
                   queue + multiset{Entry(alt, e.to)})
  {
  }

  /** Rank of a stop on the way back: settled stops by settling order, others after all of them. */
  ghost function BackRank(st: Search, c: StopId): nat
    requires st.rank.Keys == st.settled
  {
    if c in st.settled then st.rank[c] else |st.settled|
  }

  /* ---------------------------------------------------------------------- */
  /* Which edge wins a relaxation                                            */
  /* ---------------------------------------------------------------------- */

  /** Edge `k` of `edges`, taken from a stop at distance `du`, is shorter than what `dist0` records. */
  ghost predicate Improves(edges: seq<GraphEdge>, du: nat, dist0: map<StopId, nat>, k: nat)
    requires k < |edges|
  {
    edges[k].to !in dist0 || du + edges[k].distance < dist0[edges[k].to]
  }

  /** Some edge among the first `n` leads to `v` and is shorter than what `dist0` records. */
  ghost predicate Touched(edges: seq<GraphEdge>, n: nat, du: nat, dist0: map<StopId, nat>, v: StopId)
    requires n <= |edges|
  {
    exists k | 0 <= k < n && edges[k].to == v :: Improves(edges, du, dist0, k)
  }

  /**
   * Among the first `n` edges, edge `k` is the earliest of those to `v`
   * that have the least distance.
   */
  ghost predicate FirstBest(edges: seq<GraphEdge>, n: nat, v: StopId, k: int)
    requires n <= |edges|
  {
    && 0 <= k < n && edges[k].to == v
    && (forall j | 0 <= j < n && edges[j].to == v :: edges[k].distance <= edges[j].distance)
    && (forall j | 0 <= j < k && edges[j].to == v :: edges[k].distance < edges[j].distance)
  }

  /**
   * The effect on stop `v` of relaxing the first `n` edges of a stop `u` at
   * distance `du` with the strict `<`: if some of them bring `v` closer, it
   * holds the distance of the earliest shortest edge to it, and that edge in
   * `prev`; otherwise its `dist` and `prev` entries are those it had.
   */
  ghost predicate TieBreakAt(edges: seq<GraphEdge>, n: nat, u: StopId, du: nat,
                             dist0: map<StopId, nat>, prev0: map<StopId, Hop>,
                             dist: map<StopId, nat>, prev: map<StopId, Hop>, v: StopId)
    requires n <= |edges|
  {
    if Touched(edges, n, du, dist0, v) then
      exists k :: && FirstBest(edges, n, v, k)
                  && v in dist && dist[v] == du + edges[k].distance
                  && v in prev && prev[v] == Hop(Some(u), Some(edges[k].route))
    else
      && (v in dist <==> v in dist0) && (v in dist ==> dist[v] == dist0[v])
      && (v in prev <==> v in prev0) && (v in prev ==> prev[v] == prev0[v])
  }

  /** `TieBreakAt` for every stop. */
  ghost predicate TieBreak(edges: seq<GraphEdge>, n: nat, u: StopId, du: nat,
                           dist0: map<StopId, nat>, prev0: map<StopId, Hop>,
                           dist: map<StopId, nat>, prev: map<StopId, Hop>)
    requires n <= |edges|
  {
    forall v :: TieBreakAt(edges, n, u, du, dist0, prev0, dist, prev, v)
  }

  /** Before any edge is relaxed, nothing has changed. */
  lemma TieBreakStart(edges: seq<GraphEdge>, u: StopId, du: nat, dist0: map<StopId, nat>, prev0: map<StopId, Hop>)
    ensures TieBreak(edges, 0, u, du, dist0, prev0, dist0, prev0)
  {
  }

  /** A stop edge `k` does not lead to keeps its state, whatever happens to the target of edge `k`. */
  lemma TieBreakOther(edges: seq<GraphEdge>, k: nat, u: StopId, du: nat,
                      dist0: map<StopId, nat>, prev0: map<StopId, Hop>,
                      dist: map<StopId, nat>, prev: map<StopId, Hop>,
                      dist': map<StopId, nat>, prev': map<StopId, Hop>, v: StopId)
    requires k < |edges| && edges[k].to != v
    requires TieBreakAt(edges, k, u, du, dist0, prev0, dist, prev, v)
    requires (v in dist' <==> v in dist) && (v in dist ==> dist'[v] == dist[v])
    requires (v in prev' <==> v in prev) && (v in prev ==> prev'[v] == prev[v])
    ensures TieBreakAt(edges, k + 1, u, du, dist0, prev0, dist', prev', v)
  {
    if Touched(edges, k, du, dist0, v) {
      var b :| && FirstBest(edges, k, v, b)
               && v in dist && dist[v] == du + edges[b].distance
               && v in prev && prev[v] == Hop(Some(u), Some(edges[b].route));
      assert FirstBest(edges, k + 1, v, b);
    } else {
      assert !Touched(edges, k + 1, du, dist0, v);
    }
  }

  /** No edge brings the stop being expanded closer to itself, so its distance stays `du`. */
  lemma TieBreakSource(edges: seq<GraphEdge>, n: nat, u: StopId, du: nat,
                       dist0: map<StopId, nat>, prev0: map<StopId, Hop>,
                       dist: map<StopId, nat>, prev: map<StopId, Hop>)
    requires n <= |edges| && TieBreakAt(edges, n, u, du, dist0, prev0, dist, prev, u)
    requires u in dist0 && dist0[u] == du
    ensures u in dist && dist[u] == du
  {
    assert !Touched(edges, n, du, dist0, u);
  }

  /**
   * Edge `k` is strictly shorter than the current `dist` of its target: it
   * becomes that target's earliest shortest edge.
   */
  lemma TieBreakRelaxTarget(edges: seq<GraphEdge>, k: nat, u: StopId, du: nat,
                            dist0: map<StopId, nat>, prev0: map<StopId, Hop>,
                            dist: map<StopId, nat>, prev: map<StopId, Hop>)
    requires k < |edges| && TieBreakAt(edges, k, u, du, dist0, prev0, dist, prev, edges[k].to)
    requires edges[k].to !in dist || du + edges[k].distance < dist[edges[k].to]
    ensures TieBreakAt(edges, k + 1, u, du, dist0, prev0,
                       dist[edges[k].to := du + edges[k].distance],
                       prev[edges[k].to := Hop(Some(u), Some(edges[k].route))], edges[k].to)
  {
    var e := edges[k];
    assert Improves(edges, du, dist0, k) by {
      if Touched(edges, k, du, dist0, e.to) {
        var i :| 0 <= i < k && edges[i].to == e.to && Improves(edges, du, dist0, i);
        var b :| FirstBest(edges, k, e.to, b) && e.to in dist && dist[e.to] == du + edges[b].distance;
        assert edges[b].distance <= edges[i].distance;
      }
    }
    assert Touched(edges, k + 1, du, dist0, e.to);
    forall j | 0 <= j < k && edges[j].to == e.to
      ensures e.distance < edges[j].distance
    {
      if Touched(edges, k, du, dist0, e.to) {
        var b :| FirstBest(edges, k, e.to, b) && e.to in dist && dist[e.to] == du + edges[b].distance;
        assert edges[b].distance <= edges[j].distance;
      } else {
        assert !Improves(edges, du, dist0, j);
      }
    }
    assert FirstBest(edges, k + 1, e.to, k);
  }

  /** Edge `k` does not bring its target closer: the target keeps its state and its earliest shortest edge. */
  lemma TieBreakSkipTarget(edges: seq<GraphEdge>, k: nat, u: StopId, du: nat,
                           dist0: map<StopId, nat>, prev0: map<StopId, Hop>,
                           dist: map<StopId, nat>, prev: map<StopId, Hop>)
    requires k < |edges| && TieBreakAt(edges, k, u, du, dist0, prev0, dist, prev, edges[k].to)
    requires edges[k].to in dist && dist[edges[k].to] <= du + edges[k].distance
    ensures TieBreakAt(edges, k + 1, u, du, dist0, prev0, dist, prev, edges[k].to)
  {
    var v := edges[k].to;
    if Touched(edges, k, du, dist0, v) {
      var b :| && FirstBest(edges, k, v, b)
               && v in dist && dist[v] == du + edges[b].distance
               && v in prev && prev[v] == Hop(Some(u), Some(edges[b].route));
      assert FirstBest(edges, k + 1, v, b);
    } else {
      assert !Improves(edges, du, dist0, k);
      assert !Touched(edges, k + 1, du, dist0, v);
    }
  }

  /** Relaxing edge `k` of `u` extends `TieBreak` to the first `k + 1` edges. */
  lemma TieBreakRelax(edges: seq<GraphEdge>, k: nat, u: StopId, du: nat,
                      dist0: map<StopId, nat>, prev0: map<StopId, Hop>,
                      dist: map<StopId, nat>, prev: map<StopId, Hop>, e: GraphEdge, alt: nat)
    requires k < |edges| && TieBreak(edges, k, u, du, dist0, prev0, dist, prev)
    requires e == edges[k] && alt == du + e.distance
    requires e.to !in dist || alt < dist[e.to]
    ensures TieBreak(edges, k + 1, u, du, dist0, prev0, dist[e.to := alt], prev[e.to := Hop(Some(u), Some(e.route))])
  {
    var n := k + 1;
    var dist', prev' := dist[e.to := alt], prev[e.to := Hop(Some(u), Some(e.route))];
    forall v
      ensures TieBreakAt(edges, n, u, du, dist0, prev0, dist', prev', v)
    {
      if v == e.to {
        TieBreakRelaxTarget(edges, k, u, du, dist0, prev0, dist, prev);
      } else {
        TieBreakOther(edges, k, u, du, dist0, prev0, dist, prev, dist', prev', v);
      }
    }
  }

  /** Skipping edge `k` of `u` extends `TieBreak` to the first `k + 1` edges. */
  lemma TieBreakSkip(edges: seq<GraphEdge>, k: nat, u: StopId, du: nat,
                     dist0: map<StopId, nat>, prev0: map<StopId, Hop>,
                     dist: map<StopId, nat>, prev: map<StopId, Hop>)
    requires k < |edges| && TieBreak(edges, k, u, du, dist0, prev0, dist, prev)
    requires edges[k].to in dist && dist[edges[k].to] <= du + edges[k].distance
    ensures TieBreak(edges, k + 1, u, du, dist0, prev0, dist, prev)
  {
    var n := k + 1;
    forall v
      ensures TieBreakAt(edges, n, u, du, dist0, prev0, dist, prev, v)
    {
      if v == edges[k].to {
        TieBreakSkipTarget(edges, k, u, du, dist0, prev0, dist, prev);
      } else {
        TieBreakOther(edges, k, u, du, dist0, prev0, dist, prev, dist, prev, v);
      }
    }
  }

  /**
   * The `for (const edge of neighbors)` loop for the stop `u` just settled:
   * each edge whose target gets strictly closer through `u` updates `dist`
   * and `prev` and queues the target.
   */
  method Expand(graph: Graph, start: StopId, u: StopId, heap: MinHeap,
                dist0: map<StopId, nat>, prev0: map<StopId, Hop>, ghost st0: Search)
    returns (dist: map<StopId, nat>, prev: map<StopId, Hop>, ghost st: Search)
    requires heap.Valid() && Tracks(st0, dist0, prev0, multiset(heap.heap))
    requires Inv(graph, start, st0, Some(u), 0)
    modifies heap
    ensures heap.Valid() && Tracks(st, dist, prev, multiset(heap.heap))
    ensures Inv(graph, start, st, None, 0)
    ensures st.settled == st0.settled
    ensures u in dist0 && TieBreak(Out(graph, u), |Out(graph, u)|, u, dist0[u], dist0, prev0, dist, prev)
  {
    dist, prev, st := dist0, prev0, st0;
    var neighbors := Out(graph, u);
    TieBreakStart(neighbors, u, dist0[u], dist0, prev0);
    for k := 0 to |neighbors|
      invariant heap.Valid() && Tracks(st, dist, prev, multiset(heap.heap))
      invariant Inv(graph, start, st, Some(u), k) && st.settled == st0.settled
      invariant TieBreak(neighbors, k, u, dist0[u], dist0, prev0, dist, prev)
    {
      TieBreakSource(neighbors, k, u, dist0[u], dist0, prev0, dist, prev);
      EdgeStep(graph, start, st, u, k);
      var edge := neighbors[k];
      var v := edge.to;
      var alt := dist[u] + edge.distance;
      if v !in dist || alt < dist[v] {
        TieBreakRelax(neighbors, k, u, dist0[u], dist0, prev0, dist, prev, edge, alt);
        RelaxTracks(graph, st, u, k, edge, alt, dist, prev, multiset(heap.heap));
        dist := dist[v := alt];
        prev := prev[v := Hop(Some(u), Some(edge.route))];
        heap.Push(alt, v);
        st := Relax(graph, st, u, k);
      } else {
        TieBreakSkip(neighbors, k, u, dist0[u], dist0, prev0, dist, prev);
      }
    }
    CloseKeepsInv(graph, start, st, u);
  }

  /**
   * The `while (cur)` loop: from `goal`, prepend each stop and move to its
   * `prev` stop until there is none. The result is the stops of a walk from
   * `start` whose length is `dist[goal]`, linked by `prev` all along.
   */
  method Rebuild(graph: Graph, start: StopId, goal: StopId, dist: map<StopId, nat>, prev: map<StopId, Hop>,
                 ghost st: Search)
    returns (path: seq<StopId>)
    requires st.dist == dist && st.prev == prev && goal in dist
    requires StartFacts(graph, start, st) && NullPrev(st) && Explained(start, st) && LinkFacts(graph, st) && Ranked(st)
    ensures exists es :: IsWalk(graph, start, es, goal) && path == Stops(start, es) &&
                         Cost(es) == dist[goal] && Linked(prev, start, es)
    ensures start == goal ==> path == [start]
  {
    path := [];
    var cur: Option<StopId> := Some(goal);
    ghost var es: seq<GraphEdge> := [];
    while cur.Some?
      invariant cur.Some? ==>
                  && cur.value in dist && IsWalk(graph, cur.value, es, goal)
                  && dist[goal] == dist[cur.value] + Cost(es)
                  && path == Stops(cur.value, es)[1..] && Linked(prev, cur.value, es)
      invariant cur.None? ==>
                  && IsWalk(graph, start, es, goal) && dist[goal] == Cost(es)
                  && path == Stops(start, es) && Linked(prev, start, es)
      invariant start == goal ==> (cur == Some(goal) && path == []) || (cur.None? && path == [goal])
      decreases if cur.Some? then BackRank(st, cur.value) + 1 else 0
    {
      var c := cur.value;
      path := [c] + path;
      if c in prev && prev[c].stop.Some? {
        es := [st.via[c]] + es;
      }
      cur := if c in prev then prev[c].stop else None;
    }
  }

  /**
   * The initialisation and the `while (heap.size())` loop of `dijkstra`. On
   * return `goal` has a finite distance exactly when it is reachable, and
   * then that distance is the shortest; the `prev` links are those the
   * walk back follows.
   */
  method SearchFrom(graph: Graph, start: StopId, goal: StopId)
    returns (dist: map<StopId, nat>, prev: map<StopId, Hop>, ghost st: Search)
    ensures st.dist == dist && st.prev == prev
    ensures StartFacts(graph, start, st) && NullPrev(st) && Explained(start, st) && LinkFacts(graph, st) && Ranked(st)
    ensures Reachable(graph, start, goal) ==> goal in dist
    ensures goal in dist ==> forall es | IsWalk(graph, start, es, goal) :: dist[goal] <= Cost(es)
  {
    // Every graph key starts at Infinity (absent from `dist`) with a null `prev` entry.
    dist := map[];
    prev := map k | k in graph :: Hop(None, None);
    var heap := new MinHeap();

    dist := dist[start := 0];
    heap.Push(0, start);
    st := InitialSearch(graph, start);
    InitialInv(graph, start);

    var n := heap.Size();
    while n != 0
      invariant heap.Valid() && n == |heap.heap| && Tracks(st, dist, prev, multiset(heap.heap))
      invariant Inv(graph, start, st, None, 0)
      decreases |Nodes(graph, start) - st.settled|, |heap.heap|
    {
      ghost var h := heap.heap;
      var top := heap.Pop();
      if top.None? {
        break;
      }
      PopStep(graph, start, st, h, top.value);
      RemovedEntry(multiset(heap.heap), multiset(h), top.value);
      var d, u := top.value.priority, top.value.stop;
      if d > dist[u] {
        st := st.(queue := st.queue - multiset{top.value});
        n := heap.Size();
        continue;
      }
      if u == goal {
        break;
      }
      st := Settle(st, top.value);
      dist, prev, st := Expand(graph, start, u, heap, dist, prev, st);
      n := heap.Size();
    }
    if n == 0 {
      EmptyQueueFinal(graph, start, st, goal);
    }
  }

  /**
   * `dijkstra(graph, start, goal)`. The result is `None` exactly when no walk
   * leads from `start` to `goal`; otherwise the path is the stops of a walk
   * whose length is `distance_km`, every `meta` entry along it names the stop
   * before and the route taken, and no walk is shorter.
   */
  method Dijkstra(graph: Graph, start: StopId, goal: StopId) returns (r: Option<Found>)
    ensures r.None? <==> !Reachable(graph, start, goal)
    ensures r.Some? ==>
              exists es :: IsWalk(graph, start, es, goal) && r.value.path == Stops(start, es) &&
                           Cost(es) == r.value.distance_km && Linked(r.value.meta, start, es)
    ensures r.Some? ==> forall es | IsWalk(graph, start, es, goal) :: r.value.distance_km <= Cost(es)
    ensures r.Some? ==> graph.Keys <= r.value.meta.Keys
    ensures start == goal ==> r.Some? && r.value.path == [start] && r.value.distance_km == 0
  {
    var dist, prev, st := SearchFrom(graph, start, goal);
    if goal !in dist {
      return None;
    }
    var path := Rebuild(graph, start, goal, dist, prev, st);
    r := Some(Found(path, dist[goal], prev));
  }
}
