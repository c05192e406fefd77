/**
 * Walks through the adjacency of lib/graph.ts, as the route search of
 * lib/dijkstra.ts follows them: a walk is a sequence of adjacency entries,
 * each leaving the stop the previous one reached.
 */
module Walks {
  import opened Options
  import opened TransitGraph

  /** One `prev` entry `{ stop, route }`; `null` is `None`. */
  datatype Hop = Hop(stop: Option<StopId>, route: Option<RouteId>)

  /** `graph[u] || []`. */
  function Out(g: Graph, u: StopId): (es: seq<GraphEdge>)
    ensures u !in g ==> es == []
  {
    if u in g then g[u] else []
  }

  /** `es` is a sequence of adjacency entries leading from `s` to `t`. */
  ghost predicate IsWalk(g: Graph, s: StopId, es: seq<GraphEdge>, t: StopId)
    decreases |es|
  {
    if es == [] then s == t else es[0] in Out(g, s) && IsWalk(g, es[0].to, es[1..], t)
  }

  /** Sum of the distances along a walk. */
  function Cost(es: seq<GraphEdge>): nat
    decreases |es|
  {
    if es == [] then 0 else es[0].distance + Cost(es[1..])
  }

  /** The stops a walk from `s` visits, `s` first. */
  function Stops(s: StopId, es: seq<GraphEdge>): (p: seq<StopId>)
    ensures |p| == |es| + 1 && p[0] == s
    decreases |es|
  {
    [s] + if es == [] then [] else Stops(es[0].to, es[1..])
  }

  /** Each stop after `s` on the walk has a `prev` entry naming the stop before it and the route taken. */
  ghost predicate Linked(meta: map<StopId, Hop>, s: StopId, es: seq<GraphEdge>)
    decreases |es|
  {
    es != [] ==>
      es[0].to in meta && meta[es[0].to] == Hop(Some(s), Some(es[0].route)) && Linked(meta, es[0].to, es[1..])
  }

  ghost predicate Reachable(g: Graph, s: StopId, t: StopId)
  {
    exists es :: IsWalk(g, s, es, t)
  }

  /** Every stop the search can ever reach: `start` and every edge target. */
  ghost function Nodes(g: Graph, start: StopId): set<StopId>
  {
    {start} + set k, e | k in g && e in g[k] :: e.to
  }
}
