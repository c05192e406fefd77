/**
 * The invariant of the search loop of lib/dijkstra.ts and the reasons each
 * step of the loop keeps it: discarding a stale heap entry, settling the stop
 * of a current entry, relaxing (or skipping) one of its edges.
 *
 * `dist` holds only the stops whose distance is finite: a stop that is absent
 * is at `Infinity` in the source.
 */
module SearchInvariant {
  import opened Options
  import opened TransitGraph
  import opened PriorityQueue
  import opened Walks

  /**
   * The state of the search: the source's `dist`, `prev` and heap contents,
   * plus the proof's bookkeeping: the adjacency entry behind every `prev`
   * link (`via`), the stops whose distance is final (`settled`) and the
   * order in which they were settled (`rank`).
   */
  datatype Search = Search(
    dist: map<StopId, nat>,
    prev: map<StopId, Hop>,
    via: map<StopId, GraphEdge>,
    settled: set<StopId>,
    rank: map<StopId, nat>,
    queue: multiset<Entry>)

  /* ---------------------------------------------------------------------- */
  /* The pieces of the invariant                                             */
  /* ---------------------------------------------------------------------- */

  /** `dist[start] = 0` for good, every finite stop is reachable in principle, every graph key has a `prev` entry. */
  ghost predicate StartFacts(g: Graph, start: StopId, st: Search)
  {
    && start in st.dist && st.dist[start] == 0 && start !in st.via
    && st.dist.Keys <= Nodes(g, start)
    && g.Keys <= st.prev.Keys
  }

  /** A `prev` entry without a link is `{ stop: null, route: null }`. */
  ghost predicate NullPrev(st: Search)
  {
    forall v | v in st.prev && v !in st.via :: st.prev[v] == Hop(None, None)
  }

  /** Every finite distance other than `start`'s comes from a link. */
  ghost predicate Explained(start: StopId, st: Search)
  {
    forall v | v in st.dist :: v == start || v in st.via
  }

  /**
   * A link `prev[v] = { stop: u, route }` comes from a settled stop `u`
   * through an adjacency entry of `u` on that route, and `dist[v]` is
   * `dist[u]` plus that entry's distance.
   */
  ghost predicate LinkFacts(g: Graph, st: Search)
  {
    forall v | v in st.via ::
      && v in st.prev && v in st.dist && st.prev[v].stop.Some?
      && st.prev[v].route == Some(st.via[v].route)
      && st.via[v].to == v
      && var u := st.prev[v].stop.value;
         u in st.settled && u in st.dist && st.via[v] in Out(g, u)
         && st.dist[v] == st.dist[u] + st.via[v].distance
  }

  /** A settled stop's link points to a stop settled before it. */
  ghost predicate Ranked(st: Search)
  {
    && st.rank.Keys == st.settled
    && (forall s | s in st.settled :: st.rank[s] < |st.settled|)
    && (forall v | v in st.via && v in st.settled && v in st.prev && st.prev[v].stop.Some? ::
          st.prev[v].stop.value in st.settled && st.rank[st.prev[v].stop.value] < st.rank[v])
  }

  /** Settled distances are those of shortest walks. */
  ghost predicate Shortest(g: Graph, start: StopId, st: Search)
  {
    && st.settled <= st.dist.Keys
    && (forall s, es | s in st.settled && IsWalk(g, start, es, s) :: st.dist[s] <= Cost(es))
  }

  /** No settled distance exceeds a finite unsettled one. */
  ghost predicate SettledFirst(st: Search)
  {
    forall s, v | s in st.settled && s in st.dist && v in st.dist && v !in st.settled :: st.dist[s] <= st.dist[v]
  }

  /**
   * Every edge out of a settled stop has been relaxed, except that for the
   * stop `open` being expanded only its first `k` edges have; `open` has the
   * largest settled distance.
   */
  ghost predicate Relaxed(g: Graph, st: Search, open: Option<StopId>, k: nat)
  {
    && st.settled <= st.dist.Keys
    && (forall s, i | s in st.settled && 0 <= i < |Out(g, s)| && (open == Some(s) ==> i < k) ::
          s in st.dist && Out(g, s)[i].to in st.dist && st.dist[Out(g, s)[i].to] <= st.dist[s] + Out(g, s)[i].distance)
    && (open.Some? ==> open.value in st.settled && open.value in st.dist &&
                       forall s | s in st.settled && s in st.dist :: st.dist[s] <= st.dist[open.value])
  }

  /** No heap entry is below the distance of its stop. */
  ghost predicate QueueAbove(st: Search)
  {
    forall x | x in st.queue :: x.stop in st.dist && st.dist[x.stop] <= x.priority
  }

  /** The remaining entries of a settled stop are all stale. */
  ghost predicate QueueStale(st: Search)
  {
    forall x | x in st.queue && x.stop in st.settled && x.stop in st.dist :: st.dist[x.stop] < x.priority
  }

  /** An unsettled stop with a finite distance has exactly one entry at that distance. */
  ghost predicate QueueCurrent(st: Search)
  {
    forall v | v in st.dist && v !in st.settled :: st.queue[Entry(st.dist[v], v)] == 1
  }

  /** Every heap entry is at least every settled distance. */
  ghost predicate QueueAfterSettled(st: Search)
  {
    forall s, x | s in st.settled && s in st.dist && x in st.queue :: st.dist[s] <= x.priority
  }

  ghost predicate Inv(g: Graph, start: StopId, st: Search, open: Option<StopId>, k: nat)
  {
    && StartFacts(g, start, st) && NullPrev(st) && Explained(start, st) && LinkFacts(g, st)
    && Ranked(st) && Shortest(g, start, st) && SettledFirst(st) && Relaxed(g, st, open, k)
    && QueueAbove(st) && QueueStale(st) && QueueCurrent(st) && QueueAfterSettled(st)
  }

  /* ---------------------------------------------------------------------- */
  /* Why popped stops are settled correctly                                  */
  /* ---------------------------------------------------------------------- */

  /**
   * A walk from a settled stop to an unsettled one leaves the settled set
   * through a relaxed edge: some unsettled stop with a finite distance is no
   * farther than the walk.
   */
  lemma {:induction false} Frontier(g: Graph, st: Search, s: StopId, es: seq<GraphEdge>, t: StopId)
    requires Relaxed(g, st, None, 0)
    requires s in st.settled && t !in st.settled && IsWalk(g, s, es, t)
    ensures exists y :: y in st.dist && y !in st.settled && st.dist[y] <= st.dist[s] + Cost(es)
    decreases |es|
  {
    var e := es[0];
    var i :| 0 <= i < |Out(g, s)| && Out(g, s)[i] == e;
    var x := e.to;
    assert x in st.dist && st.dist[x] <= st.dist[s] + e.distance;
    if x !in st.settled {
      assert st.dist[x] <= st.dist[s] + Cost(es);
    } else {
      Frontier(g, st, x, es[1..], t);
    }
  }

  /** `Frontier` without the precondition that `t` is unsettled. */
  lemma SettledOrFrontier(g: Graph, st: Search, s: StopId, es: seq<GraphEdge>, t: StopId)
    requires Relaxed(g, st, None, 0)
    requires s in st.settled && IsWalk(g, s, es, t)
    ensures t in st.settled || exists y :: y in st.dist && y !in st.settled && st.dist[y] <= st.dist[s] + Cost(es)
  {
    if t !in st.settled {
      Frontier(g, st, s, es, t);
    }
  }

  /** A popped entry that is not stale carries the shortest distance to its stop. */
  lemma PoppedIsOptimal(g: Graph, start: StopId, st: Search, top: Entry)
    requires StartFacts(g, start, st) && Relaxed(g, st, None, 0)
    requires QueueStale(st) && QueueCurrent(st)
    requires top in st.queue && forall x | x in st.queue :: top.priority <= x.priority
    requires top.stop in st.dist && top.priority == st.dist[top.stop]
    ensures top.stop !in st.settled
    ensures forall es | IsWalk(g, start, es, top.stop) :: st.dist[top.stop] <= Cost(es)
  {
    var u := top.stop;
    forall es | IsWalk(g, start, es, u)
      ensures st.dist[u] <= Cost(es)
    {
      if start !in st.settled {
        assert Entry(st.dist[start], start) in st.queue;
      } else {
        Frontier(g, st, start, es, u);
        var y :| y in st.dist && y !in st.settled && st.dist[y] <= st.dist[start] + Cost(es);
        assert Entry(st.dist[y], y) in st.queue;
      }
    }
  }

  /** Once the heap is empty every reachable stop is settled. */
  lemma EmptyQueueSettlesAll(g: Graph, start: StopId, st: Search, t: StopId)
    requires StartFacts(g, start, st) && Relaxed(g, st, None, 0) && QueueCurrent(st)
    requires st.queue == multiset{} && Reachable(g, start, t)
    ensures t in st.settled
  {
    forall y | y in st.dist
      ensures y in st.settled
    {
      assert st.queue[Entry(st.dist[y], y)] == 0;
    }
    var es :| IsWalk(g, start, es, t);
    SettledOrFrontier(g, st, start, es, t);
  }

  /* ---------------------------------------------------------------------- */
  /* The first state and discarding a stale entry                            */
  /* ---------------------------------------------------------------------- */

  /** The state before the first pop: only `start`, at distance 0, queued once. */
  function InitialSearch(g: Graph, start: StopId): Search
  {
    Search(map[start := 0], map k | k in g :: Hop(None, None), map[], {}, map[], multiset{Entry(0, start)})
  }

  lemma InitialInv(g: Graph, start: StopId)
    ensures Inv(g, start, InitialSearch(g, start), None, 0)
  {
  }

  lemma StaleQueue(st: Search, top: Entry)
    requires QueueAbove(st) && QueueStale(st) && QueueCurrent(st) && QueueAfterSettled(st)
    requires top in st.queue && top.stop in st.dist && top.priority > st.dist[top.stop]
    ensures var st' := st.(queue := st.queue - multiset{top});
            QueueAbove(st') && QueueStale(st') && QueueCurrent(st') && QueueAfterSettled(st')
  {
    var q := st.queue - multiset{top};
    SubQueue(st, q);
    StaleCurrent(st, top);
  }

  /** Fewer heap entries keep every bound on the entries that remain. */
  lemma SubQueue(st: Search, q: multiset<Entry>)
    requires q <= st.queue
    ensures QueueAbove(st) ==> QueueAbove(st.(queue := q))
    ensures QueueStale(st) ==> QueueStale(st.(queue := q))
    ensures QueueAfterSettled(st) ==> QueueAfterSettled(st.(queue := q))
  {
  }

  /** Removing an entry above its stop's distance leaves every current entry in place. */
  lemma StaleCurrent(st: Search, top: Entry)
    requires QueueCurrent(st) && top.stop in st.dist && top.priority > st.dist[top.stop]
    ensures QueueCurrent(st.(queue := st.queue - multiset{top}))
  {
    var st' := st.(queue := st.queue - multiset{top});
    forall v | v in st.dist && v !in st.settled
      ensures st'.queue[Entry(st.dist[v], v)] == 1
    {
      assert Entry(st.dist[v], v) != top;
    }
  }

  /** Discarding a stale entry changes nothing else. */
  lemma StaleKeepsInv(g: Graph, start: StopId, st: Search, top: Entry)
    requires Inv(g, start, st, None, 0) && top in st.queue
    requires top.priority > st.dist[top.stop]
    ensures Inv(g, start, st.(queue := st.queue - multiset{top}), None, 0)
  {
    StaleQueue(st, top);
  }

  /* ---------------------------------------------------------------------- */
  /* Settling the stop of a current entry                                    */
  /* ---------------------------------------------------------------------- */

  /** The state after popping `top` and settling its stop. */
  function Settle(st: Search, top: Entry): Search
  {
    st.(settled := st.settled + {top.stop},
        rank := st.rank[top.stop := |st.settled|],
        queue := st.queue - multiset{top})
  }

  /** The popped entry is a minimum, current, and its stop not yet settled. */
  ghost predicate Current(st: Search, top: Entry)
  {
    && top in st.queue && (forall x | x in st.queue :: top.priority <= x.priority)
    && top.stop in st.dist && top.priority == st.dist[top.stop] && top.stop !in st.settled
  }

  lemma SettleLinks(g: Graph, st: Search, top: Entry)
    requires LinkFacts(g, st)
    ensures LinkFacts(g, Settle(st, top))
  {
  }

  /** Every link starts at a settled stop (part of `LinkFacts`). */
  ghost predicate ParentsSettled(st: Search)
  {
    forall v | v in st.via :: v in st.prev && st.prev[v].stop.Some? && st.prev[v].stop.value in st.settled
  }

  lemma SettleRanked(st: Search, top: Entry)
    requires Ranked(st) && ParentsSettled(st) && top.stop !in st.settled
    ensures Ranked(Settle(st, top))
  {
    SettleRankBound(st, top);
    SettleRankOrder(st, top);
  }

  /** The new stop takes the next rank, below the new number of settled stops. */
  lemma SettleRankBound(st: Search, top: Entry)
    requires st.rank.Keys == st.settled && top.stop !in st.settled
    requires forall s | s in st.settled :: st.rank[s] < |st.settled|
    ensures Settle(st, top).rank.Keys == Settle(st, top).settled
    ensures forall s | s in Settle(st, top).settled :: Settle(st, top).rank[s] < |Settle(st, top).settled|
  {
    var u, st' := top.stop, Settle(st, top);
    assert |st'.settled| == |st.settled| + 1;
    forall s | s in st'.settled
      ensures st'.rank[s] < |st'.settled|
    {
      if s != u {
        assert st'.rank[s] == st.rank[s];
      }
    }
  }

  /** Links of settled stops still point to stops of smaller rank. */
  lemma SettleRankOrder(st: Search, top: Entry)
    requires Ranked(st) && ParentsSettled(st) && top.stop !in st.settled
    ensures var st' := Settle(st, top);
            forall v | v in st'.via && v in st'.settled && v in st'.prev && st'.prev[v].stop.Some? ::
              st'.prev[v].stop.value in st'.settled && st'.rank[st'.prev[v].stop.value] < st'.rank[v]
  {
    var st' := Settle(st, top);
    forall v | v in st'.via && v in st'.settled && v in st'.prev && st'.prev[v].stop.Some?
      ensures st'.prev[v].stop.value in st'.settled && st'.rank[st'.prev[v].stop.value] < st'.rank[v]
    {
      var p := st.prev[v].stop.value;
      assert p in st.settled;
      assert st'.rank[p] == st.rank[p];
    }
  }

  lemma SettleShortest(g: Graph, start: StopId, st: Search, top: Entry)
    requires Shortest(g, start, st) && top.stop in st.dist
    requires forall es | IsWalk(g, start, es, top.stop) :: st.dist[top.stop] <= Cost(es)
    ensures Shortest(g, start, Settle(st, top))
  {
  }

  lemma SettleFirst(st: Search, top: Entry)
    requires SettledFirst(st) && QueueCurrent(st) && Current(st, top)
    ensures SettledFirst(Settle(st, top))
  {
    var st' := Settle(st, top);
    forall s, v | s in st'.settled && s in st.dist && v in st.dist && v !in st'.settled
      ensures st.dist[s] <= st.dist[v]
    {
      assert Entry(st.dist[v], v) in st.queue;
    }
  }

  lemma SettleRelaxed(g: Graph, st: Search, top: Entry)
    requires Relaxed(g, st, None, 0) && QueueAfterSettled(st) && Current(st, top)
    ensures Relaxed(g, Settle(st, top), Some(top.stop), 0)
  {
  }

  lemma SettleQueue(st: Search, top: Entry)
    requires QueueAbove(st) && QueueStale(st) && QueueCurrent(st) && QueueAfterSettled(st)
    requires Current(st, top)
    ensures var st' := Settle(st, top);
            QueueAbove(st') && QueueStale(st') && QueueCurrent(st') && QueueAfterSettled(st')
  {
    var st' := Settle(st, top);
    assert st'.queue[top] == 0;
    forall v | v in st.dist && v !in st'.settled
      ensures st'.queue[Entry(st.dist[v], v)] == 1
    {
      assert Entry(st.dist[v], v) != top;
    }
  }

  /** Popping a current entry settles its stop; none of its edges is relaxed yet. */
  lemma SettleKeepsInv(g: Graph, start: StopId, st: Search, top: Entry)
    requires Inv(g, start, st, None, 0) && Current(st, top)
    requires forall es | IsWalk(g, start, es, top.stop) :: st.dist[top.stop] <= Cost(es)
    ensures Inv(g, start, Settle(st, top), Some(top.stop), 0)
  {
    SettleLinks(g, st, top);
    assert ParentsSettled(st);
    SettleRanked(st, top);
    SettleShortest(g, start, st, top);
    SettleFirst(st, top);
    SettleRelaxed(g, st, top);
    SettleQueue(st, top);
  }

  /* ---------------------------------------------------------------------- */
  /* Relaxing one edge of the settled stop                                   */
  /* ---------------------------------------------------------------------- */

  /** An edge whose target is already as close keeps the invariant with one more edge done. */
  lemma SkipKeepsInv(g: Graph, start: StopId, st: Search, u: StopId, k: nat)
    requires Inv(g, start, st, Some(u), k) && k < |Out(g, u)|
    requires Out(g, u)[k].to in st.dist && st.dist[Out(g, u)[k].to] <= st.dist[u] + Out(g, u)[k].distance
    ensures Inv(g, start, st, Some(u), k + 1)
  {
  }

  /** The state after relaxing edge `k` of `u`: new `dist`, `prev` and a fresh heap entry. */
  function Relax(g: Graph, st: Search, u: StopId, k: nat): Search
    requires u in st.dist && k < |Out(g, u)|
  {
    var e := Out(g, u)[k];
    var alt := st.dist[u] + e.distance;
    st.(dist := st.dist[e.to := alt],
        prev := st.prev[e.to := Hop(Some(u), Some(e.route))],
        via := st.via[e.to := e],
        queue := st.queue + multiset{Entry(alt, e.to)})
  }

  /** Relaxing only lowers distances: no stop loses its finite distance and none grows. */
  lemma RelaxNeverIncreases(g: Graph, st: Search, u: StopId, k: nat)
    requires Improves(g, st, u, k)
    ensures st.dist.Keys <= Relax(g, st, u, k).dist.Keys
    ensures forall v | v in st.dist :: Relax(g, st, u, k).dist[v] <= st.dist[v]
  {
  }

  /** Edge `k` of the open stop `u` makes its target strictly closer. */
  ghost predicate Improves(g: Graph, st: Search, u: StopId, k: nat)
  {
    && u in st.dist && k < |Out(g, u)|
    && var e := Out(g, u)[k];
       e.to !in st.dist || st.dist[u] + e.distance < st.dist[e.to]
  }

  /** The improved target is neither settled, nor `start`, nor `u`. */
  lemma RelaxTarget(g: Graph, start: StopId, st: Search, u: StopId, k: nat)
    requires StartFacts(g, start, st) && Relaxed(g, st, Some(u), k) && Improves(g, st, u, k)
    ensures Out(g, u)[k].to !in st.settled && Out(g, u)[k].to != start && Out(g, u)[k].to != u
    ensures Out(g, u)[k].to in Nodes(g, start)
  {
    var e := Out(g, u)[k];
    assert u in g && e in g[u];
  }

  /** What relaxing needs to know about the target. */
  ghost predicate FreshTarget(g: Graph, start: StopId, st: Search, u: StopId, k: nat)
  {
    && Improves(g, st, u, k)
    && u in st.settled
    && var v := Out(g, u)[k].to;
       v !in st.settled && v != start && v != u && v in Nodes(g, start)
  }

  lemma RelaxStart(g: Graph, start: StopId, st: Search, u: StopId, k: nat)
    requires StartFacts(g, start, st) && NullPrev(st) && Explained(start, st) && FreshTarget(g, start, st, u, k)
    ensures var st' := Relax(g, st, u, k);
            StartFacts(g, start, st') && NullPrev(st') && Explained(start, st')
  {
  }

  lemma RelaxLinks(g: Graph, start: StopId, st: Search, u: StopId, k: nat)
    requires LinkFacts(g, st) && FreshTarget(g, start, st, u, k)
    ensures LinkFacts(g, Relax(g, st, u, k))
  {
  }

  lemma RelaxRanked(g: Graph, start: StopId, st: Search, u: StopId, k: nat)
    requires Ranked(st) && FreshTarget(g, start, st, u, k)
    ensures Ranked(Relax(g, st, u, k))
  {
  }

  lemma RelaxShortest(g: Graph, start: StopId, st: Search, u: StopId, k: nat)
    requires Shortest(g, start, st) && FreshTarget(g, start, st, u, k)
    ensures Shortest(g, start, Relax(g, st, u, k))
  {
  }

  lemma RelaxFirst(g: Graph, start: StopId, st: Search, u: StopId, k: nat)
    requires SettledFirst(st) && Relaxed(g, st, Some(u), k) && FreshTarget(g, start, st, u, k)
    ensures SettledFirst(Relax(g, st, u, k))
  {
  }

  lemma RelaxRelaxed(g: Graph, start: StopId, st: Search, u: StopId, k: nat)
    requires Relaxed(g, st, Some(u), k) && FreshTarget(g, start, st, u, k)
    ensures Relaxed(g, Relax(g, st, u, k), Some(u), k + 1)
  {
  }

  lemma RelaxQueueAbove(g: Graph, start: StopId, st: Search, u: StopId, k: nat)
    requires QueueAbove(st) && Relaxed(g, st, Some(u), k) && FreshTarget(g, start, st, u, k)
    ensures QueueAbove(Relax(g, st, u, k))
  {
  }

  lemma RelaxQueueStale(g: Graph, start: StopId, st: Search, u: StopId, k: nat)
    requires QueueStale(st) && Relaxed(g, st, Some(u), k) && FreshTarget(g, start, st, u, k)
    ensures QueueStale(Relax(g, st, u, k))
  {
  }

  lemma RelaxQueueCurrent(g: Graph, start: StopId, st: Search, u: StopId, k: nat)
    requires QueueAbove(st) && QueueCurrent(st) && FreshTarget(g, start, st, u, k)
    ensures QueueCurrent(Relax(g, st, u, k))
  {
    var e := Out(g, u)[k];
    assert st.queue[Entry(st.dist[u] + e.distance, e.to)] == 0;
  }

  lemma RelaxQueueAfterSettled(g: Graph, start: StopId, st: Search, u: StopId, k: nat)
    requires QueueAfterSettled(st) && Relaxed(g, st, Some(u), k) && FreshTarget(g, start, st, u, k)
    ensures QueueAfterSettled(Relax(g, st, u, k))
  {
  }

  lemma RelaxKeepsInv(g: Graph, start: StopId, st: Search, u: StopId, k: nat)
    requires Inv(g, start, st, Some(u), k) && Improves(g, st, u, k)
    ensures Inv(g, start, Relax(g, st, u, k), Some(u), k + 1)
  {
    RelaxTarget(g, start, st, u, k);
    RelaxStart(g, start, st, u, k);
    RelaxLinks(g, start, st, u, k);
    RelaxRanked(g, start, st, u, k);
    RelaxShortest(g, start, st, u, k);
    RelaxFirst(g, start, st, u, k);
    RelaxRelaxed(g, start, st, u, k);
    RelaxQueueAbove(g, start, st, u, k);
    RelaxQueueStale(g, start, st, u, k);
    RelaxQueueCurrent(g, start, st, u, k);
    RelaxQueueAfterSettled(g, start, st, u, k);
  }

  /** All edges of the open stop relaxed: back to the invariant between pops. */
  lemma CloseKeepsInv(g: Graph, start: StopId, st: Search, u: StopId)
    requires Inv(g, start, st, Some(u), |Out(g, u)|)
    ensures Inv(g, start, st, None, 0)
  {
  }

  /** One pass of the loop on an edge: relaxed if it improves its target, skipped otherwise. */
  lemma EdgeStep(g: Graph, start: StopId, st: Search, u: StopId, k: nat)
    requires Inv(g, start, st, Some(u), k) && k < |Out(g, u)|
    ensures u in st.dist
    ensures Improves(g, st, u, k) ==> Inv(g, start, Relax(g, st, u, k), Some(u), k + 1)
    ensures !Improves(g, st, u, k) ==> Inv(g, start, st, Some(u), k + 1)
  {
    if Improves(g, st, u, k) {
      RelaxKeepsInv(g, start, st, u, k);
    } else {
      SkipKeepsInv(g, start, st, u, k);
    }
  }

  /**
   * What popping the root `top` of the heap `h` leads to: a stale entry is
   * dropped and nothing else changes; a current one carries the shortest
   * distance to its stop, which is then settled.
   */
  lemma PopStep(g: Graph, start: StopId, st: Search, h: seq<Entry>, top: Entry)
    requires Inv(g, start, st, None, 0) && st.queue == multiset(h)
    requires h != [] && top == h[0] && forall e | e in h :: top.priority <= e.priority
    ensures top.stop in st.dist
    ensures top.priority > st.dist[top.stop] ==> Inv(g, start, st.(queue := st.queue - multiset{top}), None, 0)
    ensures top.priority <= st.dist[top.stop] ==>
              && (forall es | IsWalk(g, start, es, top.stop) :: st.dist[top.stop] <= Cost(es))
              && Inv(g, start, Settle(st, top), Some(top.stop), 0)
              && |Nodes(g, start) - Settle(st, top).settled| < |Nodes(g, start) - st.settled|
  {
    assert top in st.queue;
    forall x | x in st.queue
      ensures top.priority <= x.priority
    {
      assert x in h;
    }
    if top.priority > st.dist[top.stop] {
      StaleKeepsInv(g, start, st, top);
    } else {
      PoppedIsOptimal(g, start, st, top);
      SettleKeepsInv(g, start, st, top);
      SettleShrinks(Nodes(g, start), st.settled, top.stop);
    }
  }

  /** When the heap runs empty, the goal has a finite distance iff it is reachable, and that distance is shortest. */
  lemma EmptyQueueFinal(g: Graph, start: StopId, st: Search, goal: StopId)
    requires Inv(g, start, st, None, 0) && st.queue == multiset{}
    ensures Reachable(g, start, goal) ==> goal in st.dist
    ensures goal in st.dist ==> forall es | IsWalk(g, start, es, goal) :: st.dist[goal] <= Cost(es)
  {
    if Reachable(g, start, goal) {
      EmptyQueueSettlesAll(g, start, st, goal);
    }
    forall y | y in st.dist
      ensures y in st.settled
    {
      assert st.queue[Entry(st.dist[y], y)] == 0;
    }
  }

  lemma SettleShrinks(nodes: set<StopId>, settled: set<StopId>, u: StopId)
    requires u in nodes && u !in settled
    ensures |nodes - (settled + {u})| < |nodes - settled|
  {
    assert nodes - settled == (nodes - (settled + {u})) + {u};
  }
}
