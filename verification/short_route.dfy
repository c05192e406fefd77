/**
 * The `GET` handler of app/api/short-route/route.ts: an O(V^2) Dijkstra over
 * the unit-weight adjacency lists of `graph.json`, where every hop costs 1.
 *
 * The search selects, by a linear scan over the keys of `dist`, an unvisited
 * node of least distance (the first such node in enumeration order); it then
 * lowers the distance of each neighbour that is already a key of `dist` and
 * records the node it came from. The path is built back from `to` along
 * `prev`, and it is rejected unless it begins at `from`.
 *
 * `Infinity` is the value `Inf` of `Dist`. Stops are integer ids; the JSON
 * keys are their decimal text. The handler's response is a value of `Response`.
 */
module ShortRoute {
  import opened Options
  import TransitGraph

  type Node = int

  /** `graph.json`: the neighbours of each key. */
  type HopGraph = map<Node, seq<Node>>

  /** The result of `Number(searchParams.get(..))`, integers only. */
  datatype Param = NotANumber | Num(value: int)

  /** A `dist` value: a hop count or `Infinity`. */
  datatype Dist = Inf | Fin(hops: nat)

  /** The response bodies of the handler. */
  datatype Response =
    | InvalidStops                                  // `{ error: "Invalid stops" }`, status 400
    | NoRoute                                       // `{ path: [], distance: null }`
    | Route(path: seq<Node>, distance: nat)         // `{ path, distance: path.length - 1 }`

  /** `!x` is false: the parameter is a number other than 0. */
  predicate Usable(p: Param)
  {
    p.Num? && p.value != 0
  }

  /** `d + 1`, where `Infinity + 1` is `Infinity`. */
  function Succ(d: Dist): (r: Dist)
    ensures r.Fin? <==> d.Fin?
    ensures r.Fin? ==> r.hops == d.hops + 1
  {
    if d.Inf? then Inf else Fin(d.hops + 1)
  }

  /** `a < b` on numbers and `Infinity`. */
  predicate Less(a: Dist, b: Dist)
  {
    a.Fin? && (b.Inf? || a.hops < b.hops)
  }

  /** `a <= b` on numbers and `Infinity`. */
  predicate AtMost(a: Dist, b: Dist)
  {
    b.Inf? || (a.Fin? && a.hops <= b.hops)
  }

  /** `Less` is a strict total order and `AtMost` its reflexive closure. */
  lemma LessIsStrictOrder(a: Dist, b: Dist, c: Dist)
    ensures !Less(a, a)
    ensures Less(a, b) && Less(b, c) ==> Less(a, c)
    ensures AtMost(a, b) <==> !Less(b, a)
  {
  }

  /**
   * Adding a hop keeps the order between two distances and never lowers a
   * distance; a finite distance grows strictly.
   */
  lemma SuccOrder(a: Dist, b: Dist)
    ensures AtMost(a, b) ==> AtMost(Succ(a), Succ(b))
    ensures Less(a, b) ==> Less(Succ(a), Succ(b))
    ensures a.Fin? ==> Less(a, Succ(a))
    ensures AtMost(a, Succ(a))
  {
  }

  /* ---------------------------------------------------------------------- */
  /* Walks                                                                   */
  /* ---------------------------------------------------------------------- */

  /**
   * `p` lists the nodes after `s` of a walk from `s` to `t` in which every
   * node left is a key of the graph and lists the next one as a neighbour.
   */
  ghost predicate HopWalk(g: HopGraph, s: Node, p: seq<Node>, t: Node)
    decreases |p|
  {
    if p == [] then s == t else s in g && p[0] in g[s] && HopWalk(g, p[0], p[1..], t)
  }

  ghost predicate Reaches(g: HopGraph, s: Node, t: Node)
  {
    exists p :: HopWalk(g, s, p, t)
  }

  /* ---------------------------------------------------------------------- */
  /* Loop invariant of the search                                            */
  /* ---------------------------------------------------------------------- */

  /**
   * `dist` has an entry for every key and for `from`, `prev` one for every
   * key, `dist[from]` is 0 and `from` has no predecessor.
   */
  ghost predicate Shape(g: HopGraph, f: Node, dist: map<Node, Dist>, prev: map<Node, Option<Node>>, visited: set<Node>)
  {
    && dist.Keys == g.Keys + {f} && prev.Keys == g.Keys
    && dist[f] == Fin(0) && (f in prev ==> prev[f] == None)
    && visited <= dist.Keys
  }

  /** Every `prev` link is an edge one hop shorter than its target. */
  ghost predicate Links(g: HopGraph, dist: map<Node, Dist>, prev: map<Node, Option<Node>>)
  {
    forall v | v in prev && prev[v].Some? ::
      var u := prev[v].value;
      && u in g && v in g[u] && u in dist && v in dist
      && dist[u].Fin? && dist[v] == Fin(dist[u].hops + 1)
  }

  /** Every `prev` link points at a visited node. */
  ghost predicate FromVisited(prev: map<Node, Option<Node>>, visited: set<Node>)
  {
    forall v | v in prev && prev[v].Some? :: prev[v].value in visited
  }

  /** Every node with a finite distance other than `from` has a `prev` link. */
  ghost predicate Explained(f: Node, dist: map<Node, Dist>, prev: map<Node, Option<Node>>)
  {
    forall v | v in dist && dist[v].Fin? && v != f :: v in prev && prev[v].Some?
  }

  /** A visited node's distance is finite when some walk reaches it, and no walk to it is shorter. */
  ghost predicate Shortest(g: HopGraph, f: Node, dist: map<Node, Dist>, visited: set<Node>)
  {
    forall v, p | v in visited && HopWalk(g, f, p, v) :: v in dist && dist[v].Fin? && dist[v].hops <= |p|
  }

  /** No visited distance exceeds an unvisited one. */
  ghost predicate VisitedFirst(dist: map<Node, Dist>, visited: set<Node>)
  {
    forall a, b | a in visited && a in dist && b in dist && b !in visited :: AtMost(dist[a], dist[b])
  }

  /**
   * The neighbours of every visited node are relaxed, except, for the node
   * `open` being expanded, the neighbours from index `k` on; `open` has the
   * greatest distance of all visited nodes.
   */
  ghost predicate Relaxed(g: HopGraph, dist: map<Node, Dist>, visited: set<Node>, open: Option<Node>, k: nat)
  {
    && (forall u, i | u in visited && u in g && 0 <= i < |g[u]| && (open == Some(u) ==> i < k) && u in dist && g[u][i] in dist ::
          AtMost(dist[g[u][i]], Succ(dist[u])))
    && (open.Some? ==> open.value in visited && open.value in dist &&
                       forall a | a in visited && a in dist :: AtMost(dist[a], dist[open.value]))
  }

  ghost predicate Inv(g: HopGraph, f: Node, dist: map<Node, Dist>, prev: map<Node, Option<Node>>, visited: set<Node>,
                      open: Option<Node>, k: nat)
  {
    && Shape(g, f, dist, prev, visited) && Links(g, dist, prev) && FromVisited(prev, visited)
    && Explained(f, dist, prev) && Shortest(g, f, dist, visited) && VisitedFirst(dist, visited)
    && Relaxed(g, dist, visited, open, k)
  }

  /* ---------------------------------------------------------------------- */
  /* Invariant lemmas                                                        */
  /* ---------------------------------------------------------------------- */

  /** The state after the initialisation: keys at `Infinity` and `null`, `from` at 0, nothing visited. */
  lemma InitialInv(g: HopGraph, f: Node)
    ensures Inv(g, f, (map k | k in g :: Inf)[f := Fin(0)], map k | k in g :: None, {}, None, 0)
  {
  }

  /**
   * A walk from a visited node `s` to an unvisited node `t` of `dist` crosses
   * the frontier: some unvisited node of `dist` is within `dist[s] + |p|` hops.
   */
  lemma {:induction false} Frontier(g: HopGraph, f: Node, dist: map<Node, Dist>, visited: set<Node>,
                                    s: Node, p: seq<Node>, t: Node)
    requires g.Keys <= dist.Keys && Relaxed(g, dist, visited, None, 0)
    requires s in visited && s in dist && t in dist && t !in visited && HopWalk(g, s, p, t)
    ensures dist[s].Fin? ==> exists y :: y in dist && y !in visited && AtMost(dist[y], Fin(dist[s].hops + |p|))
    decreases |p|
  {
    var x := p[0];
    var i :| 0 <= i < |g[s]| && g[s][i] == x;
    assert x in dist by {
      if p[1..] != [] {
        assert x in g;
      }
    }
    assert AtMost(dist[x], Succ(dist[s]));
    if x in visited {
      Frontier(g, f, dist, visited, x, p[1..], t);
    }
  }

  /**
   * An unvisited node of least distance has its shortest distance: finite
   * when a walk reaches it, and no longer than any walk.
   */
  lemma SelectedIsShortest(g: HopGraph, f: Node, dist: map<Node, Dist>, prev: map<Node, Option<Node>>,
                           visited: set<Node>, m: Node)
    requires Shape(g, f, dist, prev, visited) && Relaxed(g, dist, visited, None, 0)
    requires m in dist && m !in visited
    requires forall y | y in dist && y !in visited :: AtMost(dist[m], dist[y])
    ensures forall p | HopWalk(g, f, p, m) :: dist[m].Fin? && dist[m].hops <= |p|
  {
    forall p | HopWalk(g, f, p, m)
      ensures dist[m].Fin? && dist[m].hops <= |p|
    {
      if f in visited {
        Frontier(g, f, dist, visited, f, p, m);
      }
    }
  }

  /** Marking a least unvisited node `m` visited opens its expansion. */
  lemma SelectKeepsInv(g: HopGraph, f: Node, dist: map<Node, Dist>, prev: map<Node, Option<Node>>,
                       visited: set<Node>, m: Node)
    requires Inv(g, f, dist, prev, visited, None, 0)
    requires m in dist && m !in visited
    requires forall y | y in dist && y !in visited :: AtMost(dist[m], dist[y])
    ensures Inv(g, f, dist, prev, visited + {m}, Some(m), 0)
  {
    SelectedIsShortest(g, f, dist, prev, visited, m);
  }

  /** The `k`-th neighbour of `m` gets strictly closer through `m`. */
  ghost predicate Improves(dist: map<Node, Dist>, v: Node, alt: Dist)
  {
    v in dist && Less(alt, dist[v])
  }

  /** Relaxing the `k`-th neighbour `v` of the open node `m`. */
  lemma RelaxKeepsInv(g: HopGraph, f: Node, dist: map<Node, Dist>, prev: map<Node, Option<Node>>,
                      visited: set<Node>, m: Node, k: nat, v: Node, alt: Dist)
    requires Inv(g, f, dist, prev, visited, Some(m), k)
    requires m in g && k < |g[m]| && v == g[m][k] && alt == Succ(dist[m]) && Improves(dist, v, alt)
    ensures Inv(g, f, dist[v := alt], prev[v := Some(m)], visited, Some(m), k + 1)
  {
    assert v !in visited && v != f;
    RelaxKeepsLinks(g, f, dist, prev, visited, m, k, v, alt);
    RelaxKeepsRelaxed(g, f, dist, prev, visited, m, k, v, alt);
  }

  lemma RelaxKeepsLinks(g: HopGraph, f: Node, dist: map<Node, Dist>, prev: map<Node, Option<Node>>,
                        visited: set<Node>, m: Node, k: nat, v: Node, alt: Dist)
    requires Shape(g, f, dist, prev, visited) && Links(g, dist, prev) && FromVisited(prev, visited)
    requires m in visited && m in g && k < |g[m]| && v == g[m][k] && alt == Succ(dist[m]) && Improves(dist, v, alt)
    requires v !in visited
    ensures Links(g, dist[v := alt], prev[v := Some(m)])
  {
  }

  lemma RelaxKeepsRelaxed(g: HopGraph, f: Node, dist: map<Node, Dist>, prev: map<Node, Option<Node>>,
                          visited: set<Node>, m: Node, k: nat, v: Node, alt: Dist)
    requires Shape(g, f, dist, prev, visited) && Relaxed(g, dist, visited, Some(m), k)
    requires m in g && k < |g[m]| && v == g[m][k] && alt == Succ(dist[m]) && Improves(dist, v, alt)
    requires v !in visited
    ensures Relaxed(g, dist[v := alt], visited, Some(m), k + 1)
  {
    var dist' := dist[v := alt];
    forall u, i | u in visited && u in g && 0 <= i < |g[u]| && (Some(m) == Some(u) ==> i < k + 1) && u in dist' && g[u][i] in dist'
      ensures AtMost(dist'[g[u][i]], Succ(dist'[u]))
    {
      assert dist'[u] == dist[u];
    }
  }

  /** Leaving the `k`-th neighbour alone when it does not get closer. */
  lemma SkipKeepsInv(g: HopGraph, f: Node, dist: map<Node, Dist>, prev: map<Node, Option<Node>>,
                     visited: set<Node>, m: Node, k: nat, v: Node, alt: Dist)
    requires Inv(g, f, dist, prev, visited, Some(m), k)
    requires m in g && k < |g[m]| && v == g[m][k] && alt == Succ(dist[m]) && !Improves(dist, v, alt)
    ensures Inv(g, f, dist, prev, visited, Some(m), k + 1)
  {
  }

  /** Once every neighbour of `m` is relaxed, `m` is an ordinary visited node. */
  lemma CloseKeepsInv(g: HopGraph, f: Node, dist: map<Node, Dist>, prev: map<Node, Option<Node>>,
                      visited: set<Node>, m: Node)
    requires Inv(g, f, dist, prev, visited, Some(m), if m in g then |g[m]| else 0)
    ensures Inv(g, f, dist, prev, visited, None, 0)
  {
  }

  /** Cardinality of a subset. */
  lemma {:induction false} SubsetCard(a: set<Node>, b: set<Node>)
    requires a <= b
    ensures |a| <= |b|
    decreases |b|
  {
    assert b == a + (b - a);
  }

  /** Visiting one more node of `keys` leaves fewer unvisited. */
  lemma VisitShrinks(keys: set<Node>, visited: set<Node>, m: Node)
    requires m in keys && m !in visited
    ensures |keys - (visited + {m})| < |keys - visited|
  {
    assert keys - (visited + {m}) == (keys - visited) - {m};
  }

  /**
   * When the loop stops with `visited.size` at the number of keys, at most
   * one node of `dist` is unvisited (`from`, when it is not a key).
   */
  lemma OneLeft(g: HopGraph, f: Node, dist: map<Node, Dist>, visited: set<Node>, t: Node, y: Node)
    requires dist.Keys == g.Keys + {f} && visited <= dist.Keys && |visited| >= |g.Keys|
    requires t in dist && t !in visited && y in dist && y !in visited
    ensures y == t
  {
    if y != t {
      SubsetCard(visited, dist.Keys - {t, y});
      SubsetCard(dist.Keys, g.Keys + {f});
    }
  }

  /** After the loop every node of `dist` has its shortest distance. */
  lemma Finished(g: HopGraph, f: Node, dist: map<Node, Dist>, prev: map<Node, Option<Node>>, visited: set<Node>)
    requires Inv(g, f, dist, prev, visited, None, 0)
    requires dist.Keys <= visited || |visited| >= |g.Keys|
    ensures forall t, p | t in dist && HopWalk(g, f, p, t) :: dist[t].Fin? && dist[t].hops <= |p|
  {
    forall t | t in dist && t !in visited
      ensures forall p | HopWalk(g, f, p, t) :: dist[t].Fin? && dist[t].hops <= |p|
    {
      forall y | y in dist && y !in visited
        ensures AtMost(dist[t], dist[y])
      {
        OneLeft(g, f, dist, visited, t, y);
      }
      SelectedIsShortest(g, f, dist, prev, visited, t);
    }
  }

  /* ---------------------------------------------------------------------- */
  /* The handler                                                             */
  /* ---------------------------------------------------------------------- */

  /**
   * `for (const node in dist)`: the first unvisited node, in the enumeration
   * order `order` of the keys of `dist`, whose distance no later node beats;
   * `null` when all are visited. The comparison is strict, so ties go to the
   * earliest node.
   */
  method SelectMin(order: seq<Node>, dist: map<Node, Dist>, visited: set<Node>) returns (minNode: Option<Node>)
    requires (set x | x in order) == dist.Keys
    ensures minNode.None? <==> dist.Keys <= visited
    ensures minNode.Some? ==>
              && minNode.value in dist && minNode.value !in visited
              && (forall y | y in dist && y !in visited :: AtMost(dist[minNode.value], dist[y]))
    ensures minNode.Some? ==>
              exists a :: 0 <= a < |order| && order[a] == minNode.value &&
                          forall j | 0 <= j < a && order[j] !in visited :: Less(dist[minNode.value], dist[order[j]])
  {
    minNode := None;
    ghost var at := 0;
    for i := 0 to |order|
      invariant minNode.None? ==> forall j | 0 <= j < i :: order[j] in visited
      invariant minNode.Some? ==>
                  && at < i && order[at] == minNode.value && order[at] in dist && order[at] !in visited
                  && (forall j | 0 <= j < i && order[j] !in visited :: AtMost(dist[order[at]], dist[order[j]]))
                  && (forall j | 0 <= j < at && order[j] !in visited :: Less(dist[order[at]], dist[order[j]]))
    {
      var node := order[i];
      assert node in dist;
      if node !in visited && (minNode.None? || Less(dist[node], dist[minNode.value])) {
        minNode, at := Some(node), i;
      }
    }
    forall y | y in dist
      ensures exists j :: 0 <= j < |order| && order[j] == y
    {
      assert y in order;
    }
  }

  /* ---------------------------------------------------------------------- */
  /* What one expansion changes                                              */
  /* ---------------------------------------------------------------------- */

  /** `graph[minNode] || []`. */
  function Neighbors(g: HopGraph, m: Node): seq<Node>
  {
    if m in g then g[m] else []
  }

  /**
   * The effect on node `v` of scanning the first `k` neighbours of `m`,
   * each offering `alt`, with the strict `<`: a node of `dist0` among them
   * that `alt` strictly improves has `alt` and the predecessor `m`; every
   * other node of `dist0` keeps its `dist` and `prev` entries, so a tie
   * keeps the predecessor found first.
   */
  ghost predicate ScannedAt(nbrs: seq<Node>, k: nat, m: Node, alt: Dist,
                            dist0: map<Node, Dist>, prev0: map<Node, Option<Node>>,
                            dist: map<Node, Dist>, prev: map<Node, Option<Node>>, v: Node)
    requires k <= |nbrs|
  {
    v in dist0 ==>
      if v in nbrs[..k] && Less(alt, dist0[v]) then
        v in dist && dist[v] == alt && v in prev && prev[v] == Some(m)
      else
        v in dist && dist[v] == dist0[v] && (v in prev <==> v in prev0) && (v in prev0 ==> prev[v] == prev0[v])
  }

  /** `ScannedAt` for every node. */
  ghost predicate Scanned(nbrs: seq<Node>, k: nat, m: Node, alt: Dist,
                          dist0: map<Node, Dist>, prev0: map<Node, Option<Node>>,
                          dist: map<Node, Dist>, prev: map<Node, Option<Node>>)
    requires k <= |nbrs|
  {
    forall v :: ScannedAt(nbrs, k, m, alt, dist0, prev0, dist, prev, v)
  }

  /** Improving neighbour `k` makes it one of the improved nodes; no other node is affected. */
  lemma ScanRelaxAt(nbrs: seq<Node>, k: nat, m: Node, alt: Dist,
                    dist0: map<Node, Dist>, prev0: map<Node, Option<Node>>,
                    dist: map<Node, Dist>, prev: map<Node, Option<Node>>, v: Node)
    requires k < |nbrs| && ScannedAt(nbrs, k, m, alt, dist0, prev0, dist, prev, v)
    requires nbrs[k] in dist && Less(alt, dist[nbrs[k]])
    ensures ScannedAt(nbrs, k + 1, m, alt, dist0, prev0, dist[nbrs[k] := alt], prev[nbrs[k] := Some(m)], v)
  {
    assert nbrs[..k + 1] == nbrs[..k] + [nbrs[k]];
    if v == nbrs[k] && v in dist0 && v in nbrs[..k] && Less(alt, dist0[v]) {
      LessIsStrictOrder(alt, alt, alt);
    }
  }

  /** A neighbour `k` that is not improved changes nothing, and an earlier improvement stays. */
  lemma ScanSkipAt(nbrs: seq<Node>, k: nat, m: Node, alt: Dist,
                   dist0: map<Node, Dist>, prev0: map<Node, Option<Node>>,
                   dist: map<Node, Dist>, prev: map<Node, Option<Node>>, v: Node)
    requires k < |nbrs| && ScannedAt(nbrs, k, m, alt, dist0, prev0, dist, prev, v)
    requires !(nbrs[k] in dist && Less(alt, dist[nbrs[k]]))
    ensures ScannedAt(nbrs, k + 1, m, alt, dist0, prev0, dist, prev, v)
  {
    assert nbrs[..k + 1] == nbrs[..k] + [nbrs[k]];
  }

  lemma ScanRelax(nbrs: seq<Node>, k: nat, m: Node, alt: Dist,
                  dist0: map<Node, Dist>, prev0: map<Node, Option<Node>>,
                  dist: map<Node, Dist>, prev: map<Node, Option<Node>>)
    requires k < |nbrs| && Scanned(nbrs, k, m, alt, dist0, prev0, dist, prev)
    requires nbrs[k] in dist && Less(alt, dist[nbrs[k]])
    ensures Scanned(nbrs, k + 1, m, alt, dist0, prev0, dist[nbrs[k] := alt], prev[nbrs[k] := Some(m)])
  {
    var n := k + 1;
    var dist', prev' := dist[nbrs[k] := alt], prev[nbrs[k] := Some(m)];
    forall v
      ensures ScannedAt(nbrs, n, m, alt, dist0, prev0, dist', prev', v)
    {
      ScanRelaxAt(nbrs, k, m, alt, dist0, prev0, dist, prev, v);
    }
  }

  lemma ScanSkip(nbrs: seq<Node>, k: nat, m: Node, alt: Dist,
                 dist0: map<Node, Dist>, prev0: map<Node, Option<Node>>,
                 dist: map<Node, Dist>, prev: map<Node, Option<Node>>)
    requires k < |nbrs| && Scanned(nbrs, k, m, alt, dist0, prev0, dist, prev)
    requires !(nbrs[k] in dist && Less(alt, dist[nbrs[k]]))
    ensures Scanned(nbrs, k + 1, m, alt, dist0, prev0, dist, prev)
  {
    var n := k + 1;
    forall v
      ensures ScannedAt(nbrs, n, m, alt, dist0, prev0, dist, prev, v)
    {
      ScanSkipAt(nbrs, k, m, alt, dist0, prev0, dist, prev, v);
    }
  }

  /** `dist[m] + 1` never improves `m` itself, so the node being expanded keeps its distance. */
  lemma ScanSource(nbrs: seq<Node>, k: nat, m: Node,
                   dist0: map<Node, Dist>, prev0: map<Node, Option<Node>>,
                   dist: map<Node, Dist>, prev: map<Node, Option<Node>>)
    requires m in dist0 && k <= |nbrs| && ScannedAt(nbrs, k, m, Succ(dist0[m]), dist0, prev0, dist, prev, m)
    ensures m in dist && dist[m] == dist0[m]
  {
    SuccOrder(dist0[m], dist0[m]);
    LessIsStrictOrder(dist0[m], Succ(dist0[m]), dist0[m]);
  }

  /** Once all neighbours are scanned: the improved nodes and the untouched ones. */
  lemma ScanDone(nbrs: seq<Node>, m: Node, alt: Dist,
                 dist0: map<Node, Dist>, prev0: map<Node, Option<Node>>,
                 dist: map<Node, Dist>, prev: map<Node, Option<Node>>)
    requires Scanned(nbrs, |nbrs|, m, alt, dist0, prev0, dist, prev)
    ensures forall v | v in dist0 && v in nbrs && Less(alt, dist0[v]) ::
              v in dist && dist[v] == alt && v in prev && prev[v] == Some(m)
    ensures forall v | v in dist0 && !(v in nbrs && Less(alt, dist0[v])) ::
              v in dist && dist[v] == dist0[v] && (v in prev0 ==> v in prev && prev[v] == prev0[v])
  {
    assert nbrs[..|nbrs|] == nbrs;
    forall v | v in dist0
      ensures ScannedAt(nbrs, |nbrs|, m, alt, dist0, prev0, dist, prev, v)
    {
    }
  }

  /**
   * The relaxation loop for the node `m` just visited: a neighbour that is a
   * key of `dist` and is strictly farther than `dist[m] + 1` gets that
   * distance and `m` as its predecessor; other neighbours are left alone.
   */
  method Expand(g: HopGraph, f: Node, m: Node, dist0: map<Node, Dist>, prev0: map<Node, Option<Node>>,
                visited: set<Node>)
    returns (dist: map<Node, Dist>, prev: map<Node, Option<Node>>)
    requires Inv(g, f, dist0, prev0, visited, Some(m), 0)
    ensures Inv(g, f, dist, prev, visited, None, 0)
    ensures dist.Keys == dist0.Keys && prev.Keys == prev0.Keys && m in dist0
    ensures forall v | v in dist0 && v in Neighbors(g, m) && Less(Succ(dist0[m]), dist0[v]) ::
              dist[v] == Succ(dist0[m]) && prev[v] == Some(m)
    ensures forall v | v in dist0 && !(v in Neighbors(g, m) && Less(Succ(dist0[m]), dist0[v])) ::
              dist[v] == dist0[v] && (v in prev0 ==> prev[v] == prev0[v])
  {
    dist, prev := dist0, prev0;
    var neighbors := Neighbors(g, m);
    for k := 0 to |neighbors|
      invariant Inv(g, f, dist, prev, visited, Some(m), k)
      invariant Scanned(neighbors, k, m, Succ(dist0[m]), dist0, prev0, dist, prev)
    {
      ScanSource(neighbors, k, m, dist0, prev0, dist, prev);
      var neighbor := neighbors[k];
      var alt := Succ(dist[m]);
      if neighbor in dist && Less(alt, dist[neighbor]) {
        ScanRelax(neighbors, k, m, alt, dist0, prev0, dist, prev);
        RelaxKeepsInv(g, f, dist, prev, visited, m, k, neighbor, alt);
        dist := dist[neighbor := alt];
        prev := prev[neighbor := Some(m)];
      } else {
        ScanSkip(neighbors, k, m, alt, dist0, prev0, dist, prev);
        SkipKeepsInv(g, f, dist, prev, visited, m, k, neighbor, alt);
      }
    }
    CloseKeepsInv(g, f, dist, prev, visited, m);
    ScanDone(neighbors, m, Succ(dist0[m]), dist0, prev0, dist, prev);
  }

  /**
   * The initialisation and the `while (visited.size < ...)` loop. Every node
   * of `dist` ends with its least hop count from `f` (`Infinity` exactly when
   * no walk reaches it), and the `prev` links are edges one hop apart.
   */
  method Search(g: HopGraph, order: seq<Node>, f: Node)
    returns (dist: map<Node, Dist>, prev: map<Node, Option<Node>>)
    requires TransitGraph.Distinct(order) && (set x | x in order) == g.Keys + {f}
    ensures dist.Keys == g.Keys + {f} && prev.Keys == g.Keys && dist[f] == Fin(0) && (f in prev ==> prev[f] == None)
    ensures Links(g, dist, prev) && Explained(f, dist, prev)
    ensures forall t, p | t in dist && HopWalk(g, f, p, t) :: dist[t].Fin? && dist[t].hops <= |p|
  {
    // Every key starts at Infinity with a null predecessor; then dist[from] = 0.
    dist := map k | k in g :: Inf;
    prev := map k | k in g :: None;
    dist := dist[f := Fin(0)];
    var visited: set<Node> := {};
    InitialInv(g, f);

    while |visited| < |g.Keys|
      invariant Inv(g, f, dist, prev, visited, None, 0)
      decreases |(g.Keys + {f}) - visited|
    {
      var minNode := SelectMin(order, dist, visited);
      if minNode.None? {
        break;
      }
      var m := minNode.value;
      SelectKeepsInv(g, f, dist, prev, visited, m);
      VisitShrinks(g.Keys + {f}, visited, m);
      visited := visited + {m};
      dist, prev := Expand(g, f, m, dist, prev, visited);
    }
    Finished(g, f, dist, prev, visited);
  }

  /**
   * The `while (cur)` loop: from `to`, prepend each node and move to its
   * `prev` entry (`null`, or absent for a node that is not a key, ends it).
   * From a node with a finite distance the walk back reaches `from` and lists
   * a walk of that many hops; otherwise it is just `[to]`.
   */
  method Rebuild(g: HopGraph, f: Node, t: Node, dist: map<Node, Dist>, prev: map<Node, Option<Node>>)
    returns (path: seq<Node>)
    requires f in dist && dist[f] == Fin(0) && (f in prev ==> prev[f] == None)
    requires Links(g, dist, prev) && Explained(f, dist, prev)
    ensures t in dist && dist[t].Fin? ==> |path| == dist[t].hops + 1 && path[0] == f && HopWalk(g, f, path[1..], t)
    ensures !(t in dist && dist[t].Fin?) ==> path == [t]
  {
    path := [];
    var cur: Option<Node> := Some(t);
    ghost var reached := t in dist && dist[t].Fin?;
    while cur.Some?
      invariant reached && cur.Some? ==>
                  && cur.value in dist && dist[cur.value].Fin? && HopWalk(g, cur.value, path, t)
                  && dist[t].hops == dist[cur.value].hops + |path|
      invariant reached && cur.None? ==>
                  && |path| == dist[t].hops + 1 && path[0] == f && HopWalk(g, f, path[1..], t)
      invariant !reached ==> (cur == Some(t) && path == []) || (cur.None? && path == [t])
      decreases if cur.None? then 0 else if cur.value in dist && dist[cur.value].Fin? then dist[cur.value].hops + 2 else 1
    {
      var c := cur.value;
      path := [c] + path;
      cur := if c in prev then prev[c] else None;
    }
  }

  /**
   * `GET /api/short-route?from=..&to=..`. `order` is the enumeration order
   * of the keys of `dist` (the keys of the graph and `from`).
   *
   * The stops are rejected when either is 0 or not a number. Otherwise a
   * route is returned exactly when `to` is `from` or a key of the graph that
   * a walk from `from` reaches; it is then a walk with the least number of
   * hops, and `distance` is that number.
   */
  method Get(g: HopGraph, order: seq<Node>, from: Param, to: Param) returns (r: Response)
    requires Usable(from) ==> TransitGraph.Distinct(order) && (set x | x in order) == g.Keys + {from.value}
    ensures r.InvalidStops? <==> !Usable(from) || !Usable(to)
    ensures r.NoRoute? <==>
              Usable(from) && Usable(to) && to.value != from.value && (to.value !in g || !Reaches(g, from.value, to.value))
    ensures r.Route? ==>
              && |r.path| == r.distance + 1 && r.path[0] == from.value && HopWalk(g, from.value, r.path[1..], to.value)
              && forall p | HopWalk(g, from.value, p, to.value) :: r.distance <= |p|
    ensures r.Route? && from == to ==> r.path == [from.value] && r.distance == 0
  {
    if !Usable(from) || !Usable(to) {
      return InvalidStops;
    }
    var f, t := from.value, to.value;
    var dist, prev := Search(g, order, f);
    var path := Rebuild(g, f, t, dist, prev);
    if path[0] != f {
      assert t != f;
      if t in g {
        assert t in dist;
        assert !Reaches(g, f, t);
      }
      return NoRoute;
    }
    r := Route(path, |path| - 1);
    if t in g || t == f {
      assert t in dist;
    }
  }
}
