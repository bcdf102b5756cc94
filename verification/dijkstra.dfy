/** Single-source shortest paths by Dijkstra's algorithm: a distance vector
    and a predecessor vector computed from one source vertex. */
module Dijkstra {
  import opened Wrappers
  import opened Counting
  import opened Graphs
  import opened PathReconstruction

  /** A tentative distance: `Inf` for a vertex not (yet) reached. */
  datatype Dist = Inf | Fin(value: nat)

  /** The relaxation test: going through an edge of weight `w` from a vertex
      at distance `du` strictly beats the current distance `dv`. Ties do not
      count, so the first predecessor found is kept. */
  predicate Improves(du: nat, w: nat, dv: Dist) {
    dv.Inf? || du + w < dv.value
  }

  /** Reference definition: `d` holds, for every vertex, the least cost of a
      walk from `s`, and `Inf` exactly where no walk from `s` arrives. */
  ghost predicate ShortestDistances(g: Graph, s: nat, d: seq<Dist>) {
    |d| == g.size &&
    forall v :: 0 <= v < g.size ==>
      match d[v]
      case Inf => forall es :: !IsPath(g, s, v, es)
      case Fin(k) =>
        (exists es :: IsPath(g, s, v, es) && Cost(es) == k) &&
        (forall es :: IsPath(g, s, v, es) ==> k <= Cost(es))
  }

  /** The edge into reached vertex `v` recorded by `p[v]` exists and accounts
      exactly for `v`'s distance. */
  ghost predicate TreeEdge(g: Graph, d: seq<Dist>, p: seq<nat>, v: nat)
    requires |d| == |p| && v < |p| && p[v] < |d| && d[v].Fin?
  {
    d[p[v]].Fin? &&
    exists e :: e in g.edges && e.src == p[v] && e.dst == v && d[v].value == d[p[v]].value + e.weight
  }

  /** Edge `e` cannot improve its target any further. */
  ghost predicate Relaxed(d: seq<Dist>, e: Edge)
    requires e.src < |d| && e.dst < |d| && d[e.src].Fin?
  {
    d[e.dst].Fin? && d[e.dst].value <= d[e.src].value + e.weight
  }

  /** The shape of the solver's result: the source at distance 0 and its own
      predecessor, unreached vertices untouched (distance `Inf`, their own
      predecessor), every reached vertex hanging off a tree edge, every edge
      leaving a reached vertex relaxed, and every reached vertex's
      predecessor chain arriving at the source. */
  ghost predicate SolverResult(g: Graph, s: nat, d: seq<Dist>, p: seq<nat>) {
    Valid(g) && s < g.size && |d| == g.size && |p| == g.size &&
    d[s] == Fin(0) && p[s] == s && Closed(p) &&
    (forall v :: 0 <= v < g.size && d[v].Inf? ==> p[v] == v) &&
    (forall v :: 0 <= v < g.size && v != s && d[v].Fin? ==> TreeEdge(g, d, p, v)) &&
    (forall e :: e in g.edges && d[e.src].Fin? ==> Relaxed(d, e)) &&
    (forall v :: 0 <= v < g.size && d[v].Fin? ==> Follow(p, v, g.size) == s)
  }

  /** No walk from the source is cheaper than the distance of its end. */
  lemma {:induction false} LowerBound(g: Graph, s: nat, d: seq<Dist>, p: seq<nat>, v: nat, es: seq<Edge>)
    requires SolverResult(g, s, d, p) && IsPath(g, s, v, es)
    ensures v < g.size && d[v].Fin? && d[v].value <= Cost(es)
    decreases |es|
  {
    if |es| > 0 {
      var last := es[|es| - 1];
      TruncatePath(g, s, v, es);
      LowerBound(g, s, d, p, last.src, es[..|es| - 1]);
      assert Relaxed(d, last);
    }
  }

  /** Following predecessors from a reached vertex for `k` steps to the
      source traces a walk whose cost is that vertex's distance. */
  lemma {:induction false} TreeWalk(g: Graph, s: nat, d: seq<Dist>, p: seq<nat>, v: nat, k: nat)
    requires SolverResult(g, s, d, p) && v < g.size && d[v].Fin? && Follow(p, v, k) == s
    ensures exists es :: IsPath(g, s, v, es) && Cost(es) == d[v].value
    decreases k
  {
    if v == s {
      assert IsPath(g, s, v, []) && Cost([]) == 0;
    } else {
      assert k > 0;
      assert TreeEdge(g, d, p, v);
      var e :| e in g.edges && e.src == p[v] && e.dst == v && d[v].value == d[p[v]].value + e.weight;
      TreeWalk(g, s, d, p, p[v], k - 1);
      var es :| IsPath(g, s, p[v], es) && Cost(es) == d[p[v]].value;
      ExtendPath(g, s, es, e);
    }
  }

  /** A result of the solver's shape holds the true shortest distances. */
  lemma SolverResultIsShortest(g: Graph, s: nat, d: seq<Dist>, p: seq<nat>)
    requires SolverResult(g, s, d, p)
    ensures ShortestDistances(g, s, d)
  {
    forall v | 0 <= v < g.size
      ensures match d[v]
        case Inf => forall es :: !IsPath(g, s, v, es)
        case Fin(k) =>
          (exists es :: IsPath(g, s, v, es) && Cost(es) == k) &&
          (forall es :: IsPath(g, s, v, es) ==> k <= Cost(es))
    {
      forall es | IsPath(g, s, v, es)
        ensures d[v].Fin? && d[v].value <= Cost(es)
      {
        LowerBound(g, s, d, p, v, es);
      }
      if d[v].Fin? {
        TreeWalk(g, s, d, p, v, g.size);
      }
    }
  }

  /** Two results of the solver's shape agree on every distance: solving
      twice from the same source gives the same distance vector. */
  lemma DistancesUnique(g: Graph, s: nat, d1: seq<Dist>, p1: seq<nat>, d2: seq<Dist>, p2: seq<nat>)
    requires SolverResult(g, s, d1, p1) && SolverResult(g, s, d2, p2)
    ensures d1 == d2
  {
    forall v | 0 <= v < g.size
      ensures d1[v] == d2[v]
    {
      if d1[v].Fin? {
        TreeWalk(g, s, d1, p1, v, g.size);
        var es :| IsPath(g, s, v, es) && Cost(es) == d1[v].value;
        LowerBound(g, s, d2, p2, v, es);
      }
      if d2[v].Fin? {
        TreeWalk(g, s, d2, p2, v, g.size);
        var es :| IsPath(g, s, v, es) && Cost(es) == d2[v].value;
        LowerBound(g, s, d1, p1, v, es);
      }
    }
  }

  /** The frontier's extract-minimum: an unsettled reached vertex of least
      tentative distance (the lowest-numbered one among equals), or `None`
      when no reached vertex is left unsettled. */
  method NearestUnsettled(d: seq<Dist>, settled: set<nat>) returns (r: Option<nat>)
    ensures r.None? ==> forall v :: 0 <= v < |d| && v !in settled ==> d[v].Inf?
    ensures r.Some? ==> r.value < |d| && r.value !in settled && d[r.value].Fin?
    ensures r.Some? ==> forall v :: 0 <= v < |d| && v !in settled && d[v].Fin? ==> d[r.value].value <= d[v].value
  {
    r := None;
    var i := 0;
    while i < |d|
      invariant i <= |d|
      invariant r.None? ==> forall v :: 0 <= v < i && v !in settled ==> d[v].Inf?
      invariant r.Some? ==> r.value < i && r.value !in settled && d[r.value].Fin?
      invariant r.Some? ==> forall v :: 0 <= v < i && v !in settled && d[v].Fin? ==> d[r.value].value <= d[v].value
    {
      if i !in settled && d[i].Fin? && (r.None? || d[i].value < d[r.value].value) {
        r := Some(i);
      }
      i := i + 1;
    }
  }

  /** The solver's loop invariant for a set of settled vertices: entries as
      initialised or improved through a tree edge from a settled vertex, and
      `bound` separating the settled distances from the unsettled reached ones. */
  ghost predicate Frontier(g: Graph, s: nat, settled: set<nat>, bound: nat, d: seq<Dist>, p: seq<nat>) {
    Valid(g) && s < g.size && |d| == g.size && |p| == g.size &&
    d[s] == Fin(0) && p[s] == s && Closed(p) &&
    (forall x :: x in settled ==> x < g.size && d[x].Fin? && d[x].value <= bound) &&
    (forall y :: 0 <= y < g.size && y !in settled && d[y].Fin? ==> bound <= d[y].value) &&
    (forall v :: 0 <= v < g.size && d[v].Inf? ==> p[v] == v) &&
    (forall v :: 0 <= v < g.size && v != s && d[v].Fin? ==> p[v] in settled && TreeEdge(g, d, p, v))
  }

  /** Every edge of `g` leaving a vertex of `srcs` is relaxed. */
  ghost predicate RelaxedFrom(g: Graph, d: seq<Dist>, srcs: set<nat>)
    requires Valid(g) && |d| == g.size
    requires forall x :: x in srcs ==> x < g.size && d[x].Fin?
  {
    forall e :: e in g.edges && e.src in srcs ==> Relaxed(d, e)
  }

  /** Boost's `relax` along edge `e` out of `u`: when going through `e`
      strictly improves the target, its distance becomes `d[u] + w` and its
      predecessor `u`; otherwise nothing changes. */
  function Relax(d: seq<Dist>, p: seq<nat>, u: nat, e: Edge): (r: (seq<Dist>, seq<nat>))
    requires u < |d| && d[u].Fin? && e.dst < |d| && |p| == |d|
    ensures |r.0| == |d| && |r.1| == |p| && r.0[u] == d[u]
    ensures Relaxed(r.0, Edge(u, e.dst, e.weight))
    ensures r.0 == d[e.dst := r.0[e.dst]] && r.1 == p[e.dst := r.1[e.dst]]
    ensures Improves(d[u].value, e.weight, d[e.dst]) <==> r.0[e.dst] != d[e.dst]
    ensures r.0[e.dst] != d[e.dst] ==> r.0[e.dst] == Fin(d[u].value + e.weight) && r.1[e.dst] == u
    ensures r.0[e.dst] == d[e.dst] ==> r.1[e.dst] == p[e.dst]
  {
    if Improves(d[u].value, e.weight, d[e.dst]) then
      (d[e.dst := Fin(d[u].value + e.weight)], p[e.dst := u])
    else
      (d, p)
  }

  /** The inner loop's invariant after relaxing the out-edges `done` of the
      settled vertex `u`: the solver's invariant holds with `d[u]` as bound,
      settled entries are as they were in `d0`/`p0`, distances only went
      down, and the edges in `done` are relaxed. */
  ghost predicate Relaxing(g: Graph, s: nat, settled: set<nat>, u: nat, d0: seq<Dist>, p0: seq<nat>,
                           d: seq<Dist>, p: seq<nat>, done: seq<Edge>)
  {
    |d0| == g.size && |p0| == g.size && u in settled && u < |d0| && d0[u].Fin? &&
    Frontier(g, s, settled, d0[u].value, d, p) &&
    (forall x :: x in settled ==> d[x] == d0[x] && p[x] == p0[x]) &&
    (forall v :: 0 <= v < g.size && d0[v].Fin? ==> d[v].Fin? && d[v].value <= d0[v].value) &&
    (forall t :: t in done ==> t in g.edges && t.src == u && Relaxed(d, t))
  }

  /** Relaxing one more out-edge of `u` keeps the inner loop's invariant. */
  lemma RelaxStep(g: Graph, s: nat, settled: set<nat>, u: nat, d0: seq<Dist>, p0: seq<nat>,
                  d: seq<Dist>, p: seq<nat>, out: seq<Edge>, j: nat)
    requires forall t :: t in out ==> t in g.edges && t.src == u
    requires j < |out| && Relaxing(g, s, settled, u, d0, p0, d, p, out[..j])
    ensures Relaxing(g, s, settled, u, d0, p0, Relax(d, p, u, out[j]).0, Relax(d, p, u, out[j]).1, out[..j + 1])
  {
    var e := out[j];
    assert e in out;
    assert out[..j + 1] == out[..j] + [e];
    if Improves(d[u].value, e.weight, d[e.dst]) {
      ImproveStep(g, s, settled, u, d0, p0, d, p, out[..j], e);
    } else {
      assert Relax(d, p, u, e) == (d, p);
      forall t | t in out[..j] + [e]
        ensures t in g.edges && t.src == u && Relaxed(d, t)
      {
        if t != e {
          assert t in out[..j];
        }
      }
    }
  }

  /** A strictly improving relaxation along an out-edge of a settled vertex
      `u` at distance `bound` keeps the solver's invariant: the target is
      unsettled (its distance exceeds `bound`) and now hangs off `u`. */
  lemma ImproveFrontier(g: Graph, s: nat, settled: set<nat>, bound: nat, d: seq<Dist>, p: seq<nat>, u: nat, e: Edge)
    requires Frontier(g, s, settled, bound, d, p) && u in settled && d[u] == Fin(bound)
    requires e in g.edges && e.src == u && Improves(bound, e.weight, d[e.dst])
    ensures Frontier(g, s, settled, bound, d[e.dst := Fin(bound + e.weight)], p[e.dst := u])
  {
    var d', p' := d[e.dst := Fin(bound + e.weight)], p[e.dst := u];
    assert e.dst !in settled;
    assert TreeEdge(g, d', p', e.dst);
    forall v | 0 <= v < g.size && v != s && d'[v].Fin?
      ensures p'[v] in settled && TreeEdge(g, d', p', v)
    {
      if v != e.dst {
        assert TreeEdge(g, d, p, v);
        var t :| t in g.edges && t.src == p[v] && t.dst == v && d[v].value == d[p[v]].value + t.weight;
        assert d'[p'[v]] == d[p[v]];
      }
    }
  }

  /** A strictly improving relaxation along an out-edge of the settled
      vertex `u` keeps the inner loop's invariant. */
  lemma ImproveStep(g: Graph, s: nat, settled: set<nat>, u: nat, d0: seq<Dist>, p0: seq<nat>,
                    d: seq<Dist>, p: seq<nat>, done: seq<Edge>, e: Edge)
    requires Relaxing(g, s, settled, u, d0, p0, d, p, done)
    requires e in g.edges && e.src == u && Improves(d[u].value, e.weight, d[e.dst])
    ensures Relaxing(g, s, settled, u, d0, p0, Relax(d, p, u, e).0, Relax(d, p, u, e).1, done + [e])
  {
    var b := d0[u].value;
    assert d[u] == Fin(b);
    var d', p' := d[e.dst := Fin(b + e.weight)], p[e.dst := u];
    assert Relax(d, p, u, e) == (d', p');
    ImproveFrontier(g, s, settled, b, d, p, u, e);
    assert e.dst !in settled;
    assert forall x :: x in settled ==> d'[x] == d0[x] && p'[x] == p0[x];
    assert forall v :: 0 <= v < g.size && d0[v].Fin? ==> d'[v].Fin? && d'[v].value <= d0[v].value;
    forall t | t in done + [e]
      ensures t in g.edges && t.src == u && Relaxed(d', t)
    {
      if t != e {
        assert t in done;
      }
    }
  }

  /** Relaxes every out-edge of the vertex `u` just settled, in out-edge
      order: an edge `u -> v` of weight `w` sets `d[v] := d[u] + w` and
      `p[v] := u` only when that is a strict improvement. Settled vertices
      keep their entries, and afterwards every edge leaving a settled vertex
      is relaxed. */
  method RelaxOutEdges(g: Graph, s: nat, u: nat, settled: set<nat>, d0: seq<Dist>, p0: seq<nat>)
    returns (d: seq<Dist>, p: seq<nat>)
    requires u < |d0| && d0[u].Fin? && u in settled
    requires Frontier(g, s, settled, d0[u].value, d0, p0)
    requires RelaxedFrom(g, d0, settled - {u})
    ensures Frontier(g, s, settled, d0[u].value, d, p)
    ensures forall x :: x in settled ==> d[x] == d0[x] && p[x] == p0[x]
    ensures RelaxedFrom(g, d, settled)
  {
    var out := OutEdges(g.edges, u);
    OutEdgesMembers(g.edges, u);
    d, p := d0, p0;
    var j := 0;
    while j < |out|
      invariant j <= |out|
      invariant Relaxing(g, s, settled, u, d0, p0, d, p, out[..j])
    {
      RelaxStep(g, s, settled, u, d0, p0, d, p, out, j);
      d, p := Relax(d, p, u, out[j]).0, Relax(d, p, u, out[j]).1;
      j := j + 1;
    }
    AllRelaxed(g, s, settled, u, d0, p0, d, p, out);
  }

  /** Once all out-edges of `u` are done, every edge leaving a settled vertex is relaxed. */
  lemma AllRelaxed(g: Graph, s: nat, settled: set<nat>, u: nat, d0: seq<Dist>, p0: seq<nat>,
                   d: seq<Dist>, p: seq<nat>, out: seq<Edge>)
    requires Relaxing(g, s, settled, u, d0, p0, d, p, out[..|out|])
    requires RelaxedFrom(g, d0, settled - {u})
    requires out == OutEdges(g.edges, u)
    ensures RelaxedFrom(g, d, settled)
  {
    assert out[..|out|] == out;
    OutEdgesMembers(g.edges, u);
    forall e | e in g.edges && e.src in settled
      ensures Relaxed(d, e)
    {
      if e.src == u {
        assert e in out;
      } else {
        assert Relaxed(d0, e);
      }
    }
  }

  /** Settling the nearest unsettled reached vertex `u` keeps the invariant,
      with `d[u]` as the new bound. */
  lemma Settle(g: Graph, s: nat, settled: set<nat>, bound: nat, d: seq<Dist>, p: seq<nat>, u: nat)
    requires Frontier(g, s, settled, bound, d, p) && RelaxedFrom(g, d, settled)
    requires u < g.size && u !in settled && d[u].Fin?
    requires forall v :: 0 <= v < g.size && v !in settled && d[v].Fin? ==> d[u].value <= d[v].value
    ensures Frontier(g, s, settled + {u}, d[u].value, d, p)
    ensures RelaxedFrom(g, d, (settled + {u}) - {u})
  {
    assert (settled + {u}) - {u} == settled;
  }

  /** Dijkstra's algorithm from `s`: distance 0 at `s` and `Inf` elsewhere,
      every vertex its own predecessor; then repeatedly settle the reached
      vertex of least tentative distance and relax its out-edges, until no
      reached vertex is left unsettled. */
  method Solve(g: Graph, s: nat) returns (d: seq<Dist>, p: seq<nat>)
    requires Valid(g) && s < g.size
    ensures SolverResult(g, s, d, p)
    ensures ShortestDistances(g, s, d)
  {
    var n := g.size;
    d := seq(n, v => if v == s then Fin(0) else Inf);
    p := seq(n, v => v);
    var settled: set<nat> := {};
    ghost var bound: nat := 0;
    ghost var rank: seq<nat> := seq(n, v => 0);
    while true
      invariant Frontier(g, s, settled, bound, d, p) && RelaxedFrom(g, d, settled)
      invariant |rank| == n && |settled| <= n && Ranked(s, settled, rank, p)
      decreases n - |settled|
    {
      var next := NearestUnsettled(d, settled);
      if next.None? {
        break;
      }
      var u := next.value;
      Settle(g, s, settled, bound, d, p, u);
      RankSettle(g, s, settled, bound, d, p, rank, u);
      rank := rank[u := |settled|];
      settled := settled + {u};
      bound := d[u].value;
      BoundedSetCard(settled, n);
      ghost var p0 := p;
      d, p := RelaxOutEdges(g, s, u, settled, d, p);
      RankKeep(s, settled, rank, p0, p);
    }
    Finish(g, s, settled, bound, d, p, rank);
    SolverResultIsShortest(g, s, d, p);
  }

  /** Every settled vertex carries its position in the settling order,
      and a settled vertex other than the source was settled after its
      predecessor. */
  ghost predicate Ranked(s: nat, settled: set<nat>, rank: seq<nat>, p: seq<nat>) {
    (forall x :: x in settled ==> x < |rank| && rank[x] < |settled|) &&
    (forall x :: x in settled && x != s ==> x < |p| && p[x] < |rank| && rank[p[x]] < rank[x])
  }

  /** Settling `u` next gives it the next position, after its predecessor. */
  lemma RankSettle(g: Graph, s: nat, settled: set<nat>, bound: nat, d: seq<Dist>, p: seq<nat>, rank: seq<nat>, u: nat)
    requires Frontier(g, s, settled, bound, d, p) && Ranked(s, settled, rank, p) && |rank| == g.size
    requires u < g.size && u !in settled && d[u].Fin?
    ensures Ranked(s, settled + {u}, rank[u := |settled|], p)
  {
    var rank' := rank[u := |settled|];
    forall x | x in settled + {u} && x != s
      ensures x < |p| && p[x] < |rank'| && rank'[p[x]] < rank'[x]
    {
      if x == u {
        assert p[u] in settled;
      }
    }
  }

  /** Relaxation leaves the predecessors of settled vertices alone, so the
      settling order stays consistent with them. */
  lemma RankKeep(s: nat, settled: set<nat>, rank: seq<nat>, p0: seq<nat>, p: seq<nat>)
    requires Ranked(s, settled, rank, p0) && |p| == |p0|
    requires forall x :: x in settled && x < |p| ==> p[x] == p0[x]
    ensures Ranked(s, settled, rank, p)
  {
  }

  /** When no reached vertex is left unsettled, the loop invariant is the
      solver's result: every reached vertex is settled, so its predecessor
      chain descends in settling order to the source. */
  lemma Finish(g: Graph, s: nat, settled: set<nat>, bound: nat, d: seq<Dist>, p: seq<nat>, rank: seq<nat>)
    requires Frontier(g, s, settled, bound, d, p) && RelaxedFrom(g, d, settled)
    requires forall v :: 0 <= v < g.size && v !in settled ==> d[v].Inf?
    requires |rank| == g.size && |settled| <= g.size && Ranked(s, settled, rank, p)
    ensures SolverResult(g, s, d, p)
  {
    forall v | 0 <= v < g.size && d[v].Fin?
      ensures Follow(p, v, g.size) == s
    {
      SettledChain(p, s, settled, rank, v);
      FollowFixed(p, v, rank[v], g.size);
    }
  }

  /** Predecessor chains of settled vertices descend in settling order, so
      the chain from `v` arrives at the source within `rank[v]` steps. */
  lemma {:induction false} SettledChain(p: seq<nat>, s: nat, settled: set<nat>, rank: seq<nat>, v: nat)
    requires Closed(p) && s < |p| && p[s] == s && |rank| == |p| && v in settled
    requires forall x :: x in settled ==> x < |p|
    requires forall x :: x in settled && x != s ==> p[x] in settled && rank[p[x]] < rank[x]
    ensures Follow(p, v, rank[v]) == s
    decreases rank[v]
  {
    if v != s {
      assert Follow(p, v, rank[v]) == Follow(p, p[v], rank[v] - 1);
      SettledChain(p, s, settled, rank, p[v]);
      FollowFixed(p, p[v], rank[p[v]], rank[v] - 1);
    } else {
      FollowFixed(p, s, 0, rank[s]);
    }
  }
}
