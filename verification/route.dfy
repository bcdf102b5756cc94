/** What the reconstructed route means once the solver has run: it exists
    exactly for reached goals, and it is a shortest path through the graph. */
module Route {
  import opened Graphs
  import opened PathReconstruction
  import opened Dijkstra

  /** The edges `es` go from `path[i]` to `path[i + 1]`, one per step,
      along the first `|es|` steps of `path`. */
  ghost predicate Traces(es: seq<Edge>, path: seq<nat>) {
    |es| < |path| &&
    forall i :: 0 <= i < |es| ==> es[i].src == path[i] && es[i].dst == path[i + 1]
  }

  /** For a reached goal the predecessor walk arrives at the source, so the
      reconstruction loop ends. */
  lemma ReachedGoalHasRoute(g: Graph, s: nat, d: seq<Dist>, p: seq<nat>, goal: nat)
    requires SolverResult(g, s, d, p) && goal < g.size && d[goal].Fin?
    ensures Reaches(p, goal, s)
  {
    assert Follow(p, goal, g.size) == s;
  }

  /** For a goal other than the source that was never reached, the walk
      stays on the goal forever: the program's loop does not end, and
      `Reconstruct` reports `Unreachable`. */
  lemma UnreachedGoalHasNoRoute(g: Graph, s: nat, d: seq<Dist>, p: seq<nat>, goal: nat)
    requires SolverResult(g, s, d, p) && goal < g.size && d[goal].Inf? && goal != s
    ensures !Reaches(p, goal, s)
  {
    forall k: nat
      ensures Follow(p, goal, k) == goal
    {
      FollowFixed(p, goal, 0, k);
    }
  }

  /** Every prefix of a route recorded by a solver result follows graph
      edges from the source, each vertex reached, at the cost of the
      distance of its last vertex. */
  lemma {:induction false} RoutePrefix(g: Graph, s: nat, d: seq<Dist>, p: seq<nat>, goal: nat, path: seq<nat>, k: nat)
    requires SolverResult(g, s, d, p) && IsChain(p, s, goal, path) && k < |path|
    ensures d[path[k]].Fin?
    ensures exists es :: IsPath(g, s, path[k], es) && Cost(es) == d[path[k]].value && Traces(es, path) && |es| == k
  {
    if k == 0 {
      var es: seq<Edge> := [];
      assert IsPath(g, s, path[0], es) && Cost(es) == d[path[0]].value && Traces(es, path) && |es| == 0;
    } else {
      RoutePrefix(g, s, d, p, goal, path, k - 1);
      var v, u := path[k], path[k - 1];
      assert p[v] == u && v != s && v < g.size;
      assert d[v].Fin?;
      assert TreeEdge(g, d, p, v);
      var e :| e in g.edges && e.src == u && e.dst == v && d[v].value == d[u].value + e.weight;
      var es :| IsPath(g, s, u, es) && Cost(es) == d[u].value && Traces(es, path) && |es| == k - 1;
      TraceStep(g, s, es, e, path);
      assert IsPath(g, s, v, es + [e]) && Cost(es + [e]) == d[v].value && Traces(es + [e], path) && |es + [e]| == k;
    }
  }

  /** A walk that traces the first steps of `path` and is extended by the
      edge of the next step traces one step more. */
  lemma TraceStep(g: Graph, s: nat, es: seq<Edge>, e: Edge, path: seq<nat>)
    requires IsPath(g, s, e.src, es) && e in g.edges && Traces(es, path)
    requires |es| + 1 < |path| && e.src == path[|es|] && e.dst == path[|es| + 1]
    ensures IsPath(g, s, e.dst, es + [e]) && Cost(es + [e]) == Cost(es) + e.weight
    ensures Traces(es + [e], path)
  {
    ExtendPath(g, s, es, e);
    var es' := es + [e];
    forall i | 0 <= i < |es'|
      ensures es'[i].src == path[i] && es'[i].dst == path[i + 1]
    {
      if i < |es| {
        assert es'[i] == es[i];
      }
    }
  }

  /** The route `Reconstruct` returns for a reached goal is a shortest path:
      each step is an edge of the graph and the weights add up to the
      goal's distance. */
  lemma RouteIsShortest(g: Graph, s: nat, d: seq<Dist>, p: seq<nat>, goal: nat, path: seq<nat>)
    requires SolverResult(g, s, d, p) && goal < g.size && IsChain(p, s, goal, path)
    ensures d[goal].Fin?
    ensures exists es :: IsPath(g, s, goal, es) && Traces(es, path) && |es| == |path| - 1 && Cost(es) == d[goal].value
    ensures forall es :: IsPath(g, s, goal, es) ==> d[goal].value <= Cost(es)
  {
    RoutePrefix(g, s, d, p, goal, path, |path| - 1);
    SolverResultIsShortest(g, s, d, p);
  }
}
