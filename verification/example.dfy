/** The grid of the program: six cells numbered 0..5 row by row, cell 1 an
    obstacle, five unit-cost moves. */
module GridInput {
  import opened Graphs

  /** The moves `0->3`, `2->5`, `3->4`, `4->5`, `5->2`, each of weight 1. */
  const Grid: Graph := Graph(6, [Edge(0, 3, 1), Edge(2, 5, 1), Edge(3, 4, 1), Edge(4, 5, 1), Edge(5, 2, 1)])
}

/** The program's run on that grid: solved from cell 0, cell 2 as the goal. */
module GridExample {
  import opened Wrappers
  import opened Graphs
  import opened PathReconstruction
  import opened Dijkstra
  import opened DotExport
  import opened Decimal
  import opened GridInput

  /** The target of an edge from a reached vertex is reached. */
  lemma Reached(g: Graph, s: nat, d: seq<Dist>, p: seq<nat>, e: Edge)
    requires SolverResult(g, s, d, p) && e in g.edges && d[e.src].Fin?
    ensures d[e.dst].Fin?
  {
    assert Relaxed(d, e);
  }

  /** The edges of `es` entering `v`, in order. */
  function InEdges(es: seq<Edge>, v: nat): seq<Edge> {
    if |es| == 0 then [] else (if es[0].dst == v then [es[0]] else []) + InEdges(es[1..], v)
  }

  lemma {:induction false} InEdgesMembers(es: seq<Edge>, v: nat, t: Edge)
    requires t in es && t.dst == v
    ensures t in InEdges(es, v)
  {
    if es[0] != t {
      InEdgesMembers(es[1..], v, t);
    }
  }

  /** A reached vertex other than the source hangs off one of its incoming edges. */
  lemma EnteredBy(g: Graph, s: nat, d: seq<Dist>, p: seq<nat>, v: nat)
    requires SolverResult(g, s, d, p) && v < g.size && v != s && d[v].Fin?
    ensures exists t :: t in InEdges(g.edges, v) && t.src == p[v] && d[p[v]].Fin? && d[v].value == d[p[v]].value + t.weight
  {
    assert TreeEdge(g, d, p, v);
    var t :| t in g.edges && t.src == p[v] && t.dst == v && d[v].value == d[p[v]].value + t.weight;
    InEdgesMembers(g.edges, v, t);
  }

  /** A reached vertex other than the source with a single incoming edge
      is reached through that edge. */
  lemma OnlyInEdge(g: Graph, s: nat, d: seq<Dist>, p: seq<nat>, e: Edge)
    requires SolverResult(g, s, d, p) && e.dst < g.size && e.dst != s && d[e.dst].Fin?
    requires InEdges(g.edges, e.dst) == [e]
    ensures p[e.dst] == e.src && d[e.src].Fin? && d[e.dst].value == d[e.src].value + e.weight
  {
    EnteredBy(g, s, d, p, e.dst);
  }

  /** A reached vertex other than the source with two incoming edges is
      reached through one of them. */
  lemma TwoInEdges(g: Graph, s: nat, d: seq<Dist>, p: seq<nat>, e1: Edge, e2: Edge)
    requires SolverResult(g, s, d, p) && e1.dst < g.size && e1.dst != s && d[e1.dst].Fin?
    requires InEdges(g.edges, e1.dst) == [e1, e2]
    ensures d[p[e1.dst]].Fin?
    ensures (p[e1.dst] == e1.src && d[e1.dst].value == d[e1.src].value + e1.weight) ||
            (p[e1.dst] == e2.src && d[e1.dst].value == d[e2.src].value + e2.weight)
  {
    EnteredBy(g, s, d, p, e1.dst);
  }

  /** A vertex other than the source without incoming edges is never reached. */
  lemma NoInEdge(g: Graph, s: nat, d: seq<Dist>, p: seq<nat>, v: nat)
    requires SolverResult(g, s, d, p) && v < g.size && v != s
    requires InEdges(g.edges, v) == []
    ensures d[v] == Inf && p[v] == v
  {
    if d[v].Fin? {
      EnteredBy(g, s, d, p, v);
    }
  }

  /** Cell 3 is entered from cell 0 only. */
  lemma GridCell3(d: seq<Dist>, p: seq<nat>)
    requires SolverResult(Grid, 0, d, p)
    ensures d[3] == Fin(1) && p[3] == 0
  {
    var es := Grid.edges;
    Reached(Grid, 0, d, p, es[0]);
    OnlyInEdge(Grid, 0, d, p, es[0]);
  }

  /** Cell 4 is entered from cell 3 only. */
  lemma GridCell4(d: seq<Dist>, p: seq<nat>)
    requires SolverResult(Grid, 0, d, p) && d[3] == Fin(1)
    ensures d[4] == Fin(2) && p[4] == 3
  {
    var es := Grid.edges;
    Reached(Grid, 0, d, p, es[2]);
    OnlyInEdge(Grid, 0, d, p, es[2]);
  }

  lemma GridInEdges5()
    ensures InEdges(Grid.edges, 5) == [Grid.edges[1], Grid.edges[3]]
  {
    var es := Grid.edges;
    assert InEdges(es[5..], 5) == [];
    assert InEdges(es[4..], 5) == [];
    assert InEdges(es[3..], 5) == [es[3]];
    assert InEdges(es[2..], 5) == [es[3]];
    assert InEdges(es[1..], 5) == [es[1], es[3]];
  }

  /** The goal, cell 2, is reached from cell 5 only. */
  lemma GridGoalCell(d: seq<Dist>, p: seq<nat>)
    requires SolverResult(Grid, 0, d, p) && d[4] == Fin(2)
    ensures d[5].Fin? && d[2] == Fin(d[5].value + 1) && p[2] == 5
  {
    var es := Grid.edges;
    Reached(Grid, 0, d, p, es[3]);
    Reached(Grid, 0, d, p, es[4]);
    OnlyInEdge(Grid, 0, d, p, es[4]);
  }

  /** Cell 5 is entered from cells 2 and 4; cell 2 lies beyond 5, so the
      tree edge into 5 comes from 4. */
  lemma GridCell5(d: seq<Dist>, p: seq<nat>)
    requires SolverResult(Grid, 0, d, p) && d[4] == Fin(2)
    requires d[5].Fin? && d[2] == Fin(d[5].value + 1)
    ensures d[5] == Fin(3) && p[5] == 4
  {
    var es := Grid.edges;
    GridInEdges5();
    TwoInEdges(Grid, 0, d, p, es[1], es[3]);
  }

  /** On the grid, from cell 0, there is only one result of the solver's
      shape: cell 2 at distance 4 through cell 5, cell 1 unreachable. */
  lemma GridSolution(d: seq<Dist>, p: seq<nat>)
    requires SolverResult(Grid, 0, d, p)
    ensures d == [Fin(0), Inf, Fin(4), Fin(1), Fin(2), Fin(3)]
    ensures p == [0, 1, 5, 0, 3, 4]
  {
    GridCell3(d, p);
    GridCell4(d, p);
    GridGoalCell(d, p);
    GridCell5(d, p);
    NoInEdge(Grid, 0, d, p, 1);
    assert d == [d[0], d[1], d[2], d[3], d[4], d[5]];
    assert p == [p[0], p[1], p[2], p[3], p[4], p[5]];
  }

  /** Every move joins two of the six cells. */
  lemma GridValid()
    ensures Valid(Grid)
  {
  }

  /** The moves are listed by ascending source cell. */
  lemma GridSorted()
    ensures SortedBySource(Grid.edges)
  {
  }

  /** The moves are listed by ascending source cell, so they are iterated
      in insertion order. */
  lemma GridEdgeOrder()
    ensures EdgeOrder(Grid) == Grid.edges
  {
    GridValid();
    GridSorted();
    EdgeOrderOfSorted(Grid);
  }

  /** The route the program prints for cell 2. */
  lemma GridRoute(p: seq<nat>, route: seq<nat>)
    requires p == [0, 1, 5, 0, 3, 4]
    requires IsChain(p, 0, 2, route)
    ensures route == [0, 3, 4, 5, 2]
  {
    ChainUnique(p, 0, 2, route, [0, 3, 4, 5, 2]);
  }

  /** Five declarations that agree with the grid's moves in order, coloured
      by the solved predecessors, are exactly these five. */
  lemma GridDeclarations(p: seq<nat>, ds: seq<Declared>)
    requires p == [0, 1, 5, 0, 3, 4]
    requires |ds| == |Grid.edges|
    requires forall i :: 0 <= i < |ds| ==>
      ds[i].src == Grid.edges[i].src && ds[i].dst == Grid.edges[i].dst && ds[i].weight == Grid.edges[i].weight &&
      (ds[i].black <==> p[Grid.edges[i].dst] == Grid.edges[i].src)
    ensures ds == [Declared(0, 3, 1, true), Declared(2, 5, 1, false), Declared(3, 4, 1, true),
                   Declared(4, 5, 1, true), Declared(5, 2, 1, true)]
  {
    assert ds[0] == Declared(0, 3, 1, true);
    assert ds[1] == Declared(2, 5, 1, false);
    assert ds[2] == Declared(3, 4, 1, true);
    assert ds[3] == Declared(4, 5, 1, true);
    assert ds[4] == Declared(5, 2, 1, true);
  }

  /** The attribute lists of a weight-1 edge coloured black and of one coloured grey. */
  const BlackUnit: string := "[label=\"1\", color=\"black\"]"
  const GreyUnit: string := "[label=\"1\", color=\"grey\"]"

  /** The declarations the program writes for the five moves, in order. */
  const Move03: string := "0 -> 3" + BlackUnit
  const Move25: string := "2 -> 5" + GreyUnit
  const Move34: string := "3 -> 4" + BlackUnit
  const Move45: string := "4 -> 5" + BlackUnit
  const Move52: string := "5 -> 2" + BlackUnit

  /** The attribute list of a weight-1 edge in each colour. */
  lemma UnitAttributes(black: bool)
    ensures Attributes(1, black) == if black then BlackUnit else GreyUnit
  {
    assert FromNat(1) == "1";
  }

  /** A weight-1 move between single-digit cells is written as the two
      digits around the arrow, followed by its attribute list. */
  lemma UnitMove(u: nat, v: nat, black: bool)
    requires u < 10 && v < 10
    ensures Declaration(Edge(u, v, 1), black) == [DigitChar(u)] + " -> " + [DigitChar(v)] + (if black then BlackUnit else GreyUnit)
  {
    UnitAttributes(black);
  }

  /** Each move's declaration, coloured as the solved predecessors colour it. */
  lemma Move03Text()
    ensures Declaration(Edge(0, 3, 1), true) == Move03
  {
    UnitMove(0, 3, true);
  }

  lemma Move25Text()
    ensures Declaration(Edge(2, 5, 1), false) == Move25
  {
    UnitMove(2, 5, false);
  }

  lemma Move34Text()
    ensures Declaration(Edge(3, 4, 1), true) == Move34
  {
    UnitMove(3, 4, true);
  }

  lemma Move45Text()
    ensures Declaration(Edge(4, 5, 1), true) == Move45
  {
    UnitMove(4, 5, true);
  }

  lemma Move52Text()
    ensures Declaration(Edge(5, 2, 1), true) == Move52
  {
    UnitMove(5, 2, true);
  }

  /** The declarations written for the grid's moves, coloured by the solved
      predecessors, character for character. */
  lemma GridDeclarationsText(p: seq<nat>)
    requires p == [0, 1, 5, 0, 3, 4]
    ensures Declarations(Grid.edges, p) == Move03 + Move25 + Move34 + Move45 + Move52
  {
    var es := Grid.edges;
    assert es[..1] == [Edge(0, 3, 1)];
    assert es[..2] == [Edge(0, 3, 1), Edge(2, 5, 1)];
    assert es[..3] == [Edge(0, 3, 1), Edge(2, 5, 1), Edge(3, 4, 1)];
    assert es[..4] == [Edge(0, 3, 1), Edge(2, 5, 1), Edge(3, 4, 1), Edge(4, 5, 1)];
    assert Declarations(es[..1], p) == Move03 by {
      assert es[..1][..0] == [];
      DeclarationsSnoc(es[..1], p);
      Move03Text();
    }
    assert Declarations(es[..2], p) == Move03 + Move25 by {
      assert es[..2][..1] == es[..1];
      DeclarationsSnoc(es[..2], p);
      Move25Text();
    }
    assert Declarations(es[..3], p) == Move03 + Move25 + Move34 by {
      assert es[..3][..2] == es[..2];
      DeclarationsSnoc(es[..3], p);
      Move34Text();
    }
    assert Declarations(es[..4], p) == Move03 + Move25 + Move34 + Move45 by {
      assert es[..4][..3] == es[..3];
      DeclarationsSnoc(es[..4], p);
      Move45Text();
    }
    assert es[..4] == es[..|es| - 1];
    DeclarationsSnoc(es, p);
    Move52Text();
  }

  /** The whole DOT file the program writes for the grid, character for
      character: the preamble, the five moves in insertion order with only
      `2->5` grey, and the closing brace. */
  lemma GridExportText(p: seq<nat>)
    requires p == [0, 1, 5, 0, 3, 4]
    ensures Export(Grid, p) == Header + (Move03 + Move25 + Move34 + Move45 + Move52) + Footer
  {
    GridValid();
    GridEdgeOrder();
    GridDeclarationsText(p);
  }

  /** The DOT text the program writes for the grid: every move in insertion
      order, all black except `2->5`. */
  lemma GridDot(p: seq<nat>)
    requires p == [0, 1, 5, 0, 3, 4]
    ensures Parse(Export(Grid, p)) == Some([Declared(0, 3, 1, true), Declared(2, 5, 1, false), Declared(3, 4, 1, true),
                                            Declared(4, 5, 1, true), Declared(5, 2, 1, true)])
  {
    GridValid();
    GridEdgeOrder();
    ExportRoundTrip(Grid, p);
    GridDeclarations(p, Parse(Export(Grid, p)).value);
  }

  /** The program's reconstruction loop aimed at the obstacle, cell 1: after
      `k` rounds of `current := p[current]` the walk is still on cell 1, never
      on the start cell 0, so the loop as written never exits. */
  lemma ObstacleLoopNeverExits(d: seq<Dist>, p: seq<nat>)
    requires SolverResult(Grid, 0, d, p)
    ensures forall k: nat :: Follow(p, 1, k) == 1
    ensures !Reaches(p, 1, 0)
  {
    GridSolution(d, p);
    forall k: nat
      ensures Follow(p, 1, k) == 1
    {
      FollowFixed(p, 1, 0, k);
    }
  }

  /** The program's run: solve from cell 0, rebuild the route to cell 2 and
      write the DOT text, which reads back as the five moves. */
  method RunGrid() returns (d: seq<Dist>, p: seq<nat>, route: Result<seq<nat>, PathError>, dot: string)
    ensures d == [Fin(0), Inf, Fin(4), Fin(1), Fin(2), Fin(3)]
    ensures p == [0, 1, 5, 0, 3, 4]
    ensures route == Success([0, 3, 4, 5, 2])
    ensures dot == Header + (Move03 + Move25 + Move34 + Move45 + Move52) + Footer
    ensures Parse(dot) == Some([Declared(0, 3, 1, true), Declared(2, 5, 1, false), Declared(3, 4, 1, true),
                                Declared(4, 5, 1, true), Declared(5, 2, 1, true)])
  {
    d, p := Solve(Grid, 0);
    GridSolution(d, p);
    assert Follow(p, 2, 4) == 0;
    route := Reconstruct(p, 0, 2);
    GridRoute(p, route.value);
    dot := Export(Grid, p);
    GridExportText(p);
    GridDot(p);
  }

  /** The same run with the obstacle cell 1 as goal: the corrected
      reconstruction reports it unreachable, where the program's loop never
      exits and its `path` grows on every pass. */
  method RunObstacle() returns (blocked: Result<seq<nat>, PathError>)
    ensures blocked == Failure(Unreachable)
  {
    GridValid();
    var d, p := Solve(Grid, 0);
    assert !Reaches(p, 1, 0) by { ObstacleLoopNeverExits(d, p); }
    blocked := Reconstruct(p, 0, 1);
    assert blocked.Failure?;
    assert blocked.error == Unreachable;
  }
}
