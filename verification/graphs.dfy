/** The directed, weighted graph the solver runs on: a vertex count and an
    edge list, as handed to Boost's `adjacency_list` constructor. */
module Graphs {

  /** A directed edge `src -> dst` carrying a non-negative weight. */
  datatype Edge = Edge(src: nat, dst: nat, weight: nat)

  /** Vertices are the identities `0 .. size - 1`; edges keep their insertion
      order and parallel edges are allowed. */
  datatype Graph = Graph(size: nat, edges: seq<Edge>)

  /** Every edge joins two vertices of the graph. */
  predicate Valid(g: Graph) {
    forall e :: e in g.edges ==> e.src < g.size && e.dst < g.size
  }

  /** The edges of `es` leaving `v`, in their order in `es`: the out-edge
      list of `v` in an adjacency list built from `es`. */
  function OutEdges(es: seq<Edge>, v: nat): seq<Edge> {
    if |es| == 0 then []
    else (if es[0].src == v then [es[0]] else []) + OutEdges(es[1..], v)
  }

  /** The out-edge list of `v` holds exactly the edges of `es` leaving `v`. */
  lemma {:induction false} OutEdgesMembers(es: seq<Edge>, v: nat)
    ensures forall e :: e in OutEdges(es, v) <==> e in es && e.src == v
  {
    if |es| > 0 {
      OutEdgesMembers(es[1..], v);
      assert es == [es[0]] + es[1..];
    }
  }

  /** The edges of `es` whose source is at least `lo`, in their order in `es`. */
  function SourcesFrom(es: seq<Edge>, lo: nat): seq<Edge> {
    if |es| == 0 then []
    else (if es[0].src >= lo then [es[0]] else []) + SourcesFrom(es[1..], lo)
  }

  /** The out-edge lists of the vertices `v .. size - 1`, one after another. */
  function EdgesFrom(g: Graph, v: nat): seq<Edge>
    decreases g.size - v
  {
    if v >= g.size then [] else OutEdges(g.edges, v) + EdgesFrom(g, v + 1)
  }

  /** The out-edge lists from `v` on hold only edges of the graph whose
      source is `v` or later. */
  lemma {:induction false} EdgesFromMembers(g: Graph, v: nat)
    ensures forall e :: e in EdgesFrom(g, v) ==> e in g.edges && v <= e.src < g.size
    decreases g.size - v
  {
    if v < g.size {
      OutEdgesMembers(g.edges, v);
      EdgesFromMembers(g, v + 1);
    }
  }

  /** The order in which `edges(g)` visits the edges of an adjacency list
      with a vertex vector and per-vertex edge lists: vertex by vertex, each
      vertex's out-edges in insertion order. */
  function EdgeOrder(g: Graph): (r: seq<Edge>)
    ensures forall e :: e in r ==> e in g.edges
  {
    EdgesFromMembers(g, 0);
    EdgesFrom(g, 0)
  }

  lemma {:induction false} OutEdgesAppend(a: seq<Edge>, b: seq<Edge>, v: nat)
    ensures OutEdges(a + b, v) == OutEdges(a, v) + OutEdges(b, v)
  {
    if |a| > 0 {
      assert (a + b)[1..] == a[1..] + b;
      OutEdgesAppend(a[1..], b, v);
    } else {
      assert a + b == b;
    }
  }

  lemma {:induction false} OutEdgesOfOutEdges(es: seq<Edge>, w: nat, v: nat)
    ensures OutEdges(OutEdges(es, w), v) == if w == v then OutEdges(es, v) else []
  {
    if |es| > 0 {
      OutEdgesOfOutEdges(es[1..], w, v);
      var head := if es[0].src == w then [es[0]] else [];
      OutEdgesAppend(head, OutEdges(es[1..], w), v);
    }
  }

  lemma {:induction false} NoOutEdges(es: seq<Edge>, v: nat)
    requires forall e :: e in es ==> e.src != v
    ensures OutEdges(es, v) == []
  {
    if |es| > 0 {
      NoOutEdges(es[1..], v);
    }
  }

  lemma {:induction false} SplitSourcesFrom(es: seq<Edge>, lo: nat)
    ensures multiset(SourcesFrom(es, lo)) == multiset(OutEdges(es, lo)) + multiset(SourcesFrom(es, lo + 1))
  {
    if |es| > 0 {
      SplitSourcesFrom(es[1..], lo);
    }
  }

  lemma {:induction false} SourcesFromZero(es: seq<Edge>)
    ensures SourcesFrom(es, 0) == es
  {
    if |es| > 0 {
      SourcesFromZero(es[1..]);
      assert es == [es[0]] + es[1..];
    }
  }

  lemma {:induction false} SourcesFromBeyond(g: Graph, lo: nat, es: seq<Edge>)
    requires Valid(g) && g.size <= lo
    requires forall e :: e in es ==> e in g.edges
    ensures SourcesFrom(es, lo) == []
  {
    if |es| > 0 {
      assert es[0] in g.edges;
      SourcesFromBeyond(g, lo, es[1..]);
    }
  }

  lemma {:induction false} EdgesFromPermutation(g: Graph, v: nat)
    requires Valid(g)
    ensures multiset(EdgesFrom(g, v)) == multiset(SourcesFrom(g.edges, v))
    decreases g.size - v
  {
    if v >= g.size {
      SourcesFromBeyond(g, v, g.edges);
    } else {
      EdgesFromPermutation(g, v + 1);
      SplitSourcesFrom(g.edges, v);
    }
  }

  /** The iteration order lists every edge of a valid graph exactly as often
      as the edge list does. */
  lemma EdgeOrderPermutation(g: Graph)
    requires Valid(g)
    ensures multiset(EdgeOrder(g)) == multiset(g.edges)
  {
    EdgesFromPermutation(g, 0);
    SourcesFromZero(g.edges);
  }

  lemma {:induction false} EdgesFromStable(g: Graph, w: nat, v: nat)
    ensures OutEdges(EdgesFrom(g, w), v) == if w <= v < g.size then OutEdges(g.edges, v) else []
    decreases g.size - w
  {
    if w < g.size {
      var head := OutEdges(g.edges, w);
      var tail := EdgesFrom(g, w + 1);
      var r := OutEdges(EdgesFrom(g, w), v);
      assert r == OutEdges(head, v) + OutEdges(tail, v) by {
        assert EdgesFrom(g, w) == head + tail;
        OutEdgesAppend(head, tail, v);
      }
      assert OutEdges(head, v) == if w == v then OutEdges(g.edges, v) else [] by {
        OutEdgesOfOutEdges(g.edges, w, v);
      }
      assert OutEdges(tail, v) == if w + 1 <= v < g.size then OutEdges(g.edges, v) else [] by {
        EdgesFromStable(g, w + 1, v);
      }
    }
  }

  /** The iteration order keeps each vertex's out-edges in insertion order. */
  lemma EdgeOrderStable(g: Graph, v: nat)
    requires Valid(g)
    ensures OutEdges(EdgeOrder(g), v) == OutEdges(g.edges, v)
  {
    EdgesFromStable(g, 0, v);
    if v >= g.size {
      NoOutEdges(g.edges, v);
    }
  }

  lemma {:induction false} EdgesFromSorted(g: Graph, w: nat)
    ensures forall i, j :: 0 <= i < j < |EdgesFrom(g, w)| ==> EdgesFrom(g, w)[i].src <= EdgesFrom(g, w)[j].src
    decreases g.size - w
  {
    if w < g.size {
      EdgesFromSorted(g, w + 1);
      EdgesFromMembers(g, w + 1);
      OutEdgesMembers(g.edges, w);
      var head := OutEdges(g.edges, w);
      var tail := EdgesFrom(g, w + 1);
      var all := head + tail;
      forall i, j | 0 <= i < j < |all|
        ensures all[i].src <= all[j].src
      {
        if j < |head| {
          assert all[i] in head && all[j] in head;
        } else if i < |head| {
          assert all[i] in head && all[j] == tail[j - |head|] && tail[j - |head|] in tail;
        } else {
          assert all[i] == tail[i - |head|] && all[j] == tail[j - |head|];
        }
      }
    }
  }

  /** The iteration order visits the edges grouped by ascending source vertex. */
  lemma EdgeOrderSorted(g: Graph)
    ensures forall i, j :: 0 <= i < j < |EdgeOrder(g)| ==> EdgeOrder(g)[i].src <= EdgeOrder(g)[j].src
  {
    EdgesFromSorted(g, 0);
  }

  /** The edges of `es` are listed by ascending source vertex. */
  predicate SortedBySource(es: seq<Edge>) {
    |es| <= 1 || (es[0].src <= es[1].src && SortedBySource(es[1..]))
  }

  lemma {:induction false} SplitSorted(es: seq<Edge>, v: nat)
    requires SortedBySource(es)
    ensures SourcesFrom(es, v) == OutEdges(es, v) + SourcesFrom(es, v + 1)
  {
    if |es| > 0 {
      SplitSorted(es[1..], v);
      if es[0].src > v {
        SortedAbove(es, v);
        NoOutEdges(es[1..], v);
      }
      SplitStep(es, v);
    }
  }

  lemma SplitStep(es: seq<Edge>, v: nat)
    requires |es| > 0
    requires SourcesFrom(es[1..], v) == OutEdges(es[1..], v) + SourcesFrom(es[1..], v + 1)
    requires es[0].src > v ==> OutEdges(es[1..], v) == []
    ensures SourcesFrom(es, v) == OutEdges(es, v) + SourcesFrom(es, v + 1)
  {
    var x, o, r := es[0], OutEdges(es[1..], v), SourcesFrom(es[1..], v + 1);
    if x.src < v {
      assert SourcesFrom(es, v) == o + r;
      assert OutEdges(es, v) == o;
      assert SourcesFrom(es, v + 1) == r;
    } else if x.src == v {
      assert SourcesFrom(es, v) == [x] + (o + r);
      assert OutEdges(es, v) == [x] + o;
      assert SourcesFrom(es, v + 1) == r;
      EdgesAssoc([x], o, r);
    } else {
      assert SourcesFrom(es, v) == [x] + r;
      assert OutEdges(es, v) == [];
      assert SourcesFrom(es, v + 1) == [x] + r;
    }
  }

  lemma EdgesAssoc(a: seq<Edge>, b: seq<Edge>, c: seq<Edge>)
    ensures a + (b + c) == (a + b) + c
  {
  }

  lemma {:induction false} SortedAbove(es: seq<Edge>, v: nat)
    requires SortedBySource(es) && |es| > 0 && es[0].src > v
    ensures forall e :: e in es[1..] ==> e.src > v
  {
    if |es| > 1 {
      SortedAbove(es[1..], v);
      assert es[1..] == [es[1]] + es[1..][1..];
    }
  }

  lemma {:induction false} EdgesFromOfSorted(g: Graph, v: nat)
    requires Valid(g) && SortedBySource(g.edges)
    ensures EdgesFrom(g, v) == SourcesFrom(g.edges, v)
    decreases g.size - v
  {
    if v >= g.size {
      SourcesFromBeyond(g, v, g.edges);
    } else {
      EdgesFromOfSorted(g, v + 1);
      SplitSorted(g.edges, v);
    }
  }

  /** An edge list already grouped by ascending source is iterated exactly
      in insertion order. */
  lemma EdgeOrderOfSorted(g: Graph)
    requires Valid(g) && SortedBySource(g.edges)
    ensures EdgeOrder(g) == g.edges
  {
    EdgesFromOfSorted(g, 0);
    SourcesFromZero(g.edges);
  }

  /** `es` is a walk through edges of `g` that leaves `s` and ends at `v`;
      the empty walk stays at `s`. */
  ghost predicate IsPath(g: Graph, s: nat, v: nat, es: seq<Edge>) {
    (forall i :: 0 <= i < |es| ==> es[i] in g.edges) &&
    if |es| == 0 then v == s
    else es[0].src == s && es[|es| - 1].dst == v &&
         forall i :: 0 <= i < |es| - 1 ==> es[i].dst == es[i + 1].src
  }

  /** The total weight of a walk. */
  function Cost(es: seq<Edge>): nat {
    if |es| == 0 then 0 else Cost(es[..|es| - 1]) + es[|es| - 1].weight
  }

  /** Extending a walk to `u` by an edge leaving `u` gives a walk to that
      edge's target that costs the edge's weight more. */
  lemma ExtendPath(g: Graph, s: nat, es: seq<Edge>, e: Edge)
    requires IsPath(g, s, e.src, es) && e in g.edges
    ensures IsPath(g, s, e.dst, es + [e])
    ensures Cost(es + [e]) == Cost(es) + e.weight
  {
    assert (es + [e])[..|es|] == es;
  }

  /** Dropping the last edge of a non-empty walk gives a walk to that edge's source. */
  lemma TruncatePath(g: Graph, s: nat, v: nat, es: seq<Edge>)
    requires IsPath(g, s, v, es) && |es| > 0
    ensures IsPath(g, s, es[|es| - 1].src, es[..|es| - 1])
    ensures es[|es| - 1] in g.edges && es[|es| - 1].dst == v
  {
  }
}
