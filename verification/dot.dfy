/** The DOT text written for the solved graph: a fixed preamble, one
    declaration per edge labelled with its weight and coloured black exactly
    when its source is the predecessor recorded for its target, and a
    closing brace. */
module DotExport {
  import opened Wrappers
  import opened Graphs
  import opened Decimal

  /** The fixed preamble written before any edge. */
  const Header: string := "digraph D {\n  rankdir=LR\n  size=\"4,3\"\n  ratio=\"fill\"\n  edge[style=\"bold\"]\n  node[shape=\"circle\"]\n"

  /** The text that closes the graph. */
  const Footer: string := "}"

  /** The test `p[v] == u` that colours edge `u -> v` black: its source is
      the predecessor recorded for its target. Only the endpoints are
      compared, so every parallel edge from that predecessor passes too,
      whatever its weight. */
  predicate IsTreeEdge(p: seq<nat>, e: Edge)
    requires e.dst < |p|
  {
    p[e.dst] == e.src
  }

  /** `u -> v[label="w", color="black"]`, or `color="grey"` for a non-tree
      edge; nothing separates one declaration from the next. */
  function Declaration(e: Edge, black: bool): string {
    FromNat(e.src) + " -> " + FromNat(e.dst) + Attributes(e.weight, black)
  }

  /** `[label="w", color="black"]`, or its grey form. */
  function Attributes(w: nat, black: bool): string {
    "[label=\"" + FromNat(w) + "\"" + Colour(black) + "]"
  }

  /** The colour attribute of an edge passing `IsTreeEdge` (black) or of any
      other edge (grey). */
  function Colour(black: bool): string {
    if black then ", color=\"black\"" else ", color=\"grey\""
  }

  /** The declarations of `es`, in order, each coloured by `p`. */
  function Declarations(es: seq<Edge>, p: seq<nat>): string
    requires forall e :: e in es ==> e.dst < |p|
  {
    if |es| == 0 then [] else Declaration(es[0], IsTreeEdge(p, es[0])) + Declarations(es[1..], p)
  }

  /** The declarations read as the writing loop produces them: the text for
      all of `es` is the text for all but the last edge with the last edge's
      declaration appended. */
  lemma {:induction false} DeclarationsSnoc(es: seq<Edge>, p: seq<nat>)
    requires forall e :: e in es ==> e.dst < |p|
    requires |es| > 0
    ensures Declarations(es, p) == Declarations(es[..|es| - 1], p) + Declaration(es[|es| - 1], IsTreeEdge(p, es[|es| - 1]))
  {
    var head := Declaration(es[0], IsTreeEdge(p, es[0]));
    var last := Declaration(es[|es| - 1], IsTreeEdge(p, es[|es| - 1]));
    if |es| == 1 {
      assert es[..0] == [];
    } else {
      var mid := es[1..][..|es| - 2];
      assert es[..|es| - 1][1..] == mid;
      DeclarationsSnoc(es[1..], p);
      Assoc(head, Declarations(mid, p), last);
    }
  }

  /** The whole file: preamble, the edges in the graph's iteration order, brace. */
  function Export(g: Graph, p: seq<nat>): (text: string)
    requires Valid(g) && |p| == g.size
    ensures Header <= text && text[|text| - 1] == '}'
  {
    Header + Declarations(EdgeOrder(g), p) + Footer
  }

  /** What a reader recovers from one declaration. */
  datatype Declared = Declared(src: nat, dst: nat, weight: nat, black: bool)

  /** Strips `lit` from the front of `s`. */
  function Literal(lit: string, s: string): (r: Option<string>)
    ensures r.Some? <==> lit <= s
    ensures r.Some? ==> s == lit + r.value
  {
    if lit <= s then Some(s[|lit|..]) else None
  }

  /** Reads a colour attribute from the front of `s`. */
  function ParseColour(s: string): (r: Option<(bool, string)>)
    ensures r.Some? ==> |r.value.1| < |s|
  {
    if Colour(true) <= s then Some((true, s[|Colour(true)|..]))
    else if Colour(false) <= s then Some((false, s[|Colour(false)|..]))
    else None
  }

  /** Reads `u -> v` from the front of `s`. */
  function ParseArrow(s: string): (r: Option<(nat, nat, string)>)
    ensures r.Some? ==> |r.value.2| < |s|
  {
    var a :- ParseNat(s);
    var b :- Literal(" -> ", a.1);
    var c :- ParseNat(b);
    Some((a.0, c.0, c.1))
  }

  /** Reads `[label="w", color="black"]` or its grey form from the front of `s`. */
  function ParseAttributes(s: string): (r: Option<(nat, bool, string)>)
    ensures r.Some? ==> |r.value.2| < |s|
  {
    var d :- Literal("[label=\"", s);
    var e :- ParseNat(d);
    var f :- Literal("\"", e.1);
    var h :- ParseColour(f);
    var k :- Literal("]", h.1);
    Some((e.0, h.0, k))
  }

  /** Reads one declaration from the front of `s`. */
  function ParseDeclaration(s: string): (r: Option<(Declared, string)>)
    ensures r.Some? ==> |r.value.1| < |s|
  {
    var a :- ParseArrow(s);
    var b :- ParseAttributes(a.2);
    Some((Declared(a.0, a.1, b.0, b.1), b.2))
  }

  /** Reads declarations up to the closing brace, which must end the text. */
  function ParseDeclarations(s: string): Option<seq<Declared>>
    decreases |s|
  {
    if s == Footer then Some([])
    else
      var a :- ParseDeclaration(s);
      var rest :- ParseDeclarations(a.1);
      Some([a.0] + rest)
  }

  /** Reads a whole exported file. */
  function Parse(text: string): Option<seq<Declared>> {
    var body :- Literal(Header, text);
    ParseDeclarations(body)
  }

  /** What the declaration of `e` says, given the predecessor vector. */
  function Annotate(p: seq<nat>, e: Edge): Declared
    requires e.dst < |p|
  {
    Declared(e.src, e.dst, e.weight, IsTreeEdge(p, e))
  }

  lemma Regroup(a: string, b: string, c: string, d: string)
    ensures a + b + c + d == a + (b + (c + d))
  {
  }

  lemma Assoc(a: string, b: string, c: string)
    ensures a + b + c == a + (b + c)
  {
  }

  lemma LiteralAppend(lit: string, rest: string)
    ensures Literal(lit, lit + rest) == Some(rest)
  {
    assert lit <= lit + rest;
    assert (lit + rest)[|lit|..] == rest;
  }

  lemma ArrowRoundTrip(u: nat, v: nat, rest: string)
    requires |rest| == 0 || !IsDigit(rest[0])
    ensures ParseArrow(FromNat(u) + " -> " + FromNat(v) + rest) == Some((u, v, rest))
  {
    var t := FromNat(v) + rest;
    var s0 := FromNat(u) + (" -> " + t);
    Regroup(FromNat(u), " -> ", FromNat(v), rest);
    assert ParseNat(s0) == Some((u, " -> " + t)) by {
      ParseFromNat(u, " -> " + t);
    }
    assert Literal(" -> ", " -> " + t) == Some(t) by {
      LiteralAppend(" -> ", t);
    }
    assert ParseNat(t) == Some((v, rest)) by {
      ParseFromNat(v, rest);
    }
  }

  lemma ColourRoundTrip(black: bool, rest: string)
    ensures ParseColour(Colour(black) + rest) == Some((black, rest))
  {
    var t := Colour(black) + rest;
    if black {
      LiteralAppend(Colour(true), rest);
    } else {
      assert t[9] == 'g' && Colour(true)[9] == 'b';
      LiteralAppend(Colour(false), rest);
    }
  }

  lemma Regroup4(a: string, b: string, c: string, d: string, e: string, f: string)
    ensures a + b + c + d + e + f == a + (b + (c + (d + (e + f))))
  {
  }

  lemma AttributesRoundTrip(w: nat, black: bool, rest: string)
    ensures ParseAttributes(Attributes(w, black) + rest) == Some((w, black, rest))
  {
    var t3 := Colour(black) + ("]" + rest);
    var t2 := "\"" + t3;
    var t1 := FromNat(w) + t2;
    Regroup4("[label=\"", FromNat(w), "\"", Colour(black), "]", rest);
    assert Literal("[label=\"", "[label=\"" + t1) == Some(t1) by {
      LiteralAppend("[label=\"", t1);
    }
    assert ParseNat(t1) == Some((w, t2)) by {
      ParseFromNat(w, t2);
    }
    assert Literal("\"", t2) == Some(t3) by {
      LiteralAppend("\"", t3);
    }
    assert ParseColour(t3) == Some((black, "]" + rest)) by {
      ColourRoundTrip(black, "]" + rest);
    }
    assert Literal("]", "]" + rest) == Some(rest) by {
      LiteralAppend("]", rest);
    }
  }

  lemma DeclarationRoundTrip(e: Edge, black: bool, rest: string)
    ensures ParseDeclaration(Declaration(e, black) + rest) == Some((Declared(e.src, e.dst, e.weight, black), rest))
  {
    var attrs := Attributes(e.weight, black) + rest;
    Assoc(FromNat(e.src) + " -> " + FromNat(e.dst), Attributes(e.weight, black), rest);
    ArrowRoundTrip(e.src, e.dst, attrs);
    AttributesRoundTrip(e.weight, black, rest);
  }

  /** What a reader should recover from the declarations of `es`, in order. */
  function Annotations(es: seq<Edge>, p: seq<nat>): seq<Declared>
    requires forall e :: e in es ==> e.dst < |p|
  {
    if |es| == 0 then [] else [Annotate(p, es[0])] + Annotations(es[1..], p)
  }

  /** `Annotations` pairs each edge with its annotation, position by position. */
  lemma {:induction false} AnnotationsIndex(es: seq<Edge>, p: seq<nat>)
    requires forall e :: e in es ==> e.dst < |p|
    ensures |Annotations(es, p)| == |es|
    ensures forall i :: 0 <= i < |es| ==> Annotations(es, p)[i] == Annotate(p, es[i])
  {
    if |es| > 0 {
      AnnotationsIndex(es[1..], p);
      var ds := Annotations(es, p);
      forall i | 0 <= i < |es|
        ensures ds[i] == Annotate(p, es[i])
      {
        if i > 0 {
          assert ds[i] == Annotations(es[1..], p)[i - 1] && es[1..][i - 1] == es[i];
        }
      }
    }
  }

  /** Reading back the declarations of `es` followed by the closing brace
      recovers the annotation of every edge, in order. */
  lemma {:induction false} DeclarationsRoundTrip(es: seq<Edge>, p: seq<nat>)
    requires forall e :: e in es ==> e.dst < |p|
    ensures ParseDeclarations(Declarations(es, p) + Footer) == Some(Annotations(es, p))
  {
    if |es| == 0 {
      assert Declarations(es, p) + Footer == Footer;
    } else {
      var head := Declaration(es[0], IsTreeEdge(p, es[0]));
      var tail := Declarations(es[1..], p) + Footer;
      assert Declarations(es, p) + Footer == head + tail by {
        Assoc(head, Declarations(es[1..], p), Footer);
      }
      assert ParseDeclaration(head + tail) == Some((Annotate(p, es[0]), tail)) by {
        DeclarationRoundTrip(es[0], IsTreeEdge(p, es[0]), tail);
      }
      assert ParseDeclarations(tail) == Some(Annotations(es[1..], p)) by {
        DeclarationsRoundTrip(es[1..], p);
      }
      assert head + tail != Footer by {
        assert |head| > 1;
      }
    }
  }

  /** Reading the exported text back yields one declaration per edge, in the
      graph's edge-iteration order, each with the edge's endpoints and weight
      and coloured black exactly when `p` records the edge's source as its
      target's predecessor. */
  lemma ExportRoundTrip(g: Graph, p: seq<nat>)
    requires Valid(g) && |p| == g.size
    ensures Parse(Export(g, p)).Some?
    ensures var ds := Parse(Export(g, p)).value; var order := EdgeOrder(g);
      |ds| == |order| &&
      forall i :: 0 <= i < |ds| ==>
        ds[i].src == order[i].src && ds[i].dst == order[i].dst && ds[i].weight == order[i].weight &&
        (ds[i].black <==> p[order[i].dst] == order[i].src)
  {
    var body := Declarations(EdgeOrder(g), p) + Footer;
    assert Export(g, p) == Header + body;
    LiteralAppend(Header, body);
    DeclarationsRoundTrip(EdgeOrder(g), p);
    AnnotationsIndex(EdgeOrder(g), p);
  }

  /** The colour depends on the endpoints alone: two declarations for edges
      joining the same pair of vertices (parallel edges, of any weights)
      carry the same colour. */
  lemma ParallelEdgesShareColour(g: Graph, p: seq<nat>, i: nat, j: nat)
    requires Valid(g) && |p| == g.size
    requires i < |EdgeOrder(g)| && j < |EdgeOrder(g)|
    requires EdgeOrder(g)[i].src == EdgeOrder(g)[j].src && EdgeOrder(g)[i].dst == EdgeOrder(g)[j].dst
    ensures Parse(Export(g, p)).Some?
    ensures |Parse(Export(g, p)).value| == |EdgeOrder(g)|
    ensures Parse(Export(g, p)).value[i].black == Parse(Export(g, p)).value[j].black
  {
    ExportRoundTrip(g, p);
  }
}
