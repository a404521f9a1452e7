/** `reduceGraph` of solver.py: contract equal-coloured neighbours until none is left. */
module Reduce {
  import opened Common
  import opened SolverValues
  import opened PuzzleGraph

  /** One contraction step as solver.py:71-106 performs it: collect the edges at `b`
      to drop and the edges at `a` to add (skipping those `a` already has), apply
      them, append `b`'s points to `a`'s and delete `b`. */
  method Contract(g: Graph, a: int, b: int) returns (r: Graph)
    requires WF(g) && a in g.nodes && b in g.nodes && Adj(g, a, b)
    ensures r == Merge(g, a, b)
  {
    var aNeighs := Nbrs(g, a) - {b};
    var bNeighs := Nbrs(g, b) - {a};
    var toRemove: set<Edge> := {};
    var toAdd: set<Edge> := {};
    var pending := bNeighs;
    while pending != {}
      invariant pending <= bNeighs
      invariant forall e :: e in toRemove <==> exists n :: n in bNeighs - pending && e == E(b, n)
      invariant forall e :: e in toAdd <==> exists n :: n in bNeighs - pending && n !in aNeighs && e == E(a, n)
      decreases pending
    {
      // a named element shows that the `:|` below has a solution
      ghost var some := Pick(pending);
      var n :| n in pending;
      if n !in aNeighs {
        toAdd := toAdd + {E(a, n)};
      }
      toRemove := toRemove + {E(b, n)};
      pending := pending - {n};
    }
    var edges := (g.edges - toRemove) + toAdd;
    var nodes := g.nodes[a := Node(g.nodes[a].colour, g.nodes[a].points + g.nodes[b].points)];
    // g.remove_node(b) also drops the a-b edge
    nodes := nodes - {b};
    edges := set e | e in edges && e.lo != b && e.hi != b;
    assert bNeighs - pending == bNeighs;
    ContractedEdges(g, a, b, toRemove, toAdd);
    r := Graph(nodes, edges);
  }

  /** The edge bookkeeping of `Contract` yields the edges of `Merge`. */
  lemma ContractedEdges(g: Graph, a: int, b: int, toRemove: set<Edge>, toAdd: set<Edge>)
    requires WF(g) && a in g.nodes && b in g.nodes && Adj(g, a, b)
    requires forall e :: e in toRemove <==> exists n :: n in Nbrs(g, b) - {a} && e == E(b, n)
    requires forall e :: e in toAdd <==>
               exists n :: n in Nbrs(g, b) - {a} && n !in Nbrs(g, a) - {b} && e == E(a, n)
    ensures (set e | e in (g.edges - toRemove) + toAdd && e.lo != b && e.hi != b) == Merge(g, a, b).edges
  {
    var m := Merge(g, a, b);
    var edges := set e | e in (g.edges - toRemove) + toAdd && e.lo != b && e.hi != b;
    forall e ensures e in edges <==> e in m.edges {
      if e in m.edges && !(e in g.edges && e.lo != b && e.hi != b) {
        var n :| n in Nbrs(g, b) && n != a && E(a, n) == e;
        assert n in Nbrs(g, b) - {a};
      }
      if e in toAdd {
        var n :| n in Nbrs(g, b) - {a} && n !in Nbrs(g, a) - {b} && e == E(a, n);
        assert n in Nbrs(g, b) && n != a && n != b;
      }
    }
  }

  /** The graphs `reduceGraph` may return for `g`: `g` itself when no edge joins
      two nodes of one colour; otherwise the result for the graph obtained by
      merging the endpoints of some such edge. Which edge is taken first depends on
      how Python 2 orders `Group` objects, so every choice is allowed. */
  ghost predicate ReducesTo(g: Graph, r: Graph)
    requires WF(g)
    decreases g.nodes.Keys
  {
    if Reduced(g) then r == g
    else exists a, b :: a in g.nodes && b in g.nodes && Adj(g, a, b) &&
                        ColourEq(g.nodes[a].colour, g.nodes[b].colour) &&
                        ReducesTo(Merge(g, a, b), r)
  }

  /** Every possible outcome of contraction is fully reduced and keeps only
      identities that were there; it differs from the input exactly when the input
      had an equal-coloured edge, and then it has lost at least one node. */
  lemma {:induction false} ReducesToShape(g: Graph, r: Graph)
    requires WF(g) && ReducesTo(g, r)
    ensures WF(r) && Reduced(r)
    ensures Reduced(g) <==> r == g
    ensures !Reduced(g) ==> r.nodes.Keys < g.nodes.Keys
    ensures r.nodes.Keys <= g.nodes.Keys
    ensures g.nodes != map[] ==> r.nodes != map[]
    decreases g.nodes.Keys
  {
    if !Reduced(g) {
      var a, b :| a in g.nodes && b in g.nodes && Adj(g, a, b) &&
                  ColourEq(g.nodes[a].colour, g.nodes[b].colour) &&
                  ReducesTo(Merge(g, a, b), r);
      var m := Merge(g, a, b);
      ReducesToShape(m, r);
      assert a in m.nodes;
    }
  }

  /** Contraction recolours no surviving region, and each survivor's cells begin
      with the cells it had. */
  lemma {:induction false} ReducesToPayload(g: Graph, r: Graph)
    requires WF(g) && ReducesTo(g, r)
    ensures r.nodes.Keys <= g.nodes.Keys
    ensures forall k :: k in r.nodes ==>
              r.nodes[k].colour == g.nodes[k].colour && g.nodes[k].points <= r.nodes[k].points
    decreases g.nodes.Keys
  {
    ReducesToShape(g, r);
    if !Reduced(g) {
      var a, b :| a in g.nodes && b in g.nodes && Adj(g, a, b) &&
                  ColourEq(g.nodes[a].colour, g.nodes[b].colour) &&
                  ReducesTo(Merge(g, a, b), r);
      var m := Merge(g, a, b);
      ReducesToPayload(m, r);
      MergePoints(g, a, b);
      MergeOthers(g, a, b);
      forall k | k in r.nodes
        ensures r.nodes[k].colour == g.nodes[k].colour && g.nodes[k].points <= r.nodes[k].points
      {
        assert k in m.nodes;
        if k == a {
          assert m.nodes[k].points == g.nodes[k].points + g.nodes[b].points;
        } else {
          assert m.nodes[k] == g.nodes[k];
        }
      }
    }
  }

  /** Contraction loses no cell of the board and no colour. */
  lemma {:induction false} ReducesToPreserves(g: Graph, r: Graph)
    requires WF(g) && ReducesTo(g, r)
    ensures Colours(r) == Colours(g)
    ensures PointsIn(r.nodes) == PointsIn(g.nodes)
    decreases g.nodes.Keys
  {
    if !Reduced(g) {
      var a, b :| a in g.nodes && b in g.nodes && Adj(g, a, b) &&
                  ColourEq(g.nodes[a].colour, g.nodes[b].colour) &&
                  ReducesTo(Merge(g, a, b), r);
      ReducesToPreserves(Merge(g, a, b), r);
      MergePoints(g, a, b);
      MergeColours(g, a, b);
    }
  }

  /** Contraction keeps the graph in step with the board: in every outcome two
      regions are joined exactly when they are distinct and touch. */
  lemma {:induction false} ReducesToSound(g: Graph, r: Graph)
    requires WF(g) && ReducesTo(g, r) && Sound(g)
    ensures Sound(r)
    decreases g.nodes.Keys
  {
    if !Reduced(g) {
      var a, b :| a in g.nodes && b in g.nodes && Adj(g, a, b) &&
                  ColourEq(g.nodes[a].colour, g.nodes[b].colour) &&
                  ReducesTo(Merge(g, a, b), r);
      MergeKeepsSound(g, a, b);
      ReducesToSound(Merge(g, a, b), r);
    }
  }

  /** Contraction is idempotent: every outcome is a fixed point, and the only
      outcome of contracting an outcome is that outcome itself. */
  lemma ReduceIdempotent(g: Graph, r: Graph, r2: Graph)
    requires WF(g) && ReducesTo(g, r)
    ensures WF(r) && ReducesTo(r, r)
    ensures ReducesTo(r, r2) ==> r2 == r
  {
    ReducesToShape(g, r);
  }

  /** A contraction step strictly shrinks the node count. */
  lemma ProperSubsetSmaller(s: set<int>, t: set<int>)
    requires s < t
    ensures |s| < |t|
  {
    var d := t - s;
    assert t == s + d;
    assert s * d == {};
    assert d != {} by {
      if d == {} {
        assert false;
      }
    }
    assert |t| == |s| + |d|;
  }

  /** `reduceGraph` (solver.py:51-112): find an edge whose endpoints have equal
      colour; if there is none return the graph unchanged, otherwise contract it
      and start again on the result. */
  method ReduceGraph(g: Graph) returns (r: Graph)
    requires WF(g)
    ensures ReducesTo(g, r)
    ensures WF(r) && Reduced(r)
    ensures Reduced(g) <==> r == g
    ensures r.nodes.Keys <= g.nodes.Keys
    ensures !Reduced(g) ==> |r.nodes| < |g.nodes|
    ensures g.nodes != map[] ==> r.nodes != map[]
    ensures forall k :: k in r.nodes ==>
              r.nodes[k].colour == g.nodes[k].colour && g.nodes[k].points <= r.nodes[k].points
    ensures Colours(r) == Colours(g)
    ensures PointsIn(r.nodes) == PointsIn(g.nodes)
    ensures Sound(g) ==> Sound(r)
    decreases g.nodes.Keys
  {
    if a, b :| a in g.nodes && b in g.nodes && Adj(g, a, b) &&
               ColourEq(g.nodes[a].colour, g.nodes[b].colour) {
      var merged := Contract(g, a, b);
      r := ReduceGraph(merged);
      assert !Reduced(g) by {
        assert SameColourEdge(g, E(a, b));
      }
    } else {
      assert Reduced(g) by {
        forall e | e in g.edges ensures !SameColourEdge(g, e) {
          assert Adj(g, e.lo, e.hi);
        }
      }
      r := g;
    }
    ReducesToShape(g, r);
    ReducesToPayload(g, r);
    ReducesToPreserves(g, r);
    if Sound(g) {
      ReducesToSound(g, r);
    }
    if !Reduced(g) {
      ProperSubsetSmaller(r.nodes.Keys, g.nodes.Keys);
    }
  }
}
