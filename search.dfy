/** `solve` of solver.py: recolour one region to a neighbour's colour, contract,
    and recurse, without backtracking. */
module Search {
  import opened Common
  import opened SolverValues
  import opened PuzzleGraph
  import opened Reduce

  datatype Option<T> = None | Some(value: T)

  /** One move: recolour region `idx` to `colour`. (solver.py records
      `str(colour)`; the colour value itself is kept here.) */
  datatype Move = Move(idx: int, colour: Colour)

  /** What `solve` returns on success: the move count and the moves. */
  datatype Solution = Solution(path: nat, moves: seq<Move>)

  /** `xnode.colour = colour` on the copied graph: only the one node's colour changes. */
  function Recolour(g: Graph, i: int, c: Colour): (r: Graph)
    requires WF(g) && i in g.nodes
    ensures WF(r) && r.nodes.Keys == g.nodes.Keys && r.edges == g.edges
    ensures r.nodes[i] == Node(c, g.nodes[i].points)
    ensures forall k :: k in g.nodes && k != i ==> r.nodes[k] == g.nodes[k]
  {
    Graph(g.nodes[i := Node(c, g.nodes[i].points)], g.edges)
  }

  /** A move `solve` can make: the region exists and takes the colour of one of
      its neighbours. */
  predicate Legal(g: Graph, m: Move)
  {
    m.idx in g.nodes && exists n :: n in Nbrs(g, m.idx) && g.nodes[n].colour == m.colour
  }

  /** The runs `solve` can make from `g`: the moves it appends and whether it
      ends with a solution. A one-region graph is solved with no move; a graph
      with any other node count and no edge makes `solve` fall through and
      return `None`; otherwise a legal move is made, the graph contracted, and the
      run continues on whatever contraction produced. */
  ghost predicate Run(g: Graph, moves: seq<Move>, solved: bool)
    requires WF(g)
    decreases g.nodes.Keys
  {
    if |g.nodes| == 1 then moves == [] && solved
    else if moves == [] then !solved && g.edges == {}
    else
      Legal(g, moves[0]) &&
      exists r :: ReducesTo(Recolour(g, moves[0].idx, moves[0].colour), r) &&
                  WF(r) && r.nodes.Keys < g.nodes.Keys &&
                  Run(r, moves[1..], solved)
  }

  /** A legal move followed by contraction always removes at least one region. */
  lemma LegalMoveShrinks(g: Graph, m: Move, r: Graph)
    requires WF(g) && Legal(g, m)
    requires ReducesTo(Recolour(g, m.idx, m.colour), r)
    ensures WF(r) && r.nodes.Keys < g.nodes.Keys
  {
    var t := Recolour(g, m.idx, m.colour);
    var n :| n in Nbrs(g, m.idx) && g.nodes[n].colour == m.colour;
    assert SameColourEdge(t, E(m.idx, n));
    ReducesToShape(t, r);
  }

  /** Recolouring changes no points and no edges, so it keeps the graph in
      step with the board. */
  lemma RecolourKeepsSound(g: Graph, i: int, c: Colour)
    requires WF(g) && i in g.nodes && Sound(g)
    ensures Sound(Recolour(g, i, c))
  {
    var t := Recolour(g, i, c);
    forall x, y | x in t.nodes && y in t.nodes
      ensures Adj(t, x, y) <==> x != y && Touches(t.nodes[x].points, t.nodes[y].points)
    {
      assert t.nodes[x].points == g.nodes[x].points && t.nodes[y].points == g.nodes[y].points;
      assert Adj(t, x, y) == Adj(g, x, y);
    }
  }

  /** A move keeps the graph in step with the board: recolouring changes no
      points and no edges, and contraction keeps soundness. */
  lemma MoveKeepsSound(g: Graph, m: Move, r: Graph)
    requires WF(g) && m.idx in g.nodes && Sound(g)
    requires ReducesTo(Recolour(g, m.idx, m.colour), r)
    ensures Sound(r)
  {
    RecolourKeepsSound(g, m.idx, m.colour);
    ReducesToSound(Recolour(g, m.idx, m.colour), r);
  }

  /** Extending a run by one legal move in front. */
  lemma RunCons(g: Graph, m: Move, r: Graph, rest: seq<Move>, solved: bool)
    requires WF(g) && |g.nodes| != 1 && Legal(g, m)
    requires ReducesTo(Recolour(g, m.idx, m.colour), r)
    requires WF(r) && Run(r, rest, solved)
    ensures Run(g, [m] + rest, solved)
  {
    LegalMoveShrinks(g, m, r);
    assert ([m] + rest)[1..] == rest;
  }

  /** A graph with an edge has a node with a neighbour. */
  lemma EdgeGivesNeighbour(g: Graph)
    requires WF(g)
    ensures g.edges != {} ==> exists k :: k in g.nodes && Nbrs(g, k) != {}
  {
    if g.edges != {} {
      if forall e :: e !in g.edges {
        assert false;
      }
      var e :| e in g.edges;
      assert e.hi in Nbrs(g, e.lo);
    }
  }

  /** A run never has more moves than the graph has regions beyond the first:
      `solve`'s recursion depth is below the initial node count. */
  lemma {:induction false} RunLength(g: Graph, moves: seq<Move>, solved: bool)
    requires WF(g) && Run(g, moves, solved)
    ensures |moves| <= |g.nodes|
    ensures g.nodes != map[] ==> |moves| < |g.nodes|
    decreases g.nodes.Keys
  {
    if |g.nodes| != 1 && moves != [] {
      var r :| ReducesTo(Recolour(g, moves[0].idx, moves[0].colour), r) &&
                WF(r) && r.nodes.Keys < g.nodes.Keys &&
                Run(r, moves[1..], solved);
      RunLength(r, moves[1..], solved);
      ProperSubsetSmaller(r.nodes.Keys, g.nodes.Keys);
      ReducesToShape(Recolour(g, moves[0].idx, moves[0].colour), r);
    }
  }

  /** `solve` (solver.py:142-167). With one region left it returns
      `(path, solution)`. Otherwise it walks the nodes until it finds one with a
      neighbour, recolours that node to its first neighbour's colour, records the
      move, contracts and returns whatever the recursive call returns: no other
      node or colour is ever tried. If no node has a neighbour the loops fall
      through and the result is `None`. */
  method Solve(g: Graph, path: nat, solution: seq<Move>)
    returns (res: Option<Solution>, ghost trace: seq<Move>)
    requires WF(g)
    ensures Run(g, trace, res.Some?)
    ensures res.Some? ==> res.value == Solution(path + |trace|, solution + trace)
    ensures |g.nodes| == 1 ==> res == Some(Solution(path, solution))
    ensures g.nodes != map[] ==> |trace| < |g.nodes|
    decreases g.nodes.Keys
  {
    if |g.nodes| == 1 {
      return Some(Solution(path, solution)), [];
    }
    var pending := g.nodes.Keys;
    while pending != {}
      invariant pending <= g.nodes.Keys
      invariant forall k :: k in g.nodes && k !in pending ==> Nbrs(g, k) == {}
      decreases pending
    {
      // a named element shows that the `:|` below has a solution
      ghost var some := Pick(pending);
      var node :| node in pending;
      var neighbours := Nbrs(g, node);
      if neighbours != {} {
        // a named element shows that the `:|` below has a solution
        ghost var other := Pick(neighbours);
        var n :| n in neighbours;
        var colour := g.nodes[n].colour;
        var move := Move(node, colour);
        var tmp := Recolour(g, node, colour);
        var soln := solution + [move];
        assert forall t :: soln + t == solution + ([move] + t);
        tmp := ReduceGraph(tmp);
        if |g.nodes| == 1 {
          // solver.py:164 tests the parent graph, which cannot have one node here
          assert false;
        }
        LegalMoveShrinks(g, move, tmp);
        ghost var rest;
        res, rest := Solve(tmp, path + 1, soln);
        trace := [move] + rest;
        RunCons(g, move, tmp, rest, res.Some?);
        RunLength(g, trace, res.Some?);
        return;
      }
      pending := pending - {node};
    }
    EdgeGivesNeighbour(g);
    res, trace := None, [];
  }
}
