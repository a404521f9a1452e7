/** The graph-building part of `solveGraph` (solver.py:170-195). */
module Build {
  import opened Common
  import opened SolverValues
  import opened PuzzleGraph
  import opened Reduce
  import opened Search

  /** One colour group of the parsed board: the colour stored under its `'_meta_'`
      key and the point lists of its other keys, in iteration order. */
  datatype ColourGroup = ColourGroup(meta: Colour, subGroups: seq<seq<Point>>)

  /** The nodes one colour group contributes, in order. */
  function GroupNodes(cg: ColourGroup): (ns: seq<Node>)
    ensures |ns| == |cg.subGroups|
    ensures forall k :: 0 <= k < |ns| ==> ns[k] == Node(cg.meta, cg.subGroups[k])
  {
    seq(|cg.subGroups|, k requires 0 <= k < |cg.subGroups| => Node(cg.meta, cg.subGroups[k]))
  }

  /** Every sub-group of the board, in the order `solveGraph` numbers them. */
  function Regions(data: seq<ColourGroup>): seq<Node>
  {
    if data == [] then [] else Regions(data[..|data| - 1]) + GroupNodes(data[|data| - 1])
  }

  /** Edges found by the double loop once all pairs before `(x, y)` in loop order
      have been tested. */
  ghost predicate Tested(x: int, y: int, p: int, q: int)
  {
    p < x || (p == x && q < y)
  }

  /** Two distinct regions are joined exactly when some point of one is a
      city-block neighbour of some point of the other. This is `Sound` with
      `touches` unfolded to points (`GroupTouches` relates the two); it is kept
      as a named predicate so that the contracts stating it stay cheap to check. */
  ghost predicate EdgesWhereTouching(g: Graph)
  {
    forall x, y :: x in g.nodes && y in g.nodes ==>
      (Adj(g, x, y) <==>
         x != y && exists p, q :: p in g.nodes[x].points && q in g.nodes[y].points && Cityblock(p, q) == 1)
  }

  /** Lines 171-182: one node per sub-group, numbered 0, 1, ... in order. */
  method AddNodes(data: seq<ColourGroup>) returns (nodes: map<int, Node>)
    ensures forall k :: k in nodes <==> 0 <= k < |Regions(data)|
    ensures forall k :: 0 <= k < |Regions(data)| ==> nodes[k] == Regions(data)[k]
  {
    nodes := map[];
    var i := 0;
    for c := 0 to |data|
      invariant i == |Regions(data[..c])|
      invariant forall k :: k in nodes <==> 0 <= k < i
      invariant forall k :: 0 <= k < i ==> nodes[k] == Regions(data[..c])[k]
    {
      var cg := data[c];
      assert data[..c + 1][..c] == data[..c];
      assert Regions(data[..c + 1]) == Regions(data[..c]) + GroupNodes(cg);
      for s := 0 to |cg.subGroups|
        invariant i == |Regions(data[..c])| + s
        invariant forall k :: k in nodes <==> 0 <= k < i
        invariant forall k :: 0 <= k < i ==> nodes[k] == Regions(data[..c + 1])[k]
      {
        var group := Group(cg.subGroups[s], cg.meta, i);
        nodes := nodes[group.idx := Node(group.colour, group.points)];
        i := i + 1;
      }
    }
    assert data[..|data|] == data;
  }

  /** Lines 185-191: test every ordered pair of distinct nodes and join those that
      touch. */
  method AddEdges(nodes: map<int, Node>, n: nat) returns (g: Graph)
    requires forall k :: k in nodes <==> 0 <= k < n
    ensures g.nodes == nodes && WF(g) && Sound(g)
    ensures EdgesWhereTouching(g)
  {
    var edges: set<Edge> := {};
    for x := 0 to n
      invariant forall e :: e in edges ==> 0 <= e.lo < e.hi < n
      invariant forall p, q :: 0 <= p < q < n ==>
                  (Edge(p, q) in edges <==>
                     (Tested(x, 0, p, q) || Tested(x, 0, q, p)) && Touches(nodes[p].points, nodes[q].points))
    {
      for y := 0 to n
        invariant forall e :: e in edges ==> 0 <= e.lo < e.hi < n
        invariant forall p, q :: 0 <= p < q < n ==>
                    (Edge(p, q) in edges <==>
                       (Tested(x, y, p, q) || Tested(x, y, q, p)) && Touches(nodes[p].points, nodes[q].points))
      {
        var a := Group(nodes[x].points, nodes[x].colour, x);
        var b := Group(nodes[y].points, nodes[y].colour, y);
        if !GroupEq(a, b) && GroupTouches(a, b) {
          TouchesSymmetric(a.points, b.points);
          edges := edges + {E(a.idx, b.idx)};
        }
      }
    }
    g := Graph(nodes, edges);
    forall x, y | x in g.nodes && y in g.nodes
      ensures Adj(g, x, y) <==>
                x != y && exists p, q :: p in g.nodes[x].points && q in g.nodes[y].points && Cityblock(p, q) == 1
    {
      TouchesSymmetric(nodes[x].points, nodes[y].points);
      var ga := Group(nodes[x].points, nodes[x].colour, x);
      var gb := Group(nodes[y].points, nodes[y].colour, y);
      assert GroupTouches(ga, gb) == Touches(nodes[x].points, nodes[y].points);
    }
  }

  /** Lines 171-191: the graph `solveGraph` builds before its first contraction. */
  method BuildGraph(data: seq<ColourGroup>) returns (g: Graph)
    ensures WF(g) && Sound(g)
    ensures forall k :: k in g.nodes <==> 0 <= k < |Regions(data)|
    ensures forall k :: 0 <= k < |Regions(data)| ==> g.nodes[k] == Regions(data)[k]
    ensures EdgesWhereTouching(g)
  {
    var nodes := AddNodes(data);
    g := AddEdges(nodes, |Regions(data)|);
  }

  /** `solveGraph`: build the graph, contract it, and run `solve` from zero moves. */
  method SolveGraph(data: seq<ColourGroup>)
    returns (res: Option<Solution>, built: Graph, reduced: Graph, ghost trace: seq<Move>)
    ensures WF(built) && forall k :: k in built.nodes <==> 0 <= k < |Regions(data)|
    ensures forall k :: 0 <= k < |Regions(data)| ==> built.nodes[k] == Regions(data)[k]
    ensures EdgesWhereTouching(built)
    ensures Sound(built) && Sound(reduced)
    ensures ReducesTo(built, reduced)
    ensures WF(reduced) && Run(reduced, trace, res.Some?)
    ensures res.Some? ==> res.value == Solution(|trace|, trace)
    ensures PointsIn(reduced.nodes) == PointsIn(built.nodes)
  {
    built := BuildGraph(data);
    reduced := ReduceGraph(built);
    res, trace := Solve(reduced, 0, []);
    assert [] + trace == trace;
  }
}
