/** The region graph of solver.py, with value semantics: nodes are keyed by
    the region index (which is what `Group.__eq__`/`__hash__` make them in
    networkx), edges are unordered index pairs. One contraction step
    (`Merge`) and the facts about it live here. */
module PuzzleGraph {
  import opened Common
  import opened SolverValues

  /** The payload of a node: its current colour and the cells it covers. */
  datatype Node = Node(colour: Colour, points: seq<Point>)

  /** An undirected edge, stored with its smaller endpoint first. */
  datatype Edge = Edge(lo: int, hi: int)

  datatype Graph = Graph(nodes: map<int, Node>, edges: set<Edge>)

  /** The edge between `a` and `b`, whichever order they are given in. */
  function E(a: int, b: int): (e: Edge)
    ensures (e.lo == a && e.hi == b) || (e.lo == b && e.hi == a)
    ensures e.lo <= e.hi
  {
    if a <= b then Edge(a, b) else Edge(b, a)
  }

  /** A simple undirected graph: every edge joins two distinct nodes. */
  ghost predicate WF(g: Graph)
  {
    forall e :: e in g.edges ==> e.lo < e.hi && e.lo in g.nodes && e.hi in g.nodes
  }

  predicate Adj(g: Graph, a: int, b: int)
  {
    a != b && E(a, b) in g.edges
  }

  /** `nx.all_neighbors(g, a)` as a set. */
  function Nbrs(g: Graph, a: int): (ns: set<int>)
    ensures forall n :: n in ns <==> n in g.nodes && Adj(g, a, n)
  {
    set n | n in g.nodes && Adj(g, a, n)
  }

  /** An edge whose two endpoints carry the same colour (`a.colour == b.colour`). */
  predicate SameColourEdge(g: Graph, e: Edge)
  {
    e.lo in g.nodes && e.hi in g.nodes && ColourEq(g.nodes[e.lo].colour, g.nodes[e.hi].colour)
  }

  /** No edge is left whose endpoints have equal colour: `reduceGraph`'s stopping state. */
  predicate Reduced(g: Graph)
  {
    forall e :: e in g.edges ==> !SameColourEdge(g, e)
  }

  /** The set of colours still on the board. */
  function Colours(g: Graph): set<Colour>
  {
    set k | k in g.nodes :: g.nodes[k].colour
  }

  /** All cells of all regions, counted with multiplicity. */
  ghost function PointsIn(nodes: map<int, Node>): multiset<Point>
    decreases nodes.Keys
  {
    if nodes.Keys == {} then multiset{}
    else
      var k := Pick(nodes.Keys);
      multiset(nodes[k].points) + PointsIn(nodes - {k})
  }

  /** `PointsIn` may be unfolded at any key, not just the one it happens to pick. */
  lemma {:induction false} PointsInAt(nodes: map<int, Node>, k: int)
    requires k in nodes
    ensures PointsIn(nodes) == multiset(nodes[k].points) + PointsIn(nodes - {k})
    decreases nodes.Keys
  {
    var j :| j in nodes && PointsIn(nodes) == multiset(nodes[j].points) + PointsIn(nodes - {j});
    if j != k {
      assert (nodes - {j}) - {k} == (nodes - {k}) - {j};
      PointsInAt(nodes - {j}, k);
      PointsInAt(nodes - {k}, j);
    }
  }

  /** One contraction step (solver.py:71-106): `a` survives and `b` is absorbed.
      Every edge at `b` is dropped; `a` is joined to each other neighbour of `b`;
      `b`'s points are appended to `a`'s; `b` is deleted. */
  function Merge(g: Graph, a: int, b: int): (r: Graph)
    requires WF(g) && a in g.nodes && b in g.nodes && Adj(g, a, b)
    ensures WF(r)
    ensures r.nodes.Keys == g.nodes.Keys - {b}
  {
    var kept := set e | e in g.edges && e.lo != b && e.hi != b;
    var rehomed := set n | n in Nbrs(g, b) && n != a :: E(a, n);
    var na := Node(g.nodes[a].colour, g.nodes[a].points + g.nodes[b].points);
    Graph((g.nodes - {b})[a := na], kept + rehomed)
  }

  /** A merge removes exactly one node. */
  lemma MergeCount(g: Graph, a: int, b: int)
    requires WF(g) && a in g.nodes && b in g.nodes && Adj(g, a, b)
    ensures |Merge(g, a, b).nodes| == |g.nodes| - 1
  {
    var r := Merge(g, a, b);
    assert r.nodes.Keys == g.nodes.Keys - {b};
    assert |r.nodes.Keys| == |g.nodes.Keys| - 1;
  }

  /** Adjacency after a merge, pair by pair: `b` is gone, and a pair is joined
      when it was joined before or when it is `a` with a former neighbour of `b`. */
  lemma MergeAdj(g: Graph, a: int, b: int, x: int, y: int)
    requires WF(g) && a in g.nodes && b in g.nodes && Adj(g, a, b)
    ensures Adj(Merge(g, a, b), x, y) <==>
              x != b && y != b && x != y &&
              (Adj(g, x, y) || (x == a && Adj(g, b, y)) || (y == a && Adj(g, b, x)))
  {
    var r := Merge(g, a, b);
    var e := E(x, y);
    var rehomed := set n | n in Nbrs(g, b) && n != a :: E(a, n);
    assert r.edges == (set e | e in g.edges && e.lo != b && e.hi != b) + rehomed;
    if e in rehomed {
      var m :| m in Nbrs(g, b) && m != a && E(a, m) == e;
      assert m in g.nodes && m != b;
    }
    if x != b && y != b && x != y && x == a && Adj(g, b, y) {
      assert y in Nbrs(g, b);
      assert E(a, y) in r.edges;
    }
    if x != b && y != b && x != y && y == a && Adj(g, b, x) {
      assert x in Nbrs(g, b);
      assert E(a, x) in r.edges;
    }
  }

  /** Neighbourhoods after a merge: `a` gets N(a) + N(b) - {a, b}; any other node
      that was next to `b` is now next to `a` instead; all others keep theirs. */
  lemma MergeNeighbours(g: Graph, a: int, b: int)
    requires WF(g) && a in g.nodes && b in g.nodes && Adj(g, a, b)
    ensures Nbrs(Merge(g, a, b), a) == (Nbrs(g, a) + Nbrs(g, b)) - {a, b}
    ensures forall c :: c in g.nodes && c != a && c != b ==>
              Nbrs(Merge(g, a, b), c) ==
                if b in Nbrs(g, c) then (Nbrs(g, c) - {b}) + {a} else Nbrs(g, c)
  {
    var r := Merge(g, a, b);
    forall n ensures n in Nbrs(r, a) <==> n in (Nbrs(g, a) + Nbrs(g, b)) - {a, b} {
      MergeAdj(g, a, b, a, n);
    }
    forall c | c in g.nodes && c != a && c != b
      ensures Nbrs(r, c) == if b in Nbrs(g, c) then (Nbrs(g, c) - {b}) + {a} else Nbrs(g, c)
    {
      MergeNeighboursAt(g, a, b, c);
    }
  }

  lemma MergeNeighboursAt(g: Graph, a: int, b: int, c: int)
    requires WF(g) && a in g.nodes && b in g.nodes && Adj(g, a, b)
    requires c in g.nodes && c != a && c != b
    ensures Nbrs(Merge(g, a, b), c) == if b in Nbrs(g, c) then (Nbrs(g, c) - {b}) + {a} else Nbrs(g, c)
  {
    var r := Merge(g, a, b);
    forall n ensures n in Nbrs(r, c) <==> n in (if b in Nbrs(g, c) then (Nbrs(g, c) - {b}) + {a} else Nbrs(g, c)) {
      MergeAdj(g, a, b, c, n);
    }
  }

  /** Edges away from `b` survive a merge, and edges that touch neither `a` nor `b`
      are exactly those of before. */
  lemma MergeEdges(g: Graph, a: int, b: int)
    requires WF(g) && a in g.nodes && b in g.nodes && Adj(g, a, b)
    ensures forall e :: e in g.edges && e.lo != b && e.hi != b ==> e in Merge(g, a, b).edges
    ensures forall e: Edge :: e.lo != a && e.hi != a && e.lo != b && e.hi != b ==>
              (e in Merge(g, a, b).edges <==> e in g.edges)
    ensures forall e :: e in Merge(g, a, b).edges ==> e.lo != b && e.hi != b
  {
    var r := Merge(g, a, b);
    var kept := set e | e in g.edges && e.lo != b && e.hi != b;
    var rehomed := set n | n in Nbrs(g, b) && n != a :: E(a, n);
    assert r.edges == kept + rehomed;
    forall e | e in r.edges
      ensures e.lo != b && e.hi != b && (e.lo != a && e.hi != a ==> e in g.edges)
    {
      if e !in kept {
        var m :| m in Nbrs(g, b) && m != a && E(a, m) == e;
        assert m in g.nodes && m != b;
      }
    }
  }

  /** A merge appends `b`'s cells to `a`'s, leaves every other node as it was and
      keeps the multiset of all cells on the board. */
  lemma {:induction false} MergePoints(g: Graph, a: int, b: int)
    requires WF(g) && a in g.nodes && b in g.nodes && Adj(g, a, b)
    ensures Merge(g, a, b).nodes[a].points == g.nodes[a].points + g.nodes[b].points
    ensures PointsIn(Merge(g, a, b).nodes) == PointsIn(g.nodes)
  {
    var r := Merge(g, a, b);
    var rest := (g.nodes - {a}) - {b};
    PointsInAt(g.nodes, a);
    PointsInAt(g.nodes - {a}, b);
    assert PointsIn(g.nodes) == multiset(g.nodes[a].points) + multiset(g.nodes[b].points) + PointsIn(rest);
    PointsInAt(r.nodes, a);
    assert r.nodes - {a} == rest;
    assert multiset(r.nodes[a].points) == multiset(g.nodes[a].points) + multiset(g.nodes[b].points);
  }

  /** Nodes other than `a` and `b` come through a merge untouched. */
  lemma MergeOthers(g: Graph, a: int, b: int)
    requires WF(g) && a in g.nodes && b in g.nodes && Adj(g, a, b)
    ensures forall k :: k in g.nodes && k != a && k != b ==> Merge(g, a, b).nodes[k] == g.nodes[k]
  {
  }

  /** Merging two regions of one colour recolours nothing and keeps the set of
      colours on the board. */
  lemma MergeColours(g: Graph, a: int, b: int)
    requires WF(g) && a in g.nodes && b in g.nodes && Adj(g, a, b)
    requires g.nodes[a].colour == g.nodes[b].colour
    ensures forall k :: k in Merge(g, a, b).nodes ==> Merge(g, a, b).nodes[k].colour == g.nodes[k].colour
    ensures Colours(Merge(g, a, b)) == Colours(g)
  {
    var r := Merge(g, a, b);
    forall c | c in Colours(g) ensures c in Colours(r) {
      var k :| k in g.nodes && g.nodes[k].colour == c;
      if k == b {
        assert r.nodes[a].colour == c;
      } else {
        assert r.nodes[k].colour == c;
      }
    }
  }

  /** The graph matches the board: two nodes are joined exactly when they are
      distinct and their regions touch. */
  ghost predicate Sound(g: Graph)
  {
    forall x, y :: x in g.nodes && y in g.nodes ==>
      (Adj(g, x, y) <==> x != y && Touches(g.nodes[x].points, g.nodes[y].points))
  }

  /** Appending `b`'s points to `a`'s: the union touches what either part touches. */
  lemma {:induction false} TouchesAppend(ps: seq<Point>, qs: seq<Point>, rs: seq<Point>)
    ensures Touches(ps + qs, rs) <==> Touches(ps, rs) || Touches(qs, rs)
  {
    var us := ps + qs;
    if Touches(us, rs) {
      var i, j :| 0 <= i < |us| && 0 <= j < |rs| && Cityblock(us[i], rs[j]) == 1;
      if i < |ps| {
        assert Cityblock(ps[i], rs[j]) == 1;
      } else {
        assert Cityblock(qs[i - |ps|], rs[j]) == 1;
      }
    }
    if Touches(ps, rs) {
      var i, j :| 0 <= i < |ps| && 0 <= j < |rs| && Cityblock(ps[i], rs[j]) == 1;
      assert us[i] == ps[i];
    }
    if Touches(qs, rs) {
      var i, j :| 0 <= i < |qs| && 0 <= j < |rs| && Cityblock(qs[i], rs[j]) == 1;
      assert us[|ps| + i] == qs[i];
    }
  }

  /** Merging two joined nodes keeps the graph sound: `a` now holds both point
      lists and is joined to the neighbours of both. */
  lemma MergeKeepsSound(g: Graph, a: int, b: int)
    requires WF(g) && a in g.nodes && b in g.nodes && Adj(g, a, b) && Sound(g)
    ensures Sound(Merge(g, a, b))
  {
    var r := Merge(g, a, b);
    forall x, y | x in r.nodes && y in r.nodes
      ensures Adj(r, x, y) <==> x != y && Touches(r.nodes[x].points, r.nodes[y].points)
    {
      MergeAdj(g, a, b, x, y);
      if x == a && y != a {
        TouchesAppend(g.nodes[a].points, g.nodes[b].points, g.nodes[y].points);
      } else if y == a && x != a {
        TouchesSymmetric(g.nodes[x].points, g.nodes[a].points + g.nodes[b].points);
        TouchesSymmetric(g.nodes[x].points, g.nodes[a].points);
        TouchesSymmetric(g.nodes[x].points, g.nodes[b].points);
        TouchesAppend(g.nodes[a].points, g.nodes[b].points, g.nodes[x].points);
      }
    }
  }
}
