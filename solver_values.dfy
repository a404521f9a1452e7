/** Value types of the puzzle solver: colours, grid points and regions
    (the `Colour` and `Group` classes of solver.py). */
module SolverValues {
  import opened Common

  /** An RGB colour; the channels are whatever integers the board file holds. */
  datatype Colour = Colour(r: int, g: int, b: int)

  /** A grid coordinate (row, column) as the board loader hands it over. */
  type Point = (int, int)

  /** A region of the board. Its identity is `idx`; colour and points are payload. */
  datatype Group = Group(points: seq<Point>, colour: Colour, idx: int)

  /** `Colour.__eq__`: channel-by-channel comparison. It coincides with value equality. */
  predicate ColourEq(c: Colour, d: Colour)
    ensures ColourEq(c, d) <==> c == d
  {
    c.r == d.r && c.g == d.g && c.b == d.b
  }

  /** `Group.__eq__`: regions are the same exactly when their indices are. */
  predicate GroupEq(a: Group, b: Group)
  {
    a.idx == b.idx
  }

  /** `Group.__hash__`. */
  function GroupHash(a: Group): int
  {
    a.idx
  }

  /** Equality and hash of a region ignore its colour and its points, and are
      consistent with each other: this is what lets a region keep its identity
      as a graph node while it is recoloured and while it absorbs points. */
  lemma GroupIdentity(a: Group, b: Group)
    ensures GroupEq(a, b) <==> a.idx == b.idx
    ensures GroupEq(a, b) ==> GroupHash(a) == GroupHash(b)
    ensures forall c: Colour, ps: seq<Point> ::
              GroupEq(a, a.(colour := c, points := ps))
  {
  }

  /** The inner loop of `Group.touches`: does `a` lie next to some point of `qs`?
      Scans `qs` front to back and stops at the first hit. */
  function TouchesPoint(a: Point, qs: seq<Point>): (r: bool)
    ensures r <==> exists j :: 0 <= j < |qs| && Cityblock(a, qs[j]) == 1
  {
    if qs == [] then false
    else if Cityblock(a, qs[0]) == 1 then true
    else TouchesPoint(a, qs[1..])
  }

  /** `Group.touches` on the two point lists: the outer loop over `ps`. */
  function Touches(ps: seq<Point>, qs: seq<Point>): (r: bool)
    ensures r <==> exists i, j :: 0 <= i < |ps| && 0 <= j < |qs| && Cityblock(ps[i], qs[j]) == 1
  {
    if ps == [] then false
    else if TouchesPoint(ps[0], qs) then true
    else
      var rest := Touches(ps[1..], qs);
      assert forall i :: 1 <= i < |ps| ==> ps[i] == ps[1..][i - 1];
      rest
  }

  /** Adjacency of regions does not depend on which one asks. */
  lemma TouchesSymmetric(ps: seq<Point>, qs: seq<Point>)
    ensures Touches(ps, qs) == Touches(qs, ps)
  {
    if Touches(ps, qs) {
      var i, j :| 0 <= i < |ps| && 0 <= j < |qs| && Cityblock(ps[i], qs[j]) == 1;
      assert Cityblock(qs[j], ps[i]) == 1;
    }
    if Touches(qs, ps) {
      var j, i :| 0 <= j < |qs| && 0 <= i < |ps| && Cityblock(qs[j], ps[i]) == 1;
      assert Cityblock(ps[i], qs[j]) == 1;
    }
  }

  /** `Group.touches` on two regions. A region with no points touches nothing. */
  function GroupTouches(a: Group, b: Group): (r: bool)
    ensures r ==> |a.points| > 0 && |b.points| > 0
    ensures r <==> exists p, q :: p in a.points && q in b.points && Cityblock(p, q) == 1
  {
    var r := Touches(a.points, b.points);
    assert r ==> exists p, q :: p in a.points && q in b.points && Cityblock(p, q) == 1 by {
      if r {
        var i, j :| 0 <= i < |a.points| && 0 <= j < |b.points| && Cityblock(a.points[i], b.points[j]) == 1;
        assert a.points[i] in a.points && b.points[j] in b.points;
      }
    }
    assert (exists p, q :: p in a.points && q in b.points && Cityblock(p, q) == 1) ==> r by {
      if exists p, q :: p in a.points && q in b.points && Cityblock(p, q) == 1 {
        var p, q :| p in a.points && q in b.points && Cityblock(p, q) == 1;
        var i :| 0 <= i < |a.points| && a.points[i] == p;
        var j :| 0 <= j < |b.points| && b.points[j] == q;
      }
    }
    r
  }
}
