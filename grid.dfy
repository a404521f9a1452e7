/** The pixel grid of rektdect.py as `floodFromPoint` sees it: in-bounds
    orthogonal neighbours, colour closeness, and the cells a flood can reach. */
module Grid {
  import opened Common

  /** One pixel's colour channels (`map(int, data[point])`). */
  datatype Pixel = Pixel(r: int, g: int, b: int)

  /** A cell `(x, y)` with `0 <= x < w` (the first array axis) and `0 <= y < h`. */
  type Cell = (int, int)

  /** The image being binned: `w` rows of `h` pixels. It is only ever read. */
  datatype Image = Image(w: nat, h: nat, pixels: seq<seq<Pixel>>)

  ghost predicate Valid(img: Image)
  {
    |img.pixels| == img.w && forall x :: 0 <= x < img.w ==> |img.pixels[x]| == img.h
  }

  predicate InGrid(c: Cell, w: int, h: int)
  {
    0 <= c.0 < w && 0 <= c.1 < h
  }

  function At(img: Image, c: Cell): Pixel
    requires Valid(img) && InGrid(c, img.w, img.h)
  {
    img.pixels[c.0][c.1]
  }

  /** `getNeighbours` (rektdect.py:97-108): left, right, up, down, each only when
      the moved coordinate stays inside its axis. */
  function Neighbours(p: Cell, w: int, h: int): (ns: seq<Cell>)
    ensures |ns| <= 4
    ensures forall k :: 0 <= k < |ns| ==> Cityblock(p, ns[k]) == 1
    ensures forall k, l :: 0 <= k < l < |ns| ==> ns[k] != ns[l]
    ensures InGrid(p, w, h) ==> forall q :: q in ns <==> InGrid(q, w, h) && Cityblock(p, q) == 1
  {
    var (x, y) := p;
    (if x > 0 then [(x - 1, y)] else []) +
    (if x + 1 < w then [(x + 1, y)] else []) +
    (if y > 0 then [(x, y - 1)] else []) +
    (if y + 1 < h then [(x, y + 1)] else [])
  }

  /** Squared Euclidean distance of two colours. */
  function SqDist(a: Pixel, b: Pixel): nat
  {
    (a.r - b.r) * (a.r - b.r) + (a.g - b.g) * (a.g - b.g) + (a.b - b.b) * (a.b - b.b)
  }

  /** `d` is the truncated square root of `s`: what `int(distance.euclidean(..))`
      yields for a squared distance `s`. */
  ghost predicate IsTruncSqrt(s: nat, d: int)
  {
    0 <= d && d * d <= s < (d + 1) * (d + 1)
  }

  /** The flood test `dist < thresh`, stated on squared distances. */
  predicate Close(a: Pixel, b: Pixel, thresh: int)
  {
    thresh > 0 && SqDist(a, b) < thresh * thresh
  }

  lemma SquareMonotone(m: int, n: int)
    requires 0 <= m <= n
    ensures m * m <= n * n
  {
    assert m * m <= m * n <= n * n;
  }

  /** `Close` is exactly the source's test on the truncated Euclidean distance,
      for every integer threshold, negative ones included. */
  lemma CloseIsTruncatedTest(a: Pixel, b: Pixel, thresh: int, d: int)
    requires IsTruncSqrt(SqDist(a, b), d)
    ensures d < thresh <==> Close(a, b, thresh)
  {
    var s := SqDist(a, b);
    if thresh > 0 {
      if d < thresh {
        SquareMonotone(d + 1, thresh);
      }
      if s < thresh * thresh && d >= thresh {
        SquareMonotone(thresh, d);
      }
    }
  }

  /** One flood step: from an in-grid cell to one of its neighbours of close colour. */
  ghost predicate Step(img: Image, thresh: int, p: Cell, q: Cell)
  {
    Valid(img) && InGrid(p, img.w, img.h) && q in Neighbours(p, img.w, img.h) &&
    Close(At(img, p), At(img, q), thresh)
  }

  /** Neighbourhood and closeness are both symmetric, so steps are too. */
  lemma StepSymmetric(img: Image, thresh: int, p: Cell, q: Cell)
    requires Valid(img) && Step(img, thresh, p, q)
    ensures Step(img, thresh, q, p)
  {
    assert InGrid(q, img.w, img.h) && Cityblock(q, p) == 1;
    assert SqDist(At(img, q), At(img, p)) == SqDist(At(img, p), At(img, q));
  }

  /** A walk of flood steps. */
  ghost predicate IsPath(img: Image, thresh: int, path: seq<Cell>)
  {
    |path| > 0 && InGrid(path[0], img.w, img.h) &&
    forall k :: 0 <= k < |path| - 1 ==> Step(img, thresh, path[k], path[k + 1])
  }

  /** `q` is reachable from `p` by flood steps (in zero or more steps). */
  ghost predicate Reaches(img: Image, thresh: int, p: Cell, q: Cell)
  {
    exists path :: IsPath(img, thresh, path) && path[0] == p && path[|path| - 1] == q
  }

  lemma ReachesRefl(img: Image, thresh: int, p: Cell)
    requires Valid(img) && InGrid(p, img.w, img.h)
    ensures Reaches(img, thresh, p, p)
  {
    assert IsPath(img, thresh, [p]);
  }

  lemma ReachesInGrid(img: Image, thresh: int, p: Cell, q: Cell)
    requires Valid(img) && Reaches(img, thresh, p, q)
    ensures InGrid(p, img.w, img.h) && InGrid(q, img.w, img.h)
  {
    var path :| IsPath(img, thresh, path) && path[0] == p && path[|path| - 1] == q;
    if |path| > 1 {
      assert Step(img, thresh, path[|path| - 2], path[|path| - 1]);
    }
  }

  /** A step in front of a walk is a walk. */
  lemma ReachesCons(img: Image, thresh: int, p: Cell, q: Cell, r: Cell)
    requires Valid(img) && Step(img, thresh, p, q) && Reaches(img, thresh, q, r)
    ensures Reaches(img, thresh, p, r)
  {
    var path :| IsPath(img, thresh, path) && path[0] == q && path[|path| - 1] == r;
    var path' := [p] + path;
    forall k | 0 <= k < |path'| - 1 ensures Step(img, thresh, path'[k], path'[k + 1]) {
      if k > 0 {
        assert path'[k] == path[k - 1] && path'[k + 1] == path[k];
      }
    }
    assert IsPath(img, thresh, path');
  }

  /** Walks compose. */
  lemma {:induction false} ReachesTrans(img: Image, thresh: int, p: Cell, q: Cell, r: Cell)
    requires Valid(img) && Reaches(img, thresh, p, q) && Reaches(img, thresh, q, r)
    ensures Reaches(img, thresh, p, r)
  {
    var path :| IsPath(img, thresh, path) && path[0] == p && path[|path| - 1] == q;
    WalkThen(img, thresh, path, r);
  }

  lemma {:induction false} WalkThen(img: Image, thresh: int, path: seq<Cell>, r: Cell)
    requires Valid(img) && IsPath(img, thresh, path) && Reaches(img, thresh, path[|path| - 1], r)
    ensures Reaches(img, thresh, path[0], r)
    decreases |path|
  {
    if |path| > 1 {
      var tail := path[1..];
      assert IsPath(img, thresh, tail) by {
        forall k | 0 <= k < |tail| - 1 ensures Step(img, thresh, tail[k], tail[k + 1]) {
          assert Step(img, thresh, path[k + 1], path[k + 2]);
        }
        assert Step(img, thresh, path[0], path[1]);
      }
      WalkThen(img, thresh, tail, r);
      assert Step(img, thresh, path[0], path[1]);
      ReachesCons(img, thresh, path[0], path[1], r);
    }
  }

  /** Walks can be walked backwards. */
  lemma {:induction false} ReachesSymmetric(img: Image, thresh: int, p: Cell, q: Cell)
    requires Valid(img) && Reaches(img, thresh, p, q)
    ensures Reaches(img, thresh, q, p)
  {
    var path :| IsPath(img, thresh, path) && path[0] == p && path[|path| - 1] == q;
    WalkBack(img, thresh, path);
  }

  lemma {:induction false} WalkBack(img: Image, thresh: int, path: seq<Cell>)
    requires Valid(img) && IsPath(img, thresh, path)
    ensures Reaches(img, thresh, path[|path| - 1], path[0])
    decreases |path|
  {
    if |path| == 1 {
      ReachesRefl(img, thresh, path[0]);
    } else {
      var tail := path[1..];
      assert Step(img, thresh, path[0], path[1]);
      assert IsPath(img, thresh, tail) by {
        forall k | 0 <= k < |tail| - 1 ensures Step(img, thresh, tail[k], tail[k + 1]) {
          assert Step(img, thresh, path[k + 1], path[k + 2]);
        }
      }
      WalkBack(img, thresh, tail);
      StepSymmetric(img, thresh, path[0], path[1]);
      ReachesRefl(img, thresh, path[0]);
      ReachesCons(img, thresh, path[1], path[0], path[0]);
      ReachesTrans(img, thresh, path[|path| - 1], path[1], path[0]);
    }
  }

  /** A set that holds `p` and is closed under steps holds everything `p` reaches. */
  lemma {:induction false} ClosedHoldsReach(img: Image, thresh: int, s: set<Cell>, p: Cell, q: Cell)
    requires Valid(img) && p in s
    requires forall c, d :: c in s && Step(img, thresh, c, d) ==> d in s
    requires Reaches(img, thresh, p, q)
    ensures q in s
  {
    var path :| IsPath(img, thresh, path) && path[0] == p && path[|path| - 1] == q;
    var k := 0;
    while k < |path| - 1
      invariant 0 <= k < |path|
      invariant path[k] in s
    {
      assert Step(img, thresh, path[k], path[k + 1]);
      k := k + 1;
    }
  }

  lemma StepNeedsPositive(img: Image, thresh: int, p: Cell, q: Cell)
    requires Valid(img)
    ensures Step(img, thresh, p, q) ==> thresh > 0
  {
  }

  /** With a threshold of zero or below (the `customBin` default is 0) no two
      colours are close, so a flood reaches only its start cell. */
  lemma NoStepBelowZero(img: Image, thresh: int, p: Cell, q: Cell)
    requires Valid(img) && thresh <= 0
    ensures Reaches(img, thresh, p, q) <==> InGrid(p, img.w, img.h) && q == p
  {
    if Reaches(img, thresh, p, q) {
      var path :| IsPath(img, thresh, path) && path[0] == p && path[|path| - 1] == q;
      if |path| > 1 {
        StepNeedsPositive(img, thresh, path[0], path[1]);
        assert false;
      }
    }
    if InGrid(p, img.w, img.h) && q == p {
      ReachesRefl(img, thresh, p);
    }
  }
}
