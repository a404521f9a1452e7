/** `floodFromPoint` and `customBin` of rektdect.py: connected-component
    labelling of the pixel grid, where two orthogonal neighbours are connected
    when their colours are closer than a threshold. */
module Binning {
  import opened Grid

  /** The cells an array of marks holds true. */
  ghost function Marked(mark: array2<bool>): (s: set<Cell>)
    reads mark
    ensures forall c :: c in s <==> InGrid(c, mark.Length0, mark.Length1) && mark[c.0, c.1]
  {
    set x, y | 0 <= x < mark.Length0 && 0 <= y < mark.Length1 && mark[x, y] :: (x, y)
  }

  /** The cells an array of marks holds false: the flood's termination measure. */
  ghost function Unmarked(mark: array2<bool>): (s: set<Cell>)
    reads mark
    ensures forall c :: c in s <==> InGrid(c, mark.Length0, mark.Length1) && !mark[c.0, c.1]
  {
    set x, y | 0 <= x < mark.Length0 && 0 <= y < mark.Length1 && !mark[x, y] :: (x, y)
  }

  /** Every step out of `c` lands in `s`. */
  ghost predicate ClosedAt(img: Image, thresh: int, s: set<Cell>, c: Cell)
  {
    forall q :: Step(img, thresh, c, q) ==> q in s
  }

  lemma ClosedAtGrows(img: Image, thresh: int, s: set<Cell>, t: set<Cell>, c: Cell)
    requires Valid(img) && s <= t && ClosedAt(img, thresh, s, c)
    ensures ClosedAt(img, thresh, t, c)
  {
  }

  /** What a flood from `p` has added to the marks `s0` by the time they are `s`:
      every new cell is reachable from `p`, and every new cell other than `p`
      has all its steps marked. */
  ghost predicate Grown(img: Image, thresh: int, p: Cell, s0: set<Cell>, s: set<Cell>)
  {
    (forall c :: c in s - s0 ==> Reaches(img, thresh, p, c)) &&
    (forall c :: c in s - s0 - {p} ==> ClosedAt(img, thresh, s, c))
  }

  /** A recursive flood from the close neighbour `ns[k]` of `p` keeps `Grown`,
      and leaves every close neighbour up to `ns[k]` marked. */
  lemma GrownByNeighbour(img: Image, thresh: int, p: Cell, ns: seq<Cell>, k: nat,
                         s0: set<Cell>, before: set<Cell>, after: set<Cell>)
    requires Valid(img) && InGrid(p, img.w, img.h) && ns == Neighbours(p, img.w, img.h) && k < |ns|
    requires Close(At(img, p), At(img, ns[k]), thresh)
    requires Grown(img, thresh, p, s0, before) && before <= after && ns[k] in after
    requires forall c :: c in after - before ==> Reaches(img, thresh, ns[k], c) && ClosedAt(img, thresh, after, c)
    requires forall j :: 0 <= j < k && Step(img, thresh, p, ns[j]) ==> ns[j] in before
    ensures Grown(img, thresh, p, s0, after)
    ensures forall j :: 0 <= j < k + 1 && Step(img, thresh, p, ns[j]) ==> ns[j] in after
  {
    var q := ns[k];
    assert Step(img, thresh, p, q);
    forall c | c in after - before ensures Reaches(img, thresh, p, c) {
      ReachesCons(img, thresh, p, q, c);
    }
    forall c | c in before - s0 - {p} ensures ClosedAt(img, thresh, after, c) {
      ClosedAtGrows(img, thresh, before, after, c);
    }
  }

  /** `floodFromPoint` (rektdect.py:111-123): stop at a cell already marked;
      otherwise mark it and recurse into every neighbour whose colour is close.
      Marks are only ever added. Every cell this call marks is reachable from `p`
      and has all its steps marked when the call returns. */
  method FloodFromPoint(img: Image, mark: array2<bool>, p: Cell, thresh: int)
    requires Valid(img) && mark.Length0 == img.w && mark.Length1 == img.h
    requires InGrid(p, img.w, img.h)
    modifies mark
    ensures old(mark[p.0, p.1]) ==> Marked(mark) == old(Marked(mark))
    ensures old(Marked(mark)) <= Marked(mark) && p in Marked(mark)
    ensures forall c :: c in Marked(mark) - old(Marked(mark)) ==>
              Reaches(img, thresh, p, c) && ClosedAt(img, thresh, Marked(mark), c)
    decreases Unmarked(mark)
  {
    if mark[p.0, p.1] {
      return;
    }
    mark[p.0, p.1] := true;
    var ns := Neighbours(p, img.w, img.h);
    ReachesRefl(img, thresh, p);
    for k := 0 to |ns|
      invariant old(Marked(mark)) + {p} <= Marked(mark)
      invariant Grown(img, thresh, p, old(Marked(mark)), Marked(mark))
      invariant forall j :: 0 <= j < k && Step(img, thresh, p, ns[j]) ==> ns[j] in Marked(mark)
    {
      var neigh := ns[k];
      if Close(At(img, p), At(img, neigh), thresh) {
        ghost var before := Marked(mark);
        assert Unmarked(mark) < old(Unmarked(mark)) by {
          assert p in old(Unmarked(mark)) && p !in Unmarked(mark);
        }
        FloodFromPoint(img, mark, neigh, thresh);
        GrownByNeighbour(img, thresh, p, ns, k, old(Marked(mark)), before, Marked(mark));
      }
    }
  }

  /** From an all-false mask, a flood marks exactly the cells reachable from its start. */
  lemma FloodFromCleanMask(img: Image, thresh: int, p: Cell, s: set<Cell>)
    requires Valid(img) && InGrid(p, img.w, img.h) && p in s
    requires forall c :: c in s ==> Reaches(img, thresh, p, c) && ClosedAt(img, thresh, s, c)
    ensures forall c :: c in s <==> Reaches(img, thresh, p, c)
  {
    forall c | Reaches(img, thresh, p, c) ensures c in s {
      ClosedHoldsReach(img, thresh, s, p, c);
    }
  }
}

module Labelling {
  import opened Common
  import opened Grid
  import opened Binning

  /** Row-major order on cells, the order `np.where` lists them in. */
  predicate Before(c: Cell, d: Cell)
  {
    c.0 < d.0 || (c.0 == d.0 && c.1 < d.1)
  }

  predicate Sorted(s: seq<Cell>)
  {
    forall k, l {:trigger Before(s[k], s[l])} :: 0 <= k < l < |s| ==> Before(s[k], s[l])
  }

  function Row(x: int, h: nat): (r: seq<Cell>)
    ensures forall c :: c in r <==> c.0 == x && 0 <= c.1 < h
    ensures Sorted(r)
  {
    var r := seq(h, y requires 0 <= y < h => (x, y));
    assert forall c: Cell :: c.0 == x && 0 <= c.1 < h ==> r[c.1] == c;
    r
  }

  /** Rows `x` to `w - 1` of the grid, each left to right. */
  function RowsFrom(x: nat, w: nat, h: nat): (r: seq<Cell>)
    ensures forall c :: c in r <==> x <= c.0 < w && 0 <= c.1 < h
    ensures Sorted(r)
    decreases w - x
  {
    if x >= w then []
    else
      var row, rest := Row(x, h), RowsFrom(x + 1, w, h);
      assert forall k :: 0 <= k < |row| ==> row[k] in row;
      assert forall l :: 0 <= l < |rest| ==> rest[l] in rest;
      row + rest
  }

  /** `zip(*np.where(outputData == 0))` on a fresh all-zero array: every cell,
      in row-major order (a Python 2 list). */
  function AllCells(w: nat, h: nat): (r: seq<Cell>)
    ensures forall c :: c in r <==> InGrid(c, w, h)
    ensures Sorted(r)
  {
    RowsFrom(0, w, h)
  }

  /** `list.remove(x)`: delete the first occurrence of `x`. The source would raise
      `ValueError` if `x` were missing; `CustomBin` shows it never is. */
  function Remove(s: seq<Cell>, x: Cell): (r: seq<Cell>)
    requires x in s
    ensures multiset(r) == multiset(s) - multiset{x}
    ensures |r| == |s| - 1
  {
    if s[0] == x then
      assert s == [x] + s[1..];
      s[1..]
    else
      assert s == [s[0]] + s[1..];
      [s[0]] + Remove(s[1..], x)
  }

  /** On a row-major sorted list (no repeats), removing `x` removes every trace
      of it and keeps the order. */
  lemma {:induction false} RemoveSorted(s: seq<Cell>, x: Cell)
    requires x in s && Sorted(s)
    ensures Sorted(Remove(s, x))
    ensures forall c :: c in Remove(s, x) <==> c in s && c != x
  {
    var r := Remove(s, x);
    if s[0] == x {
      assert forall c :: c in s[1..] ==> Before(x, c);
    } else {
      var tail := Remove(s[1..], x);
      RemoveSorted(s[1..], x);
      assert r == [s[0]] + tail;
      assert forall l :: 0 <= l < |tail| ==> tail[l] in s[1..];
      assert forall l :: 0 < l < |r| ==> r[l] == tail[l - 1];
      assert forall c :: c in s[1..] ==> Before(s[0], c);
    }
  }

  /** Lines 140-145: every cell the flood marked leaves the undecided list and
      gets the current group id; nothing else changes. */
  method LabelGroup(output: array2<int>, localGroup: array2<bool>, undecided: seq<Cell>, groupId: int,
                    ghost lab: map<Cell, int>)
    returns (rest: seq<Cell>)
    requires output.Length0 == localGroup.Length0 && output.Length1 == localGroup.Length1
    requires groupId != 0 && Sorted(undecided)
    requires forall c :: c in undecided <==> InGrid(c, output.Length0, output.Length1) && output[c.0, c.1] == 0
    requires forall c :: c in Marked(localGroup) ==> output[c.0, c.1] == 0
    modifies output
    ensures Sorted(rest) && |rest| <= |undecided|
    ensures Marked(localGroup) != {} ==> |rest| < |undecided|
    ensures forall c :: c in rest <==> InGrid(c, output.Length0, output.Length1) && output[c.0, c.1] == 0
    ensures forall x, y :: 0 <= x < output.Length0 && 0 <= y < output.Length1 ==>
              output[x, y] == if localGroup[x, y] then groupId else old(output[x, y])
    ensures old(Agrees(output, lab)) ==> Agrees(output, Relabel(lab, Marked(localGroup), groupId))
  {
    var w, h := output.Length0, output.Length1;
    rest := undecided;
    ghost var removed := false;
    for i := 0 to w
      invariant Sorted(rest) && |rest| <= |undecided| && (removed ==> |rest| < |undecided|)
      invariant forall c :: c in rest <==> InGrid(c, w, h) && output[c.0, c.1] == 0
      invariant forall x, y :: 0 <= x < w && 0 <= y < h ==>
                  output[x, y] == if x < i && localGroup[x, y] then groupId else old(output[x, y])
      invariant forall x, y :: 0 <= x < i && 0 <= y < h && localGroup[x, y] ==> removed
    {
      for j := 0 to h
        invariant Sorted(rest) && |rest| <= |undecided| && (removed ==> |rest| < |undecided|)
        invariant forall c :: c in rest <==> InGrid(c, w, h) && output[c.0, c.1] == 0
        invariant forall x, y :: 0 <= x < w && 0 <= y < h ==>
                    output[x, y] == if (x < i || (x == i && y < j)) && localGroup[x, y] then groupId else old(output[x, y])
        invariant forall x, y :: (0 <= x < i || (x == i && 0 <= y < j)) && 0 <= y < h && localGroup[x, y] ==> removed
      {
        if localGroup[i, j] {
          assert (i, j) in Marked(localGroup);
          RemoveSorted(rest, (i, j));
          rest := Remove(rest, (i, j));
          output[i, j] := groupId;
          removed := true;
        }
      }
    }
    if old(Agrees(output, lab)) {
      ghost var lab' := Relabel(lab, Marked(localGroup), groupId);
      forall x, y | 0 <= x < w && 0 <= y < h ensures (x, y) in lab' && output[x, y] == lab'[(x, y)] {
        assert localGroup[x, y] <==> (x, y) in Marked(localGroup);
      }
    }
    if Marked(localGroup) != {} {
      // a named element shows that the `:|` below has a solution
      ghost var some := Pick(Marked(localGroup));
      var c :| c in Marked(localGroup);
      assert localGroup[c.0, c.1];
    }
  }

  /** An array that agrees with a label map on the whole grid. */
  ghost predicate Agrees(output: array2<int>, lab: map<Cell, int>)
    reads output
  {
    forall x, y :: 0 <= x < output.Length0 && 0 <= y < output.Length1 ==>
      (x, y) in lab && output[x, y] == lab[(x, y)]
  }

  /** `undecided` lists the cells labelled 0, in row-major order. */
  ghost predicate UndecidedListed(lab: map<Cell, int>, undecided: seq<Cell>)
  {
    Sorted(undecided) && forall c :: c in undecided <==> c in lab && lab[c] == 0
  }

  /** Group `k + 1` was started at `starts[k]`. */
  ghost predicate StartsLabelled(lab: map<Cell, int>, starts: seq<Cell>)
  {
    forall k :: 0 <= k < |starts| ==> starts[k] in lab && lab[starts[k]] == k + 1
  }

  /** Every labelled cell is reachable from its group's start. */
  ghost predicate LabelsReached(img: Image, thresh: int, lab: map<Cell, int>, starts: seq<Cell>)
  {
    forall c :: c in lab && 0 < lab[c] <= |starts| ==> Reaches(img, thresh, starts[lab[c] - 1], c)
  }

  /** Every cell reachable from a group's start carries that group's label. */
  ghost predicate ReachedLabelled(img: Image, thresh: int, lab: map<Cell, int>, starts: seq<Cell>)
  {
    forall k, c {:trigger Reaches(img, thresh, starts[k], c)} ::
      0 <= k < |starts| && Reaches(img, thresh, starts[k], c) ==> c in lab && lab[c] == k + 1
  }

  /** Every cell before `starts[k]` in row-major order is in an earlier group. */
  ghost predicate StartsFirst(lab: map<Cell, int>, starts: seq<Cell>)
  {
    forall k, c {:trigger Before(c, starts[k])} ::
      0 <= k < |starts| && c in lab && Before(c, starts[k]) ==> 1 <= lab[c] <= k
  }

  /** What holds between the groups of `customBin`: `lab` labels the whole grid
      with `0..|starts|`, 0 meaning undecided, and the conjuncts above. */
  ghost predicate Binned(img: Image, thresh: int, lab: map<Cell, int>, undecided: seq<Cell>, starts: seq<Cell>)
  {
    (forall c :: c in lab <==> InGrid(c, img.w, img.h)) &&
    (forall c :: c in lab ==> 0 <= lab[c] <= |starts|) &&
    UndecidedListed(lab, undecided) &&
    StartsLabelled(lab, starts) &&
    LabelsReached(img, thresh, lab, starts) &&
    ReachedLabelled(img, thresh, lab, starts) &&
    StartsFirst(lab, starts)
  }

  /** `Agrees` and `Binned` together: the state between two passes of the
      `customBin` loop. Contracts state it as `BinState(..) == true` so that the
      verifier takes it as one fact instead of one check per conjunct. */
  ghost predicate BinState(img: Image, thresh: int, output: array2<int>, lab: map<Cell, int>, undecided: seq<Cell>, starts: seq<Cell>)
    reads output
  {
    Agrees(output, lab) && Binned(img, thresh, lab, undecided, starts)
  }

  /** The labels of a fresh `np.zeros((w, h))`. */
  function Undecided(w: nat, h: nat): (lab: map<Cell, int>)
    ensures forall c :: c in lab <==> InGrid(c, w, h)
    ensures forall c :: c in lab ==> lab[c] == 0
  {
    map x, y | 0 <= x < w && 0 <= y < h :: (x, y) := 0
  }

  /** Before any group is made, everything is undecided. */
  lemma BinnedInitially(img: Image, thresh: int, output: array2<int>)
    requires Valid(img) && output.Length0 == img.w && output.Length1 == img.h
    requires forall x, y :: 0 <= x < img.w && 0 <= y < img.h ==> output[x, y] == 0
    // `== true` keeps BinState one fact (see its comment)
    ensures BinState(img, thresh, output, Undecided(img.w, img.h), AllCells(img.w, img.h), []) == true
  {
    var lab := Undecided(img.w, img.h);
    assert Agrees(output, lab);
    assert Binned(img, thresh, lab, AllCells(img.w, img.h), []);
  }

  /** A flood from the first undecided cell touches no labelled cell: a labelled
      cell it reached would put the start itself in that earlier group. */
  lemma GroupUndecided(img: Image, thresh: int, lab: map<Cell, int>, undecided: seq<Cell>, starts: seq<Cell>, c: Cell)
    requires Valid(img) && Binned(img, thresh, lab, undecided, starts) && |undecided| > 0
    requires Reaches(img, thresh, undecided[0], c)
    ensures c in lab && lab[c] == 0
  {
    var start := undecided[0];
    assert start in undecided;
    ReachesInGrid(img, thresh, start, c);
    if lab[c] != 0 {
      ReachesSymmetric(img, thresh, start, c);
      ReachesTrans(img, thresh, starts[lab[c] - 1], c, start);
      assert false;
    }
  }

  /** All of the flood from the first undecided cell is undecided; in particular
      it reaches no earlier start. */
  lemma FloodUndecided(img: Image, thresh: int, lab: map<Cell, int>, undecided: seq<Cell>, starts: seq<Cell>)
    requires Valid(img) && Binned(img, thresh, lab, undecided, starts) && |undecided| > 0
    ensures forall c :: Reaches(img, thresh, undecided[0], c) ==> c in lab && lab[c] == 0
    ensures forall k :: 0 <= k < |starts| ==> !Reaches(img, thresh, undecided[0], starts[k])
    ensures undecided[0] in lab && lab[undecided[0]] == 0
  {
    assert undecided[0] in undecided;
    forall c | Reaches(img, thresh, undecided[0], c) ensures c in lab && lab[c] == 0 {
      GroupUndecided(img, thresh, lab, undecided, starts, c);
    }
  }

  /** `lab` with every cell of `group` set to `g`. */
  function Relabel(lab: map<Cell, int>, group: set<Cell>, g: int): (lab': map<Cell, int>)
    ensures lab'.Keys == lab.Keys
    ensures forall c :: c in lab ==> lab'[c] == if c in group then g else lab[c]
  {
    map c | c in lab :: if c in group then g else lab[c]
  }

  /** What `LabelGroup` needs of the array before it labels a flood's cells. */
  lemma LabelGroupReady(img: Image, thresh: int, output: array2<int>, lab: map<Cell, int>,
                        undecided: seq<Cell>, starts: seq<Cell>, group: set<Cell>)
    requires Valid(img) && output.Length0 == img.w && output.Length1 == img.h
    // `== true` keeps BinState one fact (see its comment)
    requires BinState(img, thresh, output, lab, undecided, starts) == true && |undecided| > 0
    requires forall c :: c in group <==> Reaches(img, thresh, undecided[0], c)
    ensures forall c :: c in undecided <==> InGrid(c, img.w, img.h) && output[c.0, c.1] == 0
    ensures forall c :: c in group ==> InGrid(c, img.w, img.h) && output[c.0, c.1] == 0
    ensures undecided[0] in group
  {
    assert Agrees(output, lab) && Binned(img, thresh, lab, undecided, starts);
    assert undecided[0] in undecided;
    ReachesRefl(img, thresh, undecided[0]);
    FloodUndecided(img, thresh, lab, undecided, starts);
    forall c | c in group ensures InGrid(c, img.w, img.h) && output[c.0, c.1] == 0 {
      ReachesInGrid(img, thresh, undecided[0], c);
    }
    forall c ensures c in undecided <==> InGrid(c, img.w, img.h) && output[c.0, c.1] == 0 {
      if InGrid(c, img.w, img.h) {
        assert output[c.0, c.1] == lab[c];
      }
    }
  }

  /** The label update of one group: the cells reachable from `start` get `g`. */
  ghost predicate Relabelled(img: Image, thresh: int, lab: map<Cell, int>, lab': map<Cell, int>, start: Cell, g: int)
  {
    lab'.Keys == lab.Keys &&
    forall c :: c in lab ==> lab'[c] == if Reaches(img, thresh, start, c) then g else lab[c]
  }

  lemma StepRange(img: Image, thresh: int, lab: map<Cell, int>, lab': map<Cell, int>, starts: seq<Cell>, start: Cell)
    requires Valid(img) && Relabelled(img, thresh, lab, lab', start, |starts| + 1)
    requires forall c :: c in lab <==> InGrid(c, img.w, img.h)
    requires forall c :: c in lab ==> 0 <= lab[c] <= |starts|
    ensures forall c :: c in lab' <==> InGrid(c, img.w, img.h)
    ensures forall c :: c in lab' ==> 0 <= lab'[c] <= |starts + [start]|
  {
  }

  lemma StepStartsLabelled(img: Image, thresh: int, lab: map<Cell, int>, lab': map<Cell, int>, starts: seq<Cell>, start: Cell)
    requires Valid(img) && StartsLabelled(lab, starts) && InGrid(start, img.w, img.h) && start in lab
    requires forall k :: 0 <= k < |starts| ==> !Reaches(img, thresh, start, starts[k])
    requires Relabelled(img, thresh, lab, lab', start, |starts| + 1)
    ensures StartsLabelled(lab', starts + [start])
  {
    ReachesRefl(img, thresh, start);
    var starts' := starts + [start];
    forall k | 0 <= k < |starts'| ensures starts'[k] in lab' && lab'[starts'[k]] == k + 1 {
      if k < |starts| {
        assert starts'[k] == starts[k];
      }
    }
  }

  lemma StepLabelsReached(img: Image, thresh: int, lab: map<Cell, int>, lab': map<Cell, int>, starts: seq<Cell>, start: Cell)
    requires Valid(img) && LabelsReached(img, thresh, lab, starts)
    requires forall c :: c in lab ==> 0 <= lab[c] <= |starts|
    requires Relabelled(img, thresh, lab, lab', start, |starts| + 1)
    ensures LabelsReached(img, thresh, lab', starts + [start])
  {
    var starts' := starts + [start];
    forall c | c in lab' && 0 < lab'[c] <= |starts'| ensures Reaches(img, thresh, starts'[lab'[c] - 1], c) {
      if Reaches(img, thresh, start, c) {
        assert starts'[|starts|] == start;
      } else {
        assert starts'[lab[c] - 1] == starts[lab[c] - 1];
      }
    }
  }

  lemma StepReachedLabelled(img: Image, thresh: int, lab: map<Cell, int>, lab': map<Cell, int>, starts: seq<Cell>, start: Cell)
    requires Valid(img) && ReachedLabelled(img, thresh, lab, starts)
    requires forall c :: InGrid(c, img.w, img.h) <==> c in lab
    requires forall c :: Reaches(img, thresh, start, c) && c in lab ==> lab[c] == 0
    requires Relabelled(img, thresh, lab, lab', start, |starts| + 1)
    ensures ReachedLabelled(img, thresh, lab', starts + [start])
  {
    var starts' := starts + [start];
    forall k, c | 0 <= k < |starts'| && Reaches(img, thresh, starts'[k], c) ensures c in lab' && lab'[c] == k + 1 {
      ReachesInGrid(img, thresh, starts'[k], c);
      if k < |starts| {
        assert starts'[k] == starts[k];
        assert lab[c] == k + 1;
      }
    }
  }

  /** The head of a sorted list comes first. */
  lemma SortedHeadFirst(s: seq<Cell>)
    requires Sorted(s) && |s| > 0
    ensures forall c :: c in s ==> !Before(c, s[0])
  {
    forall c | c in s ensures !Before(c, s[0]) {
      var i :| 0 <= i < |s| && s[i] == c;
      if i > 0 {
        assert Before(s[0], s[i]);
      }
    }
  }

  lemma StepStartsFirst(lab: map<Cell, int>, lab': map<Cell, int>, undecided: seq<Cell>, starts: seq<Cell>)
    requires StartsFirst(lab, starts) && UndecidedListed(lab, undecided) && |undecided| > 0
    requires forall c :: c in lab ==> 0 <= lab[c] <= |starts|
    requires lab'.Keys == lab.Keys
    requires forall c :: c in lab && lab[c] != 0 ==> lab'[c] == lab[c]
    ensures StartsFirst(lab', starts + [undecided[0]])
  {
    var start := undecided[0];
    var starts' := starts + [start];
    SortedHeadFirst(undecided);
    forall k, c | 0 <= k < |starts'| && c in lab' && Before(c, starts'[k]) ensures 1 <= lab'[c] <= k {
      if k < |starts| {
        assert starts'[k] == starts[k];
      } else {
        assert c !in undecided;
      }
    }
  }

  /** Labelling the flood from the first undecided cell with the next id and
      dropping it from the undecided list keeps `Binned`. */
  lemma BinnedStep(img: Image, thresh: int, lab: map<Cell, int>, undecided: seq<Cell>, starts: seq<Cell>,
                   lab': map<Cell, int>, undecided': seq<Cell>)
    requires Valid(img) && Binned(img, thresh, lab, undecided, starts) && |undecided| > 0
    requires Relabelled(img, thresh, lab, lab', undecided[0], |starts| + 1)
    requires UndecidedListed(lab', undecided')
    ensures Binned(img, thresh, lab', undecided', starts + [undecided[0]])
  {
    var start := undecided[0];
    FloodUndecided(img, thresh, lab, undecided, starts);
    assert InGrid(start, img.w, img.h) && start in lab;
    StepRange(img, thresh, lab, lab', starts, start);
    StepStartsLabelled(img, thresh, lab, lab', starts, start);
    StepLabelsReached(img, thresh, lab, lab', starts, start);
    StepReachedLabelled(img, thresh, lab, lab', starts, start);
    StepStartsFirst(lab, lab', undecided, starts);
  }

  /** Once nothing is undecided the labels are the flood components: every cell
      has a label in `1..|starts|`, and two cells share one exactly when a flood
      gets from one to the other. */
  lemma BinnedComponents(img: Image, thresh: int, lab: map<Cell, int>, starts: seq<Cell>)
    requires Valid(img) && Binned(img, thresh, lab, [], starts)
    ensures forall c :: c in lab <==> InGrid(c, img.w, img.h)
    ensures forall c :: c in lab ==> 1 <= lab[c] <= |starts|
    ensures StartsLabelled(lab, starts) && StartsFirst(lab, starts)
    ensures forall c, d :: c in lab && d in lab ==> (lab[c] == lab[d] <==> Reaches(img, thresh, c, d))
  {
    forall c | c in lab ensures 1 <= lab[c] {
      assert c !in [];
    }
    forall c, d | c in lab && d in lab ensures lab[c] == lab[d] <==> Reaches(img, thresh, c, d) {
      SameLabelSameGroup(img, thresh, lab, starts, c, d);
    }
  }

  lemma SameLabelSameGroup(img: Image, thresh: int, lab: map<Cell, int>, starts: seq<Cell>, c: Cell, d: Cell)
    requires Valid(img) && c in lab && d in lab
    requires forall c :: c in lab ==> 1 <= lab[c] <= |starts|
    requires LabelsReached(img, thresh, lab, starts) && ReachedLabelled(img, thresh, lab, starts)
    ensures lab[c] == lab[d] <==> Reaches(img, thresh, c, d)
  {
    var k := lab[c] - 1;
    assert Reaches(img, thresh, starts[k], c);
    if lab[c] == lab[d] {
      ReachesSymmetric(img, thresh, starts[k], c);
      ReachesTrans(img, thresh, c, starts[k], d);
    }
    if Reaches(img, thresh, c, d) {
      ReachesTrans(img, thresh, starts[k], c, d);
    }
  }

  /** Lines 136-138: a fresh all-false mask, flooded from `start`. It marks
      exactly the cells a flood can reach from `start`. */
  method FloodGroup(img: Image, start: Cell, thresh: int) returns (localGroup: array2<bool>)
    requires Valid(img) && InGrid(start, img.w, img.h)
    ensures fresh(localGroup) && localGroup.Length0 == img.w && localGroup.Length1 == img.h
    ensures forall c :: c in Marked(localGroup) <==> Reaches(img, thresh, start, c)
  {
    localGroup := new bool[img.w, img.h]((i, j) => false);
    assert Marked(localGroup) == {};
    FloodFromPoint(img, localGroup, start, thresh);
    FloodFromCleanMask(img, thresh, start, Marked(localGroup));
  }

  /** One pass of the `customBin` loop body (rektdect.py:134-146): flood from
      the first undecided cell, label what it reaches with `groupId`, drop those
      cells from the undecided list. `Binned` is kept with one more group. */
  method BinNext(img: Image, thresh: int, output: array2<int>, undecided: seq<Cell>, groupId: int,
                 ghost starts: seq<Cell>, ghost lab: map<Cell, int>)
    returns (rest: seq<Cell>, ghost lab': map<Cell, int>)
    requires Valid(img) && output.Length0 == img.w && output.Length1 == img.h
    requires groupId == |starts| + 1 && |undecided| > 0
    // `== true` keeps BinState one fact (see its comment)
    requires BinState(img, thresh, output, lab, undecided, starts) == true
    modifies output
    ensures |rest| < |undecided|
    // `== true` keeps BinState one fact (see its comment)
    ensures BinState(img, thresh, output, lab', rest, starts + [undecided[0]]) == true
  {
    assert undecided[0] in undecided;
    var localGroup := FloodGroup(img, undecided[0], thresh);
    rest, lab' := LabelFlood(img, thresh, output, localGroup, undecided, groupId, starts, lab);
  }

  /** Lines 140-146 after the flood: label the flooded cells and keep `Binned`. */
  method LabelFlood(img: Image, thresh: int, output: array2<int>, localGroup: array2<bool>,
                    undecided: seq<Cell>, groupId: int, ghost starts: seq<Cell>, ghost lab: map<Cell, int>)
    returns (rest: seq<Cell>, ghost lab': map<Cell, int>)
    requires Valid(img) && output.Length0 == img.w && output.Length1 == img.h
    requires localGroup.Length0 == img.w && localGroup.Length1 == img.h
    requires groupId == |starts| + 1 && |undecided| > 0
    // `== true` keeps BinState one fact (see its comment)
    requires BinState(img, thresh, output, lab, undecided, starts) == true
    requires forall c :: c in Marked(localGroup) <==> Reaches(img, thresh, undecided[0], c)
    modifies output
    ensures |rest| < |undecided|
    // `== true` keeps BinState one fact (see its comment)
    ensures BinState(img, thresh, output, lab', rest, starts + [undecided[0]]) == true
  {
    ghost var group := Marked(localGroup);
    LabelGroupReady(img, thresh, output, lab, undecided, starts, group);
    rest := LabelGroup(output, localGroup, undecided, groupId, lab);
    lab' := Relabel(lab, group, groupId);
    LabelledStep(img, thresh, output, lab, undecided, starts, group, rest);
  }

  /** After `LabelGroup`: the array agrees with the relabelled map, which keeps
      `BinState` with one more group. */
  lemma LabelledStep(img: Image, thresh: int, output: array2<int>, lab: map<Cell, int>,
                     undecided: seq<Cell>, starts: seq<Cell>, group: set<Cell>, rest: seq<Cell>)
    requires Valid(img) && output.Length0 == img.w && output.Length1 == img.h && |undecided| > 0
    requires Binned(img, thresh, lab, undecided, starts)
    requires forall c :: c in group <==> Reaches(img, thresh, undecided[0], c)
    requires Agrees(output, Relabel(lab, group, |starts| + 1))
    requires Sorted(rest) && forall c :: c in rest <==> InGrid(c, img.w, img.h) && output[c.0, c.1] == 0
    // `== true` keeps BinState one fact (see its comment)
    ensures BinState(img, thresh, output, Relabel(lab, group, |starts| + 1), rest, starts + [undecided[0]]) == true
  {
    var lab' := Relabel(lab, group, |starts| + 1);
    assert Relabelled(img, thresh, lab, lab', undecided[0], |starts| + 1);
    assert UndecidedListed(lab', rest);
    BinnedStep(img, thresh, lab, undecided, starts, lab', rest);
  }

  /** `customBin` (rektdect.py:126-147). Cells are visited in row-major order;
      the first cell without a label starts a flood, and every cell the flood
      marks gets the next group id, counting from 1. On return every cell has a
      label in `1..|starts|`, group `k + 1` was started at `starts[k]`, and two
      cells share a label exactly when a flood can get from one to the other.
      Each start is the first cell of its group in row-major order. */
  method CustomBin(img: Image, thresh: int) returns (output: array2<int>, ghost starts: seq<Cell>)
    requires Valid(img)
    ensures fresh(output) && output.Length0 == img.w && output.Length1 == img.h
    ensures forall c :: InGrid(c, img.w, img.h) ==> 1 <= output[c.0, c.1] <= |starts|
    ensures forall k :: 0 <= k < |starts| ==>
              InGrid(starts[k], img.w, img.h) && output[starts[k].0, starts[k].1] == k + 1
    ensures forall k, c :: 0 <= k < |starts| && InGrid(c, img.w, img.h) && Before(c, starts[k]) ==>
              output[c.0, c.1] <= k
    ensures forall c, d :: InGrid(c, img.w, img.h) && InGrid(d, img.w, img.h) ==>
              (output[c.0, c.1] == output[d.0, d.1] <==> Reaches(img, thresh, c, d))
    ensures thresh <= 0 ==> forall c, d :: InGrid(c, img.w, img.h) && InGrid(d, img.w, img.h) ==>
              (output[c.0, c.1] == output[d.0, d.1] <==> c == d)
  {
    var w, h := img.w, img.h;
    output := new int[w, h]((i, j) => 0);
    var undecided := AllCells(w, h);
    var groupId := 1;
    starts := [];
    ghost var lab := Undecided(w, h);
    BinnedInitially(img, thresh, output);
    while |undecided| > 0
      invariant fresh(output) && output.Length0 == w && output.Length1 == h
      invariant groupId == |starts| + 1
      // `== true` keeps BinState one fact (see its comment)
      invariant BinState(img, thresh, output, lab, undecided, starts) == true
      decreases |undecided|
    {
      var start := undecided[0];
      undecided, lab := BinNext(img, thresh, output, undecided, groupId, starts, lab);
      starts := starts + [start];
      groupId := groupId + 1;
    }
    assert undecided == [];
    ComponentsOnArray(img, thresh, output, lab, starts);
    if thresh <= 0 {
      ZeroThresholdSingletons(img, thresh, output);
    }
  }

  /** The facts of `BinnedComponents`, read off an array that agrees with the labels. */
  lemma ComponentsOnArray(img: Image, thresh: int, output: array2<int>, lab: map<Cell, int>, starts: seq<Cell>)
    requires Valid(img) && output.Length0 == img.w && output.Length1 == img.h
    // `== true` keeps BinState one fact (see its comment)
    requires BinState(img, thresh, output, lab, [], starts) == true
    ensures forall c :: InGrid(c, img.w, img.h) ==> 1 <= output[c.0, c.1] <= |starts|
    ensures forall k :: 0 <= k < |starts| ==>
              InGrid(starts[k], img.w, img.h) && output[starts[k].0, starts[k].1] == k + 1
    ensures forall k, c :: 0 <= k < |starts| && InGrid(c, img.w, img.h) && Before(c, starts[k]) ==>
              output[c.0, c.1] <= k
    ensures forall c, d :: InGrid(c, img.w, img.h) && InGrid(d, img.w, img.h) ==>
              (output[c.0, c.1] == output[d.0, d.1] <==> Reaches(img, thresh, c, d))
  {
    BinnedComponents(img, thresh, lab, starts);
    forall c | InGrid(c, img.w, img.h) ensures output[c.0, c.1] == lab[c] {
      assert c == (c.0, c.1);
    }
    forall k | 0 <= k < |starts| ensures InGrid(starts[k], img.w, img.h) {
      assert starts[k] in lab;
    }
  }

  /** With a threshold of zero or below every flood is a single cell, so
      every cell gets a label of its own. */
  lemma ZeroThresholdSingletons(img: Image, thresh: int, output: array2<int>)
    requires Valid(img) && output.Length0 == img.w && output.Length1 == img.h && thresh <= 0
    requires forall c, d :: InGrid(c, img.w, img.h) && InGrid(d, img.w, img.h) ==>
               (output[c.0, c.1] == output[d.0, d.1] <==> Reaches(img, thresh, c, d))
    ensures forall c, d :: InGrid(c, img.w, img.h) && InGrid(d, img.w, img.h) ==>
              (output[c.0, c.1] == output[d.0, d.1] <==> c == d)
  {
    forall c, d | InGrid(c, img.w, img.h) && InGrid(d, img.w, img.h)
      ensures Reaches(img, thresh, c, d) <==> c == d
    {
      NoStepBelowZero(img, thresh, c, d);
    }
  }
}
