/** Small definitions shared by the solver and the region detector. */
module Common {

  function Abs(n: int): nat
  {
    if n < 0 then -n else n
  }

  /** City-block (Manhattan) distance of two integer coordinates; the solver
      calls it through `scipy.spatial.distance.cityblock`. */
  function Cityblock(p: (int, int), q: (int, int)): nat
  {
    Abs(p.0 - q.0) + Abs(p.1 - q.1)
  }

  /** Some element of a non-empty set. Naming one is what lets a later `:|`
      over the set be shown to have a solution. */
  ghost function Pick<T>(s: set<T>): (x: T)
    requires s != {}
    ensures x in s
  {
    var x :| x in s; x
  }
}
