/** Lattice coordinates, numpy-style grid indexing and the error outcomes
    shared by every part of the folding engine. */
module Lattice {

  /** An integer point of the 2-D square lattice. */
  datatype Pos = Pos(x: int, y: int)

  datatype Option<T> = None | Some(value: T)

  /** The ways the engine can stop with an exception. */
  datatype Error =
    | IndexError          // a lattice subscript outside [-side, side)
    | NoFreePosition      // the random walk reached a dead end
    | KindMismatch        // a move applied with the wrong move_type
    | PlacementExhausted  // every placement attempt hit a dead end
    | EmptyLadder         // min() of the trackers of a ladder with no slot
    | EmptyRange          // rng.integers(low, high) with high <= low

  datatype Result<T> = Ok(value: T) | Err(error: Error) {
    predicate IsFailure() { Err? }
    function PropagateFailure<U>(): Result<U>
      requires Err?
    {
      Err(error)
    }
    function Extract(): T
      requires Ok?
    {
      value
    }
  }

  function Abs(n: int): nat { if n < 0 then -n else n }

  function Manhattan(a: Pos, b: Pos): nat
  {
    Abs(a.x - b.x) + Abs(a.y - b.y)
  }

  /** Two cells share an edge of the lattice. On integer vectors this is
      exactly `norm(a - b) == 1`. */
  predicate Adjacent(a: Pos, b: Pos)
  {
    Manhattan(a, b) == 1
  }

  function Plus(a: Pos, b: Pos): Pos { Pos(a.x + b.x, a.y + b.y) }

  /** `a + 2 * (b - a)`: the reflection of `a` through `b`. */
  function ReflectThrough(a: Pos, b: Pos): Pos
  {
    Pos(a.x + 2 * (b.x - a.x), a.y + 2 * (b.y - a.y))
  }

  /** The neighbour offsets in the order the free-cell search tries them. */
  const Offsets: seq<Pos> := [Pos(-1, 0), Pos(0, -1), Pos(1, 0), Pos(0, 1)]

  predicate InGrid(p: Pos, side: int)
  {
    0 <= p.x < side && 0 <= p.y < side
  }

  /** A numpy subscript on an axis of length `side`: negative subscripts
      count from the end, anything outside [-side, side) raises. */
  function NpIndex(i: int, side: nat): (r: Option<nat>)
    ensures r.Some? <==> -(side as int) <= i < side
    ensures r.Some? ==> r.value < side && (r.value == i || r.value == i + side)
  {
    if 0 <= i < side then Some(i)
    else if -(side as int) <= i < 0 then Some(i + side)
    else None
  }

  /** The cell a two-coordinate subscript of a side x side array reaches. */
  function NpCell(p: Pos, side: nat): (r: Option<Pos>)
    ensures r.Some? ==> InGrid(r.value, side)
    ensures InGrid(p, side) ==> r == Some(p)
    ensures r.None? <==> NpIndex(p.x, side).None? || NpIndex(p.y, side).None?
  {
    match (NpIndex(p.x, side), NpIndex(p.y, side))
    case (Some(i), Some(j)) => Some(Pos(i, j))
    case _ => None
  }

  /** A reflection through a neighbour moves by twice a unit step, so its
      Manhattan distance from the point reflected is 2. */
  lemma ReflectionOfNeighbour(a: Pos, b: Pos)
    requires Adjacent(a, b)
    ensures Manhattan(ReflectThrough(a, b), a) == 2
    ensures Adjacent(ReflectThrough(a, b), b)
  {
  }

  /** In a unit square a-b-c-d, reflecting c through b lands three steps
      from d: the reflection leaves the square on the side away from d. */
  lemma SquareReflection(a: Pos, b: Pos, c: Pos, d: Pos)
    requires Adjacent(a, b) && Adjacent(b, c) && Adjacent(c, d) && Adjacent(a, d)
    requires a != c && b != d
    ensures Manhattan(ReflectThrough(c, b), d) == 3
  {
  }

  /** Moving a point by one lattice step changes the parity of its distance
      to any other point. */
  lemma {:induction false} StepFlipsParity(a: Pos, b: Pos, c: Pos)
    requires Adjacent(a, b)
    ensures Manhattan(b, c) % 2 != Manhattan(a, c) % 2
  {
    if a.x == b.x {
      assert Abs(a.y - b.y) == 1;
    } else {
      assert a.y == b.y && Abs(a.x - b.x) == 1;
    }
  }
}
