/** The VSHD neighbourhood of a residue: the end, corner and crankshaft
    candidates a conformation offers for it. A candidate is represented by
    the conformation its move produces (the move's private copy after the
    move), which is all the search uses of it. */
module Neighbourhood {
  import opened Lattice
  import opened Amino
  import opened Conformations
  import opened Moves

  /** `lattice[p] is None`, read with numpy subscripting. */
  function CellEmpty(c: Conformation, p: Pos): (r: Result<bool>)
    ensures r.Err? <==> NpCell(p, Side(c)).None?
    ensures r.Err? ==> r.error == IndexError
    ensures InGrid(p, Side(c)) ==> r == Ok(p !in c.lattice)
  {
    match NpCell(p, Side(c))
    case None => Err(IndexError)
    case Some(cell) => Ok(cell !in c.lattice)
  }

  /** One move of residue k per target, in order; the first move that
      raises ends the enumeration. */
  function RelocateAll(c: Conformation, k: nat, targets: seq<Pos>): (r: Result<seq<Conformation>>)
    requires k < |c.aminoList|
    ensures r.Err? ==> r.error == IndexError
    ensures r.Ok? ==> |r.value| == |targets| && KeepsShape(c, r.value)
  {
    if targets == [] then Ok([])
    else
      var first :- Relocate(c, k, targets[0]);
      var rest :- RelocateAll(c, k, targets[1..]);
      KeepsShapeConcat(c, [first], rest);
      Ok([first] + rest)
  }

  /** When the enumeration succeeds, its i-th conformation is the move to
      the i-th target. */
  lemma {:induction false} RelocateAllElements(c: Conformation, k: nat, targets: seq<Pos>)
    requires k < |c.aminoList| && RelocateAll(c, k, targets).Ok?
    ensures forall i :: 0 <= i < |targets| ==>
              Relocate(c, k, targets[i]).Ok? && RelocateAll(c, k, targets).value[i] == Relocate(c, k, targets[i]).value
  {
    if targets != [] {
      RelocateAllElements(c, k, targets[1..]);
      forall i | 1 <= i < |targets|
        ensures Relocate(c, k, targets[i]).Ok? && RelocateAll(c, k, targets).value[i] == Relocate(c, k, targets[i]).value
      {
        assert targets[i] == targets[1..][i - 1];
      }
    }
  }

  /** The residue whose free neighbours an end move of residue k may take:
      residue 1, except for the last residue, where the subscript -1 reaches
      the last residue itself. */
  function EndPivot(c: Conformation, k: nat): nat
    requires k < |c.aminoList|
  {
    if k == |c.aminoList| - 1 then |c.aminoList| - 1 else 1
  }

  /** `get_end_moves`: residue k moved to each free cell around its pivot. */
  function GetEndMoves(c: Conformation, k: nat): (r: Result<seq<Conformation>>)
    requires k < |c.aminoList|
    ensures r.Err? ==> r.error == IndexError
    ensures r.Ok? ==> |r.value| <= 4 && KeepsShape(c, r.value)
  {
    RelocateAll(c, k, GetFreePos(c, PosOf(c, EndPivot(c, k))))
  }

  /** The other corner of the square spanned by residues k-1, k and k+1. */
  function CornerTarget(c: Conformation, k: nat): Pos
    requires 1 <= k < |c.aminoList| - 1
  {
    var prev := PosOf(c, k - 1);
    var next := PosOf(c, k + 1);
    if PosOf(c, k).x == prev.x then Pos(next.x, prev.y) else Pos(prev.x, next.y)
  }

  /** `get_corner_move`: the corner flip of residue k when its target is
      empty, else nothing. */
  function GetCornerMove(c: Conformation, k: nat): (r: Result<seq<Conformation>>)
    requires 1 <= k < |c.aminoList| - 1
    ensures r.Err? ==> r.error == IndexError
    ensures r.Ok? ==> |r.value| <= 1 && KeepsShape(c, r.value)
  {
    var target := CornerTarget(c, k);
    var empty :- CellEmpty(c, target);
    if empty then
      var moved :- Relocate(c, k, target);
      Ok([moved])
    else Ok([])
  }

  /** The backward crankshaft of residues k-1, k: residue k reflected
      through k - 1 and residue k-1 through k - 2. */
  function BackwardCrank(c: Conformation, k: nat): (r: Result<seq<Conformation>>)
    requires |c.aminoList| == |c.sequence|
    ensures r.Err? ==> r.error == IndexError
    ensures r.Ok? ==> |r.value| <= 1 && KeepsShape(c, r.value)
  {
    if 2 <= k <= Size(c) - 2 && Adjacent(PosOf(c, k - 2), PosOf(c, k + 1)) then
      var inFrontCur := ReflectThrough(PosOf(c, k), PosOf(c, k - 1));
      var inFrontPrev := ReflectThrough(PosOf(c, k - 1), PosOf(c, k - 2));
      var curEmpty :- CellEmpty(c, inFrontCur);
      if !curEmpty then Ok([])
      else
        var prevEmpty :- CellEmpty(c, inFrontPrev);
        if !prevEmpty then Ok([])
        else
          var moved :- Crankshaft(c, k, inFrontCur, inFrontPrev, false);
          Ok([moved])
    else Ok([])
  }

  /** The forward crankshaft of residues k, k+1: residue k reflected
      through k - 1 and residue k+1 through k + 2. */
  function ForwardCrank(c: Conformation, k: nat): (r: Result<seq<Conformation>>)
    requires |c.aminoList| == |c.sequence|
    ensures r.Err? ==> r.error == IndexError
    ensures r.Ok? ==> |r.value| <= 1 && KeepsShape(c, r.value)
  {
    if 1 <= k <= Size(c) - 3 && Adjacent(PosOf(c, k - 1), PosOf(c, k + 2)) then
      var inFrontCur := ReflectThrough(PosOf(c, k), PosOf(c, k - 1));
      var inFrontNext := ReflectThrough(PosOf(c, k + 1), PosOf(c, k + 2));
      var curEmpty :- CellEmpty(c, inFrontCur);
      if !curEmpty then Ok([])
      else
        var nextEmpty :- CellEmpty(c, inFrontNext);
        if !nextEmpty then Ok([])
        else
          var moved :- Crankshaft(c, k, inFrontCur, inFrontNext, true);
          Ok([moved])
    else Ok([])
  }

  /** `get_crankshaft_move`: the backward candidate, then the forward one. */
  function GetCrankshaftMove(c: Conformation, k: nat): (r: Result<seq<Conformation>>)
    requires |c.aminoList| == |c.sequence|
    ensures r.Err? ==> r.error == IndexError
    ensures r.Ok? ==> |r.value| <= 2 && KeepsShape(c, r.value)
  {
    var backward :- BackwardCrank(c, k);
    var forward :- ForwardCrank(c, k);
    KeepsShapeConcat(c, backward, forward);
    Ok(backward + forward)
  }

  lemma KeepsShapeConcat(c: Conformation, a: seq<Conformation>, b: seq<Conformation>)
    requires KeepsShape(c, a) && KeepsShape(c, b)
    ensures KeepsShape(c, a + b)
  {
    forall i | 0 <= i < |a + b| ensures SameShape(c, (a + b)[i]) {
      if i >= |a| {
        assert (a + b)[i] == b[i - |a|];
      }
    }
  }

  /** Residues k-1 and k+1 differ by exactly one in both coordinates. */
  predicate Diagonal(c: Conformation, k: nat)
    requires 1 <= k < |c.aminoList| - 1
  {
    Abs(PosOf(c, k - 1).x - PosOf(c, k + 1).x) == 1 && Abs(PosOf(c, k - 1).y - PosOf(c, k + 1).y) == 1
  }

  /** Every candidate keeps the sequence, the length and the cached energy. */
  ghost predicate KeepsShape(c: Conformation, cands: seq<Conformation>)
  {
    forall i :: 0 <= i < |cands| ==> SameShape(c, cands[i])
  }

  ghost predicate SameShape(c: Conformation, d: Conformation)
  {
    d.sequence == c.sequence && |d.aminoList| == |c.aminoList| && d.energy == c.energy
  }

  /** `get_possible_moves`: end moves for the two ends; for an interior
      residue, corner then crankshaft candidates when its neighbours sit
      diagonally, and nothing otherwise. At most four candidates, each
      carrying the energy of the conformation it came from. */
  function GetPossibleMoves(c: Conformation, k: nat): (r: Result<seq<Conformation>>)
    requires |c.aminoList| == |c.sequence| && k < |c.aminoList|
    ensures r.Err? ==> r.error == IndexError
    ensures r.Ok? ==> |r.value| <= 4 && KeepsShape(c, r.value)
  {
    if k == 0 || k == Size(c) - 1 then GetEndMoves(c, k)
    else if Diagonal(c, k) then
      var corner :- GetCornerMove(c, k);
      var crank :- GetCrankshaftMove(c, k);
      KeepsShapeConcat(c, corner, crank);
      Ok(corner + crank)
    else Ok([])
  }

  // ---------------------------------------------------------------------
  // The candidates of a valid conformation

  /** Moving a residue to free cells never raises on a consistent
      conformation. */
  lemma {:induction false} RelocateAllOk(c: Conformation, k: nat, targets: seq<Pos>)
    requires WellFormed(c) && Consistent(c) && k < |c.aminoList|
    requires forall i :: 0 <= i < |targets| ==> IsFree(c, targets[i])
    ensures RelocateAll(c, k, targets).Ok?
  {
    if targets != [] {
      RelocateOnFreeCell(c, k, targets[0]);
      RelocateAllOk(c, k, targets[1..]);
    }
  }

  /** On a consistent conformation the end moves of residue k are residue k
      moved to each free neighbour of its pivot, in offset order. */
  lemma EndMovesOnConsistent(c: Conformation, k: nat)
    requires WellFormed(c) && Consistent(c) && k < |c.aminoList|
    ensures GetEndMoves(c, k).Ok?
    ensures |GetEndMoves(c, k).value| == |GetFreePos(c, PosOf(c, EndPivot(c, k)))|
    ensures forall i :: 0 <= i < |GetEndMoves(c, k).value| ==>
              GetEndMoves(c, k).value[i] == Relocate(c, k, GetFreePos(c, PosOf(c, EndPivot(c, k)))[i]).value
  {
    RelocateAllOk(c, k, GetFreePos(c, PosOf(c, EndPivot(c, k))));
    RelocateAllElements(c, k, GetFreePos(c, PosOf(c, EndPivot(c, k))));
  }

  /** Every end move of residue 0 of a valid chain is valid: residue 0 lands
      on a free cell next to residue 1. */
  lemma FirstEndMovesValid(c: Conformation)
    requires Valid(c) && 2 <= |c.aminoList|
    ensures GetEndMoves(c, 0).Ok?
    ensures forall d :: d in GetEndMoves(c, 0).value ==> Valid(d)
  {
    var free := GetFreePos(c, PosOf(c, 1));
    RelocateAllFirstValid(c, free);
  }

  /** Moving residue 0 to free cells next to residue 1 keeps the chain
      valid, target by target. */
  lemma {:induction false} RelocateAllFirstValid(c: Conformation, targets: seq<Pos>)
    requires Valid(c) && 2 <= |c.aminoList|
    requires forall i :: 0 <= i < |targets| ==>
               IsFree(c, targets[i]) && Adjacent(targets[i], c.aminoList[1].position)
    ensures RelocateAll(c, 0, targets).Ok?
    ensures forall d :: d in RelocateAll(c, 0, targets).value ==> Valid(d)
  {
    if targets != [] {
      RelocateKeepsValid(c, 0, targets[0]);
      RelocateAllFirstValid(c, targets[1..]);
    }
  }

  /** The last residue sits two steps from its predecessor, so the chain
      is broken. */
  ghost predicate TailDetached(d: Conformation)
  {
    && 2 <= |d.aminoList|
    && Manhattan(d.aminoList[|d.aminoList| - 2].position, d.aminoList[|d.aminoList| - 1].position) == 2
    && !Connected(d)
  }

  /** The end moves of the last residue look around the residue itself, so
      each one leaves it two steps from its predecessor: the chain breaks. */
  lemma LastEndMovesBreakChain(c: Conformation)
    requires Valid(c) && 2 <= |c.aminoList|
    ensures GetEndMoves(c, |c.aminoList| - 1).Ok?
    ensures forall d :: d in GetEndMoves(c, |c.aminoList| - 1).value ==> TailDetached(d)
  {
    assert Linked(c.aminoList, |c.aminoList| - 1);
    LastEndMovesDetach(c);
  }

  lemma LastEndMovesDetach(c: Conformation)
    requires WellFormed(c) && Consistent(c) && 2 <= |c.aminoList|
    requires Linked(c.aminoList, |c.aminoList| - 1)
    ensures GetEndMoves(c, |c.aminoList| - 1).Ok?
    ensures forall d :: d in GetEndMoves(c, |c.aminoList| - 1).value ==> TailDetached(d)
  {
    var n := |c.aminoList|;
    var free := GetFreePos(c, PosOf(c, n - 1));
    RelocateAllDetach(c, free);
  }

  /** Moving the last residue to free cells next to itself detaches it,
      target by target. */
  lemma {:induction false} RelocateAllDetach(c: Conformation, targets: seq<Pos>)
    requires WellFormed(c) && Consistent(c) && 2 <= |c.aminoList|
    requires Linked(c.aminoList, |c.aminoList| - 1)
    requires forall i :: 0 <= i < |targets| ==>
               IsFree(c, targets[i]) && Adjacent(targets[i], c.aminoList[|c.aminoList| - 1].position)
    ensures RelocateAll(c, |c.aminoList| - 1, targets).Ok?
    ensures forall d :: d in RelocateAll(c, |c.aminoList| - 1, targets).value ==> TailDetached(d)
  {
    if targets != [] {
      var n := |c.aminoList|;
      LastEndMoveBreaks(c, targets[0]);
      RelocateAllDetach(c, targets[1..]);
    }
  }

  /** Two unit steps that do not return to their start end two apart. */
  lemma TwoSteps(prev: Pos, last: Pos, t: Pos)
    requires Adjacent(prev, last) && Adjacent(last, t) && prev != t
    ensures Manhattan(prev, t) == 2
  {
    StepFlipsParity(last, t, prev);
  }

  lemma LastEndMoveBreaks(c: Conformation, t: Pos)
    requires WellFormed(c) && Consistent(c) && 2 <= |c.aminoList|
    requires Linked(c.aminoList, |c.aminoList| - 1)
    requires IsFree(c, t) && Adjacent(t, c.aminoList[|c.aminoList| - 1].position)
    ensures Relocate(c, |c.aminoList| - 1, t).Ok? && TailDetached(Relocate(c, |c.aminoList| - 1, t).value)
  {
    var n := |c.aminoList|;
    RelocateOnFreeCell(c, n - 1, t);
    var r := Relocate(c, n - 1, t).value;
    assert AtHome(c, n - 2);
    TwoSteps(c.aminoList[n - 2].position, c.aminoList[n - 1].position, t);
    assert !Linked(r.aminoList, n - 1);
  }

  /** The corner target sits next to both chain neighbours and differs from
      the residue's own cell. */
  lemma CornerGeometry(prev: Pos, p: Pos, next: Pos)
    requires Adjacent(prev, p) && Adjacent(p, next)
    requires Abs(prev.x - next.x) == 1 && Abs(prev.y - next.y) == 1
    ensures var t := if p.x == prev.x then Pos(next.x, prev.y) else Pos(prev.x, next.y);
            Adjacent(prev, t) && Adjacent(t, next) && t != p
  {
  }

  /** For a valid chain whose residues k-1 and k+1 sit diagonally, the
      corner move never raises, offers one candidate exactly when the
      opposite corner is empty, and that candidate is valid. */
  lemma CornerMoveValid(c: Conformation, k: nat)
    requires Valid(c) && 1 <= k < |c.aminoList| - 1 && Diagonal(c, k)
    ensures GetCornerMove(c, k).Ok?
    ensures |GetCornerMove(c, k).value| == 1 <==> CornerTarget(c, k) !in c.lattice
    ensures forall d :: d in GetCornerMove(c, k).value ==> Valid(d)
  {
    var t := CornerTarget(c, k);
    assert Linked(c.aminoList, k) && Linked(c.aminoList, k + 1);
    CornerGeometry(PosOf(c, k - 1), PosOf(c, k), PosOf(c, k + 1));
    assert AtHome(c, k - 1) && AtHome(c, k + 1);
    assert InGrid(t, Side(c));
    if t !in c.lattice {
      RelocateKeepsValid(c, k, t);
    }
  }

  /** Two residues recorded on one cell. */
  ghost predicate Overlapping(d: Conformation)
  {
    !SelfAvoiding(d) && !Consistent(d)
  }

  lemma BackwardOverlaps(c: Conformation, k: nat)
    requires |c.aminoList| == |c.sequence| && BackwardCrank(c, k).Ok?
    ensures forall d :: d in BackwardCrank(c, k).value ==> Overlapping(d)
  {
    if |BackwardCrank(c, k).value| == 1 {
      var cur := ReflectThrough(PosOf(c, k), PosOf(c, k - 1));
      var prev := ReflectThrough(PosOf(c, k - 1), PosOf(c, k - 2));
      CrankshaftOverlaps(c, k, cur, prev, false);
    }
  }

  lemma ForwardOverlaps(c: Conformation, k: nat)
    requires |c.aminoList| == |c.sequence| && ForwardCrank(c, k).Ok?
    ensures forall d :: d in ForwardCrank(c, k).value ==> Overlapping(d)
  {
    if |ForwardCrank(c, k).value| == 1 {
      var cur := ReflectThrough(PosOf(c, k), PosOf(c, k - 1));
      var next := ReflectThrough(PosOf(c, k + 1), PosOf(c, k + 2));
      CrankshaftOverlaps(c, k, cur, next, true);
    }
  }

  /** The backward crankshaft is looked for only when 2 <= k <= N-2 and
      residue k-2 touches residue k+1; otherwise there is none. */
  lemma BackwardCrankGuard(c: Conformation, k: nat)
    requires |c.aminoList| == |c.sequence|
    ensures !(2 <= k <= Size(c) - 2) ==> BackwardCrank(c, k) == Ok([])
    ensures 2 <= k <= Size(c) - 2 && !Adjacent(PosOf(c, k - 2), PosOf(c, k + 1)) ==> BackwardCrank(c, k) == Ok([])
  {
  }

  /** When the guard holds on a consistent fold and both reflected cells
      lie in the grid, the backward crankshaft never raises, offers one
      candidate exactly when both reflected cells are empty, and that
      candidate is residue k reflected through k-1 dragging k-1 along. */
  lemma BackwardCrankExists(c: Conformation, k: nat)
    requires WellFormed(c) && Consistent(c)
    requires 2 <= k <= Size(c) - 2 && Adjacent(PosOf(c, k - 2), PosOf(c, k + 1))
    requires InGrid(ReflectThrough(PosOf(c, k), PosOf(c, k - 1)), Side(c))
    requires InGrid(ReflectThrough(PosOf(c, k - 1), PosOf(c, k - 2)), Side(c))
    ensures BackwardCrank(c, k).Ok?
    ensures |BackwardCrank(c, k).value| == 1 <==>
              ReflectThrough(PosOf(c, k), PosOf(c, k - 1)) !in c.lattice
              && ReflectThrough(PosOf(c, k - 1), PosOf(c, k - 2)) !in c.lattice
    ensures |BackwardCrank(c, k).value| == 1 ==>
              BackwardCrank(c, k).value[0] ==
                Crankshaft(c, k, ReflectThrough(PosOf(c, k), PosOf(c, k - 1)),
                           ReflectThrough(PosOf(c, k - 1), PosOf(c, k - 2)), false).value
  {
    var cur := ReflectThrough(PosOf(c, k), PosOf(c, k - 1));
    var prev := ReflectThrough(PosOf(c, k - 1), PosOf(c, k - 2));
    if cur !in c.lattice && prev !in c.lattice {
      CrankshaftOnFreeCells(c, k, cur, prev, false);
    }
  }

  /** The backward target reflects residue k through k-1, not through k+1:
      on a valid fold whose residues k-2..k+1 form a square, the target
      stays next to residue k-1 but lands three steps from residue k+1, so
      every backward candidate breaks the chain between k and k+1. */
  lemma BackwardTargetDetached(c: Conformation, k: nat)
    requires Valid(c) && 2 <= k <= Size(c) - 2 && Adjacent(PosOf(c, k - 2), PosOf(c, k + 1))
    ensures Adjacent(ReflectThrough(PosOf(c, k), PosOf(c, k - 1)), PosOf(c, k - 1))
    ensures Manhattan(ReflectThrough(PosOf(c, k), PosOf(c, k - 1)), PosOf(c, k + 1)) == 3
    ensures BackwardCrank(c, k).Ok? ==> forall d :: d in BackwardCrank(c, k).value ==> !Connected(d)
  {
    BackwardTargetGeometry(c, k);
    if BackwardCrank(c, k).Ok? && |BackwardCrank(c, k).value| == 1 {
      BackwardCandidate(c, k);
      assert !Linked(BackwardCrank(c, k).value[0].aminoList, k + 1);
    }
  }

  /** Residues k-2, k-1, k, k+1 of such a fold form a unit square. */
  lemma BackwardTargetGeometry(c: Conformation, k: nat)
    requires Valid(c) && 2 <= k <= Size(c) - 2 && Adjacent(PosOf(c, k - 2), PosOf(c, k + 1))
    ensures Adjacent(ReflectThrough(PosOf(c, k), PosOf(c, k - 1)), PosOf(c, k - 1))
    ensures Manhattan(ReflectThrough(PosOf(c, k), PosOf(c, k - 1)), PosOf(c, k + 1)) == 3
  {
    assert Linked(c.aminoList, k - 1) && Linked(c.aminoList, k) && Linked(c.aminoList, k + 1);
    ConsistentIsSelfAvoiding(c);
    ReflectionOfNeighbour(PosOf(c, k), PosOf(c, k - 1));
    SquareReflection(PosOf(c, k - 2), PosOf(c, k - 1), PosOf(c, k), PosOf(c, k + 1));
  }

  /** The backward candidate holds residue k at its target and leaves
      residue k+1 where it was. */
  lemma BackwardCandidate(c: Conformation, k: nat)
    requires |c.aminoList| == |c.sequence| && BackwardCrank(c, k).Ok? && |BackwardCrank(c, k).value| == 1
    ensures 2 <= k <= Size(c) - 2
    ensures BackwardCrank(c, k).value[0].aminoList[k].position == ReflectThrough(PosOf(c, k), PosOf(c, k - 1))
    ensures BackwardCrank(c, k).value[0].aminoList[k + 1] == c.aminoList[k + 1]
  {
    var cur := ReflectThrough(PosOf(c, k), PosOf(c, k - 1));
    var prev := ReflectThrough(PosOf(c, k - 1), PosOf(c, k - 2));
    var moved := Relocate(c, k, cur).value;
    assert Partner(c, k, false) == Some(k - 1);
    assert BackwardCrank(c, k).value[0] == ShiftResidue(moved, k - 1, prev, cur).value;
  }

  /** The forward crankshaft is looked for only when 1 <= k <= N-3 and
      residue k-1 touches residue k+2; otherwise there is none. */
  lemma ForwardCrankGuard(c: Conformation, k: nat)
    requires |c.aminoList| == |c.sequence|
    ensures !(1 <= k <= Size(c) - 3) ==> ForwardCrank(c, k) == Ok([])
    ensures 1 <= k <= Size(c) - 3 && !Adjacent(PosOf(c, k - 1), PosOf(c, k + 2)) ==> ForwardCrank(c, k) == Ok([])
  {
  }

  /** The forward counterpart: residue k reflected through k-1, dragging
      k+1 along, is offered exactly when both reflected cells are empty. */
  lemma ForwardCrankExists(c: Conformation, k: nat)
    requires WellFormed(c) && Consistent(c)
    requires 1 <= k <= Size(c) - 3 && Adjacent(PosOf(c, k - 1), PosOf(c, k + 2))
    requires InGrid(ReflectThrough(PosOf(c, k), PosOf(c, k - 1)), Side(c))
    requires InGrid(ReflectThrough(PosOf(c, k + 1), PosOf(c, k + 2)), Side(c))
    ensures ForwardCrank(c, k).Ok?
    ensures |ForwardCrank(c, k).value| == 1 <==>
              ReflectThrough(PosOf(c, k), PosOf(c, k - 1)) !in c.lattice
              && ReflectThrough(PosOf(c, k + 1), PosOf(c, k + 2)) !in c.lattice
    ensures |ForwardCrank(c, k).value| == 1 ==>
              ForwardCrank(c, k).value[0] ==
                Crankshaft(c, k, ReflectThrough(PosOf(c, k), PosOf(c, k - 1)),
                           ReflectThrough(PosOf(c, k + 1), PosOf(c, k + 2)), true).value
  {
    var cur := ReflectThrough(PosOf(c, k), PosOf(c, k - 1));
    var next := ReflectThrough(PosOf(c, k + 1), PosOf(c, k + 2));
    if cur !in c.lattice && next !in c.lattice {
      CrankshaftOnFreeCells(c, k, cur, next, true);
    }
  }

  /** Every crankshaft candidate records two residues on one cell, the
      moved residue and the partner it drags along. */
  lemma CrankCandidatesOverlap(c: Conformation, k: nat)
    requires |c.aminoList| == |c.sequence| && GetCrankshaftMove(c, k).Ok?
    ensures forall d :: d in GetCrankshaftMove(c, k).value ==> Overlapping(d)
  {
    BackwardOverlaps(c, k);
    ForwardOverlaps(c, k);
  }

  /** A valid conformation, or one with two residues on one cell. */
  ghost predicate ValidOrOverlapping(d: Conformation)
  {
    Valid(d) || Overlapping(d)
  }

  /** What a search step may propose for a residue other than the last one
      of a valid chain: a valid conformation (end move of residue 0, corner
      move) or one with two residues on one cell (crankshaft). */
  lemma CandidatesValidOrOverlapping(c: Conformation, k: nat)
    requires Valid(c) && k + 1 < |c.aminoList|
    ensures GetPossibleMoves(c, k).Ok? ==>
              forall d :: d in GetPossibleMoves(c, k).value ==> ValidOrOverlapping(d)
  {
    if k == 0 {
      FirstEndMovesValid(c);
    } else if Diagonal(c, k) {
      CornerMoveValid(c, k);
      if GetCrankshaftMove(c, k).Ok? {
        var corner := GetCornerMove(c, k).value;
        var crank := GetCrankshaftMove(c, k).value;
        CrankCandidatesOverlap(c, k);
        assert GetPossibleMoves(c, k) == Ok(corner + crank);
        forall d | d in corner + crank ensures ValidOrOverlapping(d) {
          assert d in corner || d in crank;
        }
      }
    }
  }

  // ---------------------------------------------------------------------
  // Folds on the edge of the grid

  /** The fold "PPPP" whose four residues sit at the given cells, with the
      lattice pointing back at them. */
  function FourResidueFold(p0: Pos, p1: Pos, p2: Pos, p3: Pos): Conformation
  {
    Conformation("PPPP",
      [AminoAcid(p0, P, 0), AminoAcid(p1, P, 1), AminoAcid(p2, P, 2), AminoAcid(p3, P, 3)],
      map[p0 := 0, p1 := 1, p2 := 2, p3 := 3], 0)
  }

  /** Four distinct in-grid cells, each next to the one before, make a
      valid fold. */
  lemma FourResidueFoldValid(p0: Pos, p1: Pos, p2: Pos, p3: Pos)
    requires InGrid(p0, 8) && InGrid(p1, 8) && InGrid(p2, 8) && InGrid(p3, 8)
    requires Adjacent(p0, p1) && Adjacent(p1, p2) && Adjacent(p2, p3)
    requires p0 != p2 && p1 != p3 && p0 != p3
    ensures Valid(FourResidueFold(p0, p1, p2, p3))
  {
    var c := FourResidueFold(p0, p1, p2, p3);
    assert p0 != p1 && p1 != p2 && p2 != p3;
    forall i | 0 <= i < 4 ensures ResidueShape(c, i) && AtHome(c, i) {
      assert c.sequence[i] == 'P';
    }
    forall q | q in c.lattice ensures CellInRange(c, q) && OwnedBefore(c, q, 4) {
      assert q == p0 || q == p1 || q == p2 || q == p3;
    }
    assert Linked(c.aminoList, 1) && Linked(c.aminoList, 2) && Linked(c.aminoList, 3);
  }

  /** A valid U fold against the far edge of the 8 x 8 grid: the backward
      crankshaft of residue 2 reflects it to (8, 1), outside numpy's range,
      so enumerating the candidates of a valid fold raises `IndexError`. */
  lemma FarEdgeFoldRaises(c: Conformation)
    requires c == FourResidueFold(Pos(7, 0), Pos(7, 1), Pos(6, 1), Pos(6, 0))
    ensures Valid(c)
    ensures GetPossibleMoves(c, 2) == Err(IndexError)
  {
    FourResidueFoldValid(Pos(7, 0), Pos(7, 1), Pos(6, 1), Pos(6, 0));
    assert Diagonal(c, 2);
    assert CornerTarget(c, 2) == Pos(7, 0);
    assert GetCornerMove(c, 2) == Ok([]);
    assert ReflectThrough(PosOf(c, 2), PosOf(c, 1)) == Pos(8, 1);
    assert CellEmpty(c, Pos(8, 1)) == Err(IndexError);
    assert BackwardCrank(c, 2) == Err(IndexError);
  }

  /** The backward crankshaft of residue 2 of a fold with the near-edge
      U shape reflects it to (-1, 1) and residue 1 to (0, -1); both wrap
      round to empty cells, so the move goes through. */
  lemma NearEdgeBackwardCrank(c: Conformation)
    requires |c.sequence| == 4 == |c.aminoList|
    requires c.aminoList[0].position == Pos(0, 0) && c.aminoList[1].position == Pos(0, 1)
    requires c.aminoList[2].position == Pos(1, 1) && c.aminoList[3].position == Pos(1, 0)
    requires c.lattice.Keys == {Pos(0, 0), Pos(0, 1), Pos(1, 1), Pos(1, 0)}
    ensures Crankshaft(c, 2, Pos(-1, 1), Pos(0, -1), false).Ok?
    ensures BackwardCrank(c, 2) == Ok([Crankshaft(c, 2, Pos(-1, 1), Pos(0, -1), false).value])
    ensures Crankshaft(c, 2, Pos(-1, 1), Pos(0, -1), false).value.aminoList[2].position == Pos(-1, 1)
    ensures Pos(7, 1) in Crankshaft(c, 2, Pos(-1, 1), Pos(0, -1), false).value.lattice
    ensures Crankshaft(c, 2, Pos(-1, 1), Pos(0, -1), false).value.lattice[Pos(7, 1)] == 2
  {
    assert Adjacent(PosOf(c, 0), PosOf(c, 3));
    assert ReflectThrough(PosOf(c, 2), PosOf(c, 1)) == Pos(-1, 1);
    assert ReflectThrough(PosOf(c, 1), PosOf(c, 0)) == Pos(0, -1);
    assert CellEmpty(c, Pos(-1, 1)) == Ok(true) && CellEmpty(c, Pos(0, -1)) == Ok(true);
  }

  /** Its candidates: no corner move, since (0, 0) is taken, no forward
      crankshaft, and the backward one. */
  lemma NearEdgeCandidates(c: Conformation)
    requires |c.sequence| == 4 == |c.aminoList|
    requires c.aminoList[0].position == Pos(0, 0) && c.aminoList[1].position == Pos(0, 1)
    requires c.aminoList[2].position == Pos(1, 1) && c.aminoList[3].position == Pos(1, 0)
    requires c.lattice.Keys == {Pos(0, 0), Pos(0, 1), Pos(1, 1), Pos(1, 0)}
    ensures GetPossibleMoves(c, 2).Ok? && |GetPossibleMoves(c, 2).value| == 1
    ensures GetPossibleMoves(c, 2).value[0].aminoList[2].position == Pos(-1, 1)
    ensures Pos(7, 1) in GetPossibleMoves(c, 2).value[0].lattice
    ensures GetPossibleMoves(c, 2).value[0].lattice[Pos(7, 1)] == 2
  {
    assert Diagonal(c, 2);
    assert GetCornerMove(c, 2) == Ok([]);
    NearEdgeBackwardCrank(c);
    var d := Crankshaft(c, 2, Pos(-1, 1), Pos(0, -1), false).value;
    assert ForwardCrank(c, 2) == Ok([]);
    assert [d] + [] == [d] == [] + [d];
    assert GetCrankshaftMove(c, 2) == Ok([d]);
  }

  /** The mirror-image U fold against the near edge: the reflected cells
      (-1, 1) and (0, -1) wrap round to (7, 1) and (0, 7), so the move goes
      through and residue 2 records the negative position (-1, 1) while the
      lattice holds it at (7, 1). */
  lemma NearEdgeFoldWraps(c: Conformation)
    requires c == FourResidueFold(Pos(0, 0), Pos(0, 1), Pos(1, 1), Pos(1, 0))
    ensures Valid(c)
    ensures GetPossibleMoves(c, 2).Ok? && |GetPossibleMoves(c, 2).value| == 1
    ensures GetPossibleMoves(c, 2).value[0].aminoList[2].position == Pos(-1, 1)
    ensures Pos(7, 1) in GetPossibleMoves(c, 2).value[0].lattice
    ensures GetPossibleMoves(c, 2).value[0].lattice[Pos(7, 1)] == 2
  {
    FourResidueFoldValid(Pos(0, 0), Pos(0, 1), Pos(1, 1), Pos(1, 0));
    NearEdgeCandidates(c);
  }
}
