/** The three local moves of the VSHD neighbourhood. A move owns a private
    copy of a conformation and rewrites one or two lattice cells and
    residue positions of that copy; energies are not recomputed. */
module Moves {
  import opened Lattice
  import opened Amino
  import opened Conformations

  datatype MoveType = End | Corner | Crank

  /** `lattice[p] = v` (v = None empties the cell) on the side x side array,
      with numpy subscripting: a negative coordinate counts from the far
      edge, one outside [-side, side) raises. */
  function WriteCell(c: Conformation, p: Pos, v: Option<nat>): (r: Result<Conformation>)
    ensures r.Err? <==> NpCell(p, Side(c)).None?
    ensures r.Err? ==> r.error == IndexError
    ensures r.Ok? ==> r.value == c.(lattice := r.value.lattice)
    ensures r.Ok? && v.Some? ==> r.value.lattice == c.lattice[NpCell(p, Side(c)).value := v.value]
    ensures r.Ok? && v.None? ==> r.value.lattice == c.lattice - {NpCell(p, Side(c)).value}
  {
    match NpCell(p, Side(c))
    case None => Err(IndexError)
    case Some(cell) =>
      Ok(c.(lattice := if v.Some? then c.lattice[cell := v.value] else c.lattice - {cell}))
  }

  /** The three statements every move performs on residue k: the cell
      `cell` takes the residue, the cell of its current position is
      emptied, and its position becomes `position`. End and corner moves
      pass the same point twice; the crankshaft does not for the
      neighbour it drags along. */
  function ShiftResidue(c: Conformation, k: nat, cell: Pos, position: Pos): (r: Result<Conformation>)
    requires k < |c.aminoList|
    ensures r.Err? <==> NpCell(cell, Side(c)).None? || NpCell(c.aminoList[k].position, Side(c)).None?
    ensures r.Err? ==> r.error == IndexError
    ensures r.Ok? ==> r.value.sequence == c.sequence && r.value.energy == c.energy
    ensures r.Ok? ==>
              r.value.lattice == c.lattice[NpCell(cell, Side(c)).value := k] - {NpCell(c.aminoList[k].position, Side(c)).value}
    ensures r.Ok? ==> |r.value.aminoList| == |c.aminoList|
    ensures r.Ok? ==> r.value.aminoList[k].position == position
    ensures r.Ok? ==> forall j :: 0 <= j < |c.aminoList| && j != k ==> r.value.aminoList[j] == c.aminoList[j]
  {
    var placed :- WriteCell(c, cell, Some(k));
    var vacated :- WriteCell(placed, c.aminoList[k].position, None);
    Ok(vacated.(aminoList := c.aminoList[k := c.aminoList[k].(position := position)]))
  }

  /** An end or corner move of residue k to `target`. */
  function Relocate(c: Conformation, k: nat, target: Pos): Result<Conformation>
    requires k < |c.aminoList|
  {
    ShiftResidue(c, k, target, target)
  }

  /** The residue a crankshaft drags along: k + 1 in front, k - 1 behind,
      as a numpy subscript of the residue array. */
  function Partner(c: Conformation, k: nat, front: bool): Option<nat>
  {
    NpIndex(if front then k + 1 else k - 1, |c.aminoList|)
  }

  /** A crankshaft move: residue k moves to `target`; its partner is
      entered in the lattice at `neighbourPos` but its stored position is
      set to `target` as well. */
  function Crankshaft(c: Conformation, k: nat, target: Pos, neighbourPos: Pos, front: bool): (r: Result<Conformation>)
    requires k < |c.aminoList|
    ensures r.Err? ==> r.error == IndexError
    ensures r.Ok? ==> r.value.sequence == c.sequence && r.value.energy == c.energy
    ensures r.Ok? ==> |r.value.aminoList| == |c.aminoList|
  {
    var moved :- Relocate(c, k, target);
    match Partner(c, k, front)
    case None => Err(IndexError)
    case Some(m) => ShiftResidue(moved, m, neighbourPos, target)
  }

  /** Residue k's three writes, statement by statement, on a copy that is
      handed back only when none of them raised. */
  method Shift(c: Conformation, k: nat, cell: Pos, position: Pos) returns (r: Result<Conformation>)
    requires k < |c.aminoList|
    ensures r == ShiftResidue(c, k, cell, position)
  {
    var side := Side(c);
    var newCell := NpCell(cell, side);
    if newCell.None? {
      return Err(IndexError);
    }
    var lattice := c.lattice[newCell.value := k];
    var oldCell := NpCell(c.aminoList[k].position, side);
    if oldCell.None? {
      return Err(IndexError);
    }
    lattice := lattice - {oldCell.value};
    var aminoList := c.aminoList[k := c.aminoList[k].(position := position)];
    r := Ok(c.(lattice := lattice, aminoList := aminoList));
  }

  /** A move: its kind, the private copy of the conformation it rewrites,
      the residue it moves with that residue's target and former position. */
  class Move {
    var moveType: MoveType
    var conf: Conformation
    var newPosition: Pos
    var oldPosition: Pos
    var number: nat

    ghost predicate Valid()
      reads this
    {
      number < |conf.aminoList|
    }

    /** Records the move on a copy of `conf`, remembering the residue's
        current position; `conf` itself is never touched again. */
    constructor (moveType: MoveType, conf: Conformation, number: nat, newPosition: Pos)
      requires number < |conf.aminoList|
      ensures Valid()
      ensures this.moveType == moveType && this.conf == conf && this.number == number
      ensures this.newPosition == newPosition && oldPosition == conf.aminoList[number].position
    {
      this.moveType := moveType;
      this.conf := conf;
      this.newPosition := newPosition;
      this.oldPosition := conf.aminoList[number].position;
      this.number := number;
    }

    /** `end_move`: refuses any other kind, then moves the residue. */
    method EndMove() returns (err: Option<Error>)
      requires Valid()
      modifies this
      ensures Valid()
      ensures moveType == old(moveType) && newPosition == old(newPosition)
      ensures oldPosition == old(oldPosition) && number == old(number)
      ensures moveType != End ==> err == Some(KindMismatch) && conf == old(conf)
      ensures moveType == End && Relocate(old(conf), number, newPosition).Ok? ==>
                err.None? && conf == Relocate(old(conf), number, newPosition).value
      ensures moveType == End && Relocate(old(conf), number, newPosition).Err? ==>
                err == Some(IndexError) && conf == old(conf)
    {
      if moveType != End {
        return Some(KindMismatch);
      }
      var moved := Shift(conf, number, newPosition, newPosition);
      if moved.Err? {
        return Some(moved.error);
      }
      conf := moved.value;
      err := None;
    }

    /** `corner_move`: the same writes as an end move, under its own kind. */
    method CornerMove() returns (err: Option<Error>)
      requires Valid()
      modifies this
      ensures Valid()
      ensures moveType == old(moveType) && newPosition == old(newPosition)
      ensures oldPosition == old(oldPosition) && number == old(number)
      ensures moveType != Corner ==> err == Some(KindMismatch) && conf == old(conf)
      ensures moveType == Corner && Relocate(old(conf), number, newPosition).Ok? ==>
                err.None? && conf == Relocate(old(conf), number, newPosition).value
      ensures moveType == Corner && Relocate(old(conf), number, newPosition).Err? ==>
                err == Some(IndexError) && conf == old(conf)
    {
      if moveType != Corner {
        return Some(KindMismatch);
      }
      var moved := Shift(conf, number, newPosition, newPosition);
      if moved.Err? {
        return Some(moved.error);
      }
      conf := moved.value;
      err := None;
    }

    /** `crankshaft_move`: moves the residue, then enters its partner at
        `neighbourPos` in the lattice while setting the partner's position
        to `newPosition`. */
    method CrankshaftMove(neighbourPos: Pos, front: bool) returns (err: Option<Error>)
      requires Valid()
      modifies this
      ensures Valid()
      ensures moveType == old(moveType) && newPosition == old(newPosition)
      ensures oldPosition == old(oldPosition) && number == old(number)
      ensures moveType != Crank ==> err == Some(KindMismatch) && conf == old(conf)
      ensures moveType == Crank && Crankshaft(old(conf), number, newPosition, neighbourPos, front).Ok? ==>
                err.None? && conf == Crankshaft(old(conf), number, newPosition, neighbourPos, front).value
      ensures moveType == Crank && Crankshaft(old(conf), number, newPosition, neighbourPos, front).Err? ==>
                err == Some(IndexError) && conf == old(conf)
    {
      if moveType != Crank {
        return Some(KindMismatch);
      }
      var moved := Shift(conf, number, newPosition, newPosition);
      if moved.Err? {
        return Some(moved.error);
      }
      var partner := Partner(conf, number, front);
      if partner.None? {
        return Some(IndexError);
      }
      var dragged := Shift(moved.value, partner.value, neighbourPos, newPosition);
      if dragged.Err? {
        return Some(dragged.error);
      }
      conf := dragged.value;
      err := None;
    }
  }

  // ---------------------------------------------------------------------
  // What the moves do to a consistent conformation

  /** On a consistent conformation, a move to a free cell rewrites exactly
      two cells: the target now holds the residue and its former cell is
      empty; the residue's position is the target and nothing else changes. */
  lemma RelocateOnFreeCell(c: Conformation, k: nat, t: Pos)
    requires WellFormed(c) && Consistent(c) && k < |c.aminoList| && IsFree(c, t)
    ensures Relocate(c, k, t).Ok?
    ensures Relocate(c, k, t).value.lattice == c.lattice[t := k] - {c.aminoList[k].position}
    ensures Relocate(c, k, t).value.aminoList == c.aminoList[k := c.aminoList[k].(position := t)]
  {
    assert AtHome(c, k);
  }

  /** On a consistent conformation, a crankshaft onto two free cells
      rewrites four cells: the target holds residue k, `neighbourPos` holds
      its partner m, and the former cells of both are empty; both residues
      record the target as their position and nothing else changes. */
  lemma CrankshaftOnFreeCells(c: Conformation, k: nat, t: Pos, neighbourPos: Pos, front: bool)
    requires WellFormed(c) && Consistent(c) && k < |c.aminoList|
    requires IsFree(c, t) && IsFree(c, neighbourPos)
    requires Partner(c, k, front).Some? && Partner(c, k, front).value != k
    ensures Crankshaft(c, k, t, neighbourPos, front).Ok?
    ensures var m := Partner(c, k, front).value;
            Crankshaft(c, k, t, neighbourPos, front).value.lattice ==
              c.lattice[t := k][neighbourPos := m] - {c.aminoList[k].position, c.aminoList[m].position}
    ensures var m := Partner(c, k, front).value;
            Crankshaft(c, k, t, neighbourPos, front).value.aminoList ==
              c.aminoList[k := c.aminoList[k].(position := t)][m := c.aminoList[m].(position := t)]
  {
    var m := Partner(c, k, front).value;
    RelocateOnFreeCell(c, k, t);
    assert AtHome(c, k) && AtHome(c, m);
  }

  /** Such a move keeps the grid and the residue array consistent. */
  lemma RelocateKeepsConsistent(c: Conformation, k: nat, t: Pos)
    requires WellFormed(c) && Consistent(c) && k < |c.aminoList| && IsFree(c, t)
    ensures Relocate(c, k, t).Ok?
    ensures WellFormed(Relocate(c, k, t).value) && Consistent(Relocate(c, k, t).value)
  {
    RelocateOnFreeCell(c, k, t);
    var r := Relocate(c, k, t).value;
    var n := |c.aminoList|;
    forall j | 0 <= j < n ensures ResidueShape(r, j) && AtHome(r, j) {
      assert ResidueShape(c, j) && AtHome(c, j);
      if j != k {
        assert AtHome(c, k);
      }
    }
    forall q | q in r.lattice ensures CellInRange(r, q) && OwnedBefore(r, q, n) {
      if q != t {
        assert CellInRange(c, q) && OwnedBefore(c, q, n);
      }
    }
  }

  /** Moving the residue back to where it was restores the conformation. */
  lemma RelocateRoundTrip(c: Conformation, k: nat, t: Pos)
    requires WellFormed(c) && Consistent(c) && k < |c.aminoList| && IsFree(c, t)
    ensures Relocate(c, k, t).Ok?
    ensures Relocate(Relocate(c, k, t).value, k, c.aminoList[k].position) == Ok(c)
  {
    RelocateOnFreeCell(c, k, t);
    assert AtHome(c, k);
    var p0 := c.aminoList[k].position;
    var r := Relocate(c, k, t).value;
    var back := Relocate(r, k, p0);
    assert back.Ok?;
    assert back.value.lattice == c.lattice;
    assert back.value.aminoList == c.aminoList;
  }

  /** After a crankshaft, the residue moved and the partner dragged along
      both record the target as their position, so the result is never
      self-avoiding, hence never consistent. */
  lemma CrankshaftOverlaps(c: Conformation, k: nat, t: Pos, neighbourPos: Pos, front: bool)
    requires 2 <= |c.aminoList| && k < |c.aminoList|
    requires Crankshaft(c, k, t, neighbourPos, front).Ok?
    ensures Partner(c, k, front).Some? && Partner(c, k, front).value != k
    ensures Crankshaft(c, k, t, neighbourPos, front).value.aminoList[k].position == t
    ensures Crankshaft(c, k, t, neighbourPos, front).value.aminoList[Partner(c, k, front).value].position == t
    ensures !SelfAvoiding(Crankshaft(c, k, t, neighbourPos, front).value)
    ensures !Consistent(Crankshaft(c, k, t, neighbourPos, front).value)
  {
    var r := Crankshaft(c, k, t, neighbourPos, front).value;
    var m := Partner(c, k, front).value;
    var moved := Relocate(c, k, t).value;
    assert r == ShiftResidue(moved, m, neighbourPos, t).value;
    var i, j := if k < m then k else m, if k < m then m else k;
    assert r.aminoList[i].position == r.aminoList[j].position;
    assert !(AtHome(r, i) && AtHome(r, j));
  }

  /** A move to a free cell adjacent to both chain neighbours of the
      residue keeps a valid conformation valid. */
  lemma RelocateKeepsValid(c: Conformation, k: nat, t: Pos)
    requires Valid(c) && k < |c.aminoList| && IsFree(c, t)
    requires k > 0 ==> Adjacent(c.aminoList[k - 1].position, t)
    requires k + 1 < |c.aminoList| ==> Adjacent(t, c.aminoList[k + 1].position)
    ensures Relocate(c, k, t).Ok? && Valid(Relocate(c, k, t).value)
  {
    RelocateKeepsConsistent(c, k, t);
    RelocateOnFreeCell(c, k, t);
    var r := Relocate(c, k, t).value;
    forall j | 1 <= j < |r.aminoList| ensures Linked(r.aminoList, j) {
      if j != k && j != k + 1 {
        assert Linked(c.aminoList, j);
      }
    }
  }
}
