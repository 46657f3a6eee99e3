/** A folding of an amino-acid sequence on a 2N x 2N lattice: the residue
    array, the occupancy grid whose cells point back at residues, and the
    cached HP energy; its placement by random walk or straight line, the
    free-cell search and the contact energy. */
module Conformations {
  import opened Lattice
  import opened Amino

  /** A conformation. Lattice cells hold the index of the residue occupying
      them; an absent key is an empty cell. */
  datatype Conformation = Conformation(
    sequence: string,
    aminoList: seq<AminoAcid>,
    lattice: map<Pos, nat>,
    energy: int)

  function Size(c: Conformation): nat { |c.sequence| }

  /** The side of the square lattice. */
  function Side(c: Conformation): nat { 2 * |c.sequence| }

  function PosOf(c: Conformation, i: nat): Pos
    requires i < |c.aminoList|
  {
    c.aminoList[i].position
  }

  /** The shape every conformation built from a sequence has: one residue
      per letter, residue i has index i and the class of letter i, and the
      lattice only names in-grid cells and existing residues. */
  ghost predicate WellFormed(c: Conformation)
  {
    && |c.aminoList| == |c.sequence|
    && (forall i :: 0 <= i < |c.aminoList| ==> ResidueShape(c, i))
    && (forall q :: q in c.lattice ==> CellInRange(c, q))
  }

  /** Residue i has index i and the class of letter i. */
  ghost predicate ResidueShape(c: Conformation, i: nat)
    requires i < |c.aminoList| == |c.sequence|
  {
    c.aminoList[i].index == i && c.aminoList[i].hpType == LetterType(c.sequence[i])
  }

  /** Occupied cell q lies in the grid and names an existing residue. */
  ghost predicate CellInRange(c: Conformation, q: Pos)
    requires q in c.lattice
  {
    InGrid(q, Side(c)) && c.lattice[q] < |c.aminoList|
  }

  /** Residues 0..k-1 sit in the grid on cells that point back at them, and
      every occupied cell is the stored position of one of them. */
  ghost predicate PlacedUpTo(c: Conformation, k: nat)
    requires k <= |c.aminoList|
  {
    && (forall i :: 0 <= i < k ==> AtHome(c, i))
    && (forall q :: q in c.lattice ==> OwnedBefore(c, q, k))
  }

  /** Residue i sits in the grid on a cell that points back at it. */
  ghost predicate AtHome(c: Conformation, i: nat)
    requires i < |c.aminoList|
  {
    && InGrid(c.aminoList[i].position, Side(c))
    && c.aminoList[i].position in c.lattice
    && c.lattice[c.aminoList[i].position] == i
  }

  /** Occupied cell q holds one of residues 0..k-1, whose position is q. */
  ghost predicate OwnedBefore(c: Conformation, q: Pos, k: nat)
    requires q in c.lattice && k <= |c.aminoList|
  {
    c.lattice[q] < k && c.aminoList[c.lattice[q]].position == q
  }

  /** Residue i sits next to residue i-1. */
  predicate Linked(aminoList: seq<AminoAcid>, i: nat)
    requires 1 <= i < |aminoList|
  {
    Adjacent(aminoList[i - 1].position, aminoList[i].position)
  }

  /** Residues 0..k-1 form a lattice path. */
  ghost predicate ChainedUpTo(c: Conformation, k: nat)
    requires k <= |c.aminoList|
  {
    forall i :: 1 <= i < k ==> Linked(c.aminoList, i)
  }

  /** Grid/array consistency: a cell holds residue i exactly when residue i's
      stored position is that cell. */
  ghost predicate Consistent(c: Conformation)
  {
    PlacedUpTo(c, |c.aminoList|)
  }

  /** Chain connectivity: consecutive residues are lattice-adjacent. */
  ghost predicate Connected(c: Conformation)
  {
    ChainedUpTo(c, |c.aminoList|)
  }

  /** No two residues share a position. */
  ghost predicate SelfAvoiding(c: Conformation)
  {
    forall i, j :: 0 <= i < j < |c.aminoList| ==> c.aminoList[i].position != c.aminoList[j].position
  }

  /** A physically meaningful conformation. */
  ghost predicate Valid(c: Conformation)
  {
    WellFormed(c) && Consistent(c) && Connected(c)
  }

  /** Consistency already rules out two residues on one cell. */
  lemma ConsistentIsSelfAvoiding(c: Conformation)
    requires Consistent(c)
    ensures SelfAvoiding(c)
  {
    forall i, j | 0 <= i < j < |c.aminoList|
      ensures c.aminoList[i].position != c.aminoList[j].position
    {
      assert AtHome(c, i) && AtHome(c, j);
    }
  }

  // ---------------------------------------------------------------------
  // Residue list

  /** The residue list `create_amino_list` builds for a sequence. */
  function AminoListOf(sequence: string): (l: seq<AminoAcid>)
    ensures |l| == |sequence|
  {
    seq(|sequence|, i requires 0 <= i < |sequence| => NewAminoAcid(Origin, [sequence[i]], i))
  }

  /** Fills the residue list one letter at a time. */
  method CreateAminoList(sequence: string) returns (aminoList: seq<AminoAcid>)
    ensures |aminoList| == |sequence|
    ensures forall i :: 0 <= i < |sequence| ==>
              aminoList[i].index == i && aminoList[i].hpType == GetType([sequence[i]])
    ensures aminoList == AminoListOf(sequence)
  {
    aminoList := [];
    for i := 0 to |sequence|
      invariant |aminoList| == i
      invariant forall j :: 0 <= j < i ==> aminoList[j] == NewAminoAcid(Origin, [sequence[j]], j)
    {
      aminoList := aminoList + [NewAminoAcid(Origin, [sequence[i]], i)];
    }
  }

  /** A conformation before placement: residue list built, empty lattice. */
  function Unplaced(sequence: string): (c: Conformation)
    ensures WellFormed(c) && c.lattice == map[]
  {
    Conformation(sequence, AminoListOf(sequence), map[], 0)
  }

  // ---------------------------------------------------------------------
  // Free neighbouring cells

  /** Which of the four offsets `p` is from `start` (4 when none). */
  function OffsetRank(start: Pos, p: Pos): nat
  {
    if p == Plus(start, Offsets[0]) then 0
    else if p == Plus(start, Offsets[1]) then 1
    else if p == Plus(start, Offsets[2]) then 2
    else if p == Plus(start, Offsets[3]) then 3
    else 4
  }

  /** An in-grid, empty cell. */
  ghost predicate IsFree(c: Conformation, p: Pos)
  {
    InGrid(p, Side(c)) && p !in c.lattice
  }

  /** The free cells among offsets k..3 of `start`, in offset order. */
  function FreeFrom(c: Conformation, start: Pos, k: nat): (res: seq<Pos>)
    requires k <= 4
    decreases 4 - k
    ensures |res| <= 4 - k
    ensures forall i :: 0 <= i < |res| ==> IsFree(c, res[i]) && Adjacent(res[i], start)
  {
    if k == 4 then []
    else
      var cell := Plus(start, Offsets[k]);
      var rest := FreeFrom(c, start, k + 1);
      if 0 <= cell.x < Side(c) && 0 <= cell.y < Side(c) && cell !in c.lattice then [cell] + rest
      else rest
  }

  /** The four offsets lead to four different cells, ranked 0 to 3. */
  lemma OffsetRanks(start: Pos)
    ensures forall k :: 0 <= k < 4 ==> OffsetRank(start, Plus(start, Offsets[k])) == k
  {
  }

  /** The cells FreeFrom lists come from offsets k..3. */
  lemma {:induction false} FreeFromRanks(c: Conformation, start: Pos, k: nat)
    requires k <= 4
    decreases 4 - k
    ensures forall i :: 0 <= i < |FreeFrom(c, start, k)| ==> k <= OffsetRank(start, FreeFrom(c, start, k)[i]) < 4
  {
    if k < 4 {
      FreeFromRanks(c, start, k + 1);
      OffsetRanks(start);
    }
  }

  /** FreeFrom lists its cells in increasing offset order. */
  lemma {:induction false} FreeFromOrdered(c: Conformation, start: Pos, k: nat)
    requires k <= 4
    decreases 4 - k
    ensures forall i, j :: 0 <= i < j < |FreeFrom(c, start, k)| ==>
              OffsetRank(start, FreeFrom(c, start, k)[i]) < OffsetRank(start, FreeFrom(c, start, k)[j])
  {
    if k < 4 {
      FreeFromOrdered(c, start, k + 1);
      FreeFromRanks(c, start, k + 1);
      OffsetRanks(start);
    }
  }

  /** FreeFrom misses no free cell among offsets k..3. */
  lemma {:induction false} FreeFromComplete(c: Conformation, start: Pos, k: nat)
    requires k <= 4
    decreases 4 - k
    ensures forall j :: k <= j < 4 && IsFree(c, Plus(start, Offsets[j])) ==> Plus(start, Offsets[j]) in FreeFrom(c, start, k)
  {
    if k < 4 {
      FreeFromComplete(c, start, k + 1);
    }
  }

  /** The free cells around `startPos`, tried in the order west, north,
      east, south: at most four, each adjacent to `startPos`, inside the
      grid and empty. */
  function GetFreePos(c: Conformation, startPos: Pos): (res: seq<Pos>)
    ensures |res| <= 4
    ensures forall i :: 0 <= i < |res| ==> IsFree(c, res[i]) && Adjacent(res[i], startPos)
  {
    FreeFrom(c, startPos, 0)
  }

  /** Every free cell adjacent to `startPos` is listed. */
  lemma GetFreePosComplete(c: Conformation, startPos: Pos)
    ensures forall p :: IsFree(c, p) && Adjacent(p, startPos) ==> p in GetFreePos(c, startPos)
  {
    FreeFromComplete(c, startPos, 0);
    forall p | IsFree(c, p) && Adjacent(p, startPos) ensures p in GetFreePos(c, startPos) {
      var j := if p.x < startPos.x then 0 else if p.y < startPos.y then 1
               else if p.x > startPos.x then 2 else 3;
      assert p == Plus(startPos, Offsets[j]);
    }
  }

  /** The listed cells follow the offset order, so none is listed twice. */
  lemma GetFreePosOrdered(c: Conformation, startPos: Pos)
    ensures forall i, j :: 0 <= i < j < |GetFreePos(c, startPos)| ==>
              OffsetRank(startPos, GetFreePos(c, startPos)[i]) < OffsetRank(startPos, GetFreePos(c, startPos)[j])
    ensures forall i, j :: 0 <= i < j < |GetFreePos(c, startPos)| ==>
              GetFreePos(c, startPos)[i] != GetFreePos(c, startPos)[j]
  {
    FreeFromOrdered(c, startPos, 0);
  }

  // ---------------------------------------------------------------------
  // Placement

  /** Puts residue i on cell p. */
  function Place(c: Conformation, i: nat, p: Pos): (r: Conformation)
    requires i < |c.aminoList|
    ensures |r.aminoList| == |c.aminoList| && r.sequence == c.sequence && r.energy == c.energy
  {
    c.(lattice := c.lattice[p := i],
       aminoList := c.aminoList[i := c.aminoList[i].(position := p)])
  }

  /** The next residue's cell in the random walk: the free cell around
      residue `prevAaNum` that the draw selects, or an exception when there
      is none. */
  function GetNextPosition(c: Conformation, prevAaNum: nat, draw: nat): (r: Result<Pos>)
    requires prevAaNum < |c.aminoList|
    ensures r.Err? <==> GetFreePos(c, PosOf(c, prevAaNum)) == []
    ensures r.Err? ==> r.error == NoFreePosition
    ensures r.Ok? ==> IsFree(c, r.value) && Adjacent(r.value, PosOf(c, prevAaNum))
  {
    var allowedPos := GetFreePos(c, PosOf(c, prevAaNum));
    if |allowedPos| == 0 then Err(NoFreePosition)
    else Ok(allowedPos[draw % |allowedPos|])
  }

  /** The cell of residue 0 in a random walk. */
  function WalkStart(n: nat): Pos { Pos(n - 1, n - 1) }

  /** The cell of residue i in a straight-line layout. */
  function LinePos(n: nat, i: int): Pos { Pos(n - n / 2 + i, n) }

  /** The random walk from residue i on, residue i-1 being the last placed;
      `draws[i - 1]` chooses the cell of residue i. */
  function WalkFrom(c: Conformation, draws: seq<nat>, i: nat): (r: Result<Conformation>)
    requires 1 <= i <= |c.aminoList| && |draws| + 1 >= |c.aminoList|
    decreases |c.aminoList| - i
    ensures r.Err? ==> r.error == NoFreePosition
    ensures r.Ok? ==> r.value.sequence == c.sequence && |r.value.aminoList| == |c.aminoList|
  {
    if i == |c.aminoList| then Ok(c)
    else
      match GetNextPosition(c, i - 1, draws[i - 1])
      case Err(e) => Err(e)
      case Ok(newPosition) => WalkFrom(Place(c, i, newPosition), draws, i + 1)
  }

  /** The straight-line layout of all residues. */
  function LineLayout(c: Conformation): (r: Conformation)
    requires |c.aminoList| == |c.sequence|
    ensures |r.aminoList| == |c.aminoList| && r.sequence == c.sequence
  {
    var n := |c.aminoList|;
    c.(aminoList := LineResidues(c.aminoList, n), lattice := LineCells(n, n))
  }

  /** The residue list once residues 0..k-1 are laid out on the line. */
  function LineResidues(aminoList: seq<AminoAcid>, k: nat): (r: seq<AminoAcid>)
    ensures |r| == |aminoList|
  {
    seq(|aminoList|, j requires 0 <= j < |aminoList| =>
      if j < k then aminoList[j].(position := LinePos(|aminoList|, j)) else aminoList[j])
  }

  /** The lattice once residues 0..k-1 are laid out on a line of n. */
  function LineCells(n: nat, k: nat): map<Pos, nat>
  {
    map j | 0 <= j < k :: LinePos(n, j) := j
  }

  /** One call of `assign_positions` on a fresh lattice. An empty sequence
      fails in both modes: subscripting a 0 x 0 lattice raises. */
  function Attempt(c: Conformation, line: bool, draws: seq<nat>): (r: Result<Conformation>)
    requires |c.aminoList| == |c.sequence| && |draws| + 1 >= |c.sequence|
    ensures r.Err? ==> r.error == IndexError || r.error == NoFreePosition
    ensures r.Err? && r.error == IndexError <==> |c.sequence| == 0
    ensures line ==> (r.Ok? <==> |c.sequence| > 0)
    ensures r.Ok? ==> r.value.sequence == c.sequence && |r.value.aminoList| == |c.aminoList|
  {
    var n := |c.sequence|;
    if n == 0 then Err(IndexError)
    else if line then Ok(LineLayout(c))
    else WalkFrom(Place(c.(lattice := map[]), 0, WalkStart(n)), draws, 1)
  }

  /** One placement pass, as the source writes it: residue by residue. */
  method AssignPositions(c: Conformation, line: bool, draws: seq<nat>) returns (r: Result<Conformation>)
    requires |c.aminoList| == |c.sequence| && |draws| + 1 >= |c.sequence|
    ensures r == Attempt(c, line, draws)
  {
    var n := |c.sequence|;
    if n == 0 {
      r := Err(IndexError);
    } else if line {
      var placed := LinePositions(c);
      r := Ok(placed);
    } else {
      r := RandomWalkPositions(c, draws);
    }
  }

  /** Line mode: residue 0 at (N - N/2, N), residue i i cells further along x. */
  method LinePositions(c: Conformation) returns (r: Conformation)
    requires 0 < |c.aminoList| == |c.sequence|
    ensures r == LineLayout(c)
  {
    var n := |c.sequence|;
    var origin := LinePos(n, 0);
    var lattice: map<Pos, nat> := map[origin := 0];
    var aminoList := c.aminoList[0 := c.aminoList[0].(position := origin)];
    LineStep(c.aminoList, 0);
    for i := 1 to n
      invariant lattice == LineCells(n, i)
      invariant aminoList == LineResidues(c.aminoList, i)
    {
      var newPosition := Plus(origin, Pos(i, 0));
      LineStep(c.aminoList, i);
      lattice := lattice[newPosition := i];
      aminoList := aminoList[i := aminoList[i].(position := newPosition)];
    }
    r := c.(lattice := lattice, aminoList := aminoList);
  }

  /** Laying out residue k extends both the list and the lattice by one. */
  lemma LineStep(aminoList: seq<AminoAcid>, k: nat)
    requires k < |aminoList|
    ensures LineCells(|aminoList|, k + 1) == LineCells(|aminoList|, k)[LinePos(|aminoList|, k) := k]
    ensures LineResidues(aminoList, k + 1)
            == LineResidues(aminoList, k)[k := LineResidues(aminoList, k)[k].(position := LinePos(|aminoList|, k))]
  {
  }

  /** Random-walk mode: residue 0 at (N-1, N-1), then each residue on the
      free neighbour of its predecessor that the draw selects; a dead end
      raises. */
  method RandomWalkPositions(c: Conformation, draws: seq<nat>) returns (r: Result<Conformation>)
    requires 0 < |c.aminoList| == |c.sequence| && |draws| + 1 >= |c.sequence|
    ensures r == WalkFrom(Place(c.(lattice := map[]), 0, WalkStart(|c.sequence|)), draws, 1)
  {
    var n := |c.sequence|;
    var start := Place(c.(lattice := map[]), 0, WalkStart(n));
    var cur := start;
    var i := 1;
    while i < n
      invariant 1 <= i <= n
      invariant |cur.aminoList| == n && cur.sequence == c.sequence
      invariant WalkFrom(cur, draws, i) == WalkFrom(start, draws, 1)
    {
      var next := GetNextPosition(cur, i - 1, draws[i - 1]);
      if next.Err? {
        return Err(next.error);
      }
      cur := Place(cur, i, next.value);
      i := i + 1;
    }
    return Ok(cur);
  }

  /** The first successful outcome of a series of attempts. */
  function FirstOk(results: seq<Result<Conformation>>): (r: Result<Conformation>)
    ensures r.Ok? <==> exists k :: 0 <= k < |results| && results[k].Ok?
    ensures r.Err? ==> r.error == PlacementExhausted
    ensures r.Ok? ==> exists k :: 0 <= k < |results| && r == results[k] && forall j :: 0 <= j < k ==> results[j].Err?
  {
    if results == [] then Err(PlacementExhausted)
    else if results[0].Ok? then results[0]
    else
      var r := FirstOk(results[1..]);
      assert forall k :: 1 <= k < |results| ==> results[k] == results[1..][k - 1];
      r
  }

  /** Scanning the outcomes from k on: the k-th if it succeeded, else the
      scan from k + 1. */
  lemma FirstOkStep(results: seq<Result<Conformation>>, k: nat)
    requires k < |results|
    ensures FirstOk(results[k..]) == if results[k].Ok? then results[k] else FirstOk(results[k + 1..])
  {
    assert results[k..][0] == results[k];
    assert results[k..][1..] == results[k + 1..];
  }

  /** The outcome of each placement attempt, one per draw sequence. */
  function Attempts(c: Conformation, line: bool, attempts: seq<seq<nat>>): (rs: seq<Result<Conformation>>)
    requires |c.aminoList| == |c.sequence|
    requires forall a :: a in attempts ==> |a| + 1 >= |c.sequence|
    ensures |rs| == |attempts|
  {
    seq(|attempts|, k requires 0 <= k < |attempts| => Attempt(c, line, attempts[k]))
  }

  /** The retry loop of the constructor, bounded by the attempts supplied:
      every failed attempt is discarded and the next starts afresh. */
  function Retry(c: Conformation, line: bool, attempts: seq<seq<nat>>): (r: Result<Conformation>)
    requires |c.aminoList| == |c.sequence|
    requires forall a :: a in attempts ==> |a| + 1 >= |c.sequence|
    ensures r.Ok? <==> exists k :: 0 <= k < |attempts| && Attempt(c, line, attempts[k]).Ok?
    ensures r.Err? ==> r.error == PlacementExhausted
    ensures r.Ok? ==> r.value.sequence == c.sequence && |r.value.aminoList| == |c.aminoList|
  {
    var rs := Attempts(c, line, attempts);
    assert forall k :: 0 <= k < |rs| ==> rs[k] == Attempt(c, line, attempts[k]);
    var r := FirstOk(rs);
    if r.Ok? then
      var k :| 0 <= k < |rs| && r == rs[k];
      assert r == Attempt(c, line, attempts[k]);
      r
    else r
  }

  // ---------------------------------------------------------------------
  // Placement establishes the invariants

  /** What holds after residues 0..k-1 are placed: a valid prefix. */
  ghost predicate PartialWalk(c: Conformation, k: nat)
    requires k <= |c.aminoList|
  {
    WellFormed(c) && PlacedUpTo(c, k) && ChainedUpTo(c, k)
  }

  /** Placing residue i on a free cell next to residue i-1 extends a valid
      prefix by one. */
  lemma PlaceExtendsPrefix(c: Conformation, i: nat, p: Pos)
    requires 1 <= i < |c.aminoList| && PartialWalk(c, i)
    requires IsFree(c, p) && Adjacent(p, PosOf(c, i - 1))
    ensures PartialWalk(Place(c, i, p), i + 1)
  {
    PlaceKeepsWellFormed(c, i, p);
    PlaceExtendsPlaced(c, i, p);
    PlaceExtendsChain(c, i, p);
  }

  lemma PlaceExtendsChain(c: Conformation, i: nat, p: Pos)
    requires 1 <= i < |c.aminoList| && ChainedUpTo(c, i) && Adjacent(p, PosOf(c, i - 1))
    ensures ChainedUpTo(Place(c, i, p), i + 1)
  {
    var r := Place(c, i, p);
    assert Linked(r.aminoList, i);
    forall j | 1 <= j < i + 1 ensures Linked(r.aminoList, j) {
      if j < i {
        assert Linked(c.aminoList, j);
      }
    }
  }

  lemma PlaceKeepsWellFormed(c: Conformation, i: nat, p: Pos)
    requires WellFormed(c) && i < |c.aminoList| && InGrid(p, Side(c))
    ensures WellFormed(Place(c, i, p))
  {
    var r := Place(c, i, p);
    forall j | 0 <= j < |r.aminoList| ensures ResidueShape(r, j) {
      assert ResidueShape(c, j);
    }
    forall q | q in r.lattice ensures CellInRange(r, q) {
      if q != p {
        assert CellInRange(c, q);
      }
    }
  }

  lemma PlaceExtendsPlaced(c: Conformation, i: nat, p: Pos)
    requires i < |c.aminoList| && PlacedUpTo(c, i) && p !in c.lattice && InGrid(p, Side(c))
    ensures PlacedUpTo(Place(c, i, p), i + 1)
  {
    var r := Place(c, i, p);
    forall j | 0 <= j < i + 1 ensures AtHome(r, j) {
      if j < i {
        assert AtHome(c, j);
      }
    }
    forall q | q in r.lattice ensures OwnedBefore(r, q, i + 1) {
      if q != p {
        assert OwnedBefore(c, q, i);
      }
    }
  }

  /** A random walk that completes has placed every residue on a valid
      prefix, that is, yields a valid conformation. */
  lemma {:induction false} WalkFromValid(c: Conformation, draws: seq<nat>, i: nat)
    requires 1 <= i <= |c.aminoList| && |draws| + 1 >= |c.aminoList| && PartialWalk(c, i)
    ensures WalkFrom(c, draws, i).Ok? ==> PartialWalk(WalkFrom(c, draws, i).value, |c.aminoList|)
    decreases |c.aminoList| - i
  {
    if i < |c.aminoList| {
      var next := GetNextPosition(c, i - 1, draws[i - 1]);
      if next.Ok? {
        PlaceExtendsPrefix(c, i, next.value);
        WalkFromValid(Place(c, i, next.value), draws, i + 1);
      }
    }
  }

  /** The walk never moves residue 0, placed before it starts. */
  lemma {:induction false} WalkKeepsStart(c: Conformation, draws: seq<nat>, i: nat)
    requires 1 <= i <= |c.aminoList| && |draws| + 1 >= |c.aminoList|
    ensures WalkFrom(c, draws, i).Ok? ==> WalkFrom(c, draws, i).value.aminoList[0] == c.aminoList[0]
    decreases |c.aminoList| - i
  {
    if i < |c.aminoList| {
      var next := GetNextPosition(c, i - 1, draws[i - 1]);
      if next.Ok? {
        WalkKeepsStart(Place(c, i, next.value), draws, i + 1);
      }
    }
  }

  /** Line placement puts residue i at (N - N/2 + i, N): a horizontal
      segment, hence valid. */
  lemma LineLayoutValid(c: Conformation)
    requires WellFormed(c) && |c.sequence| > 0
    ensures Valid(LineLayout(c))
    ensures forall i :: 0 <= i < |c.sequence| ==> LineLayout(c).aminoList[i].position == LinePos(|c.sequence|, i)
  {
    var n := |c.sequence|;
    var r := LineLayout(c);
    LineLayoutCells(c);
    forall j | 0 <= j < n ensures ResidueShape(r, j) && AtHome(r, j) {
      assert ResidueShape(c, j);
      assert LinePos(n, j) in r.lattice;
    }
    forall j | 1 <= j < n ensures Linked(r.aminoList, j) {
    }
  }

  /** Every cell of the line layout holds the residue placed on it. */
  lemma LineLayoutCells(c: Conformation)
    requires |c.aminoList| == |c.sequence| > 0
    ensures forall q :: q in LineLayout(c).lattice ==>
              CellInRange(LineLayout(c), q) && OwnedBefore(LineLayout(c), q, |c.sequence|)
  {
    var n := |c.sequence|;
    var r := LineLayout(c);
    forall q | q in r.lattice ensures CellInRange(r, q) && OwnedBefore(r, q, n) {
      var j :| 0 <= j < n && q == LinePos(n, j);
    }
  }

  /** Random-walk placement: residue 0 at (N-1, N-1), each later residue on
      a free neighbour of the previous one; a completed walk is connected,
      self-avoiding and grid/array consistent. */
  lemma RandomWalkValid(c: Conformation, draws: seq<nat>)
    requires WellFormed(c) && |c.sequence| > 0 && |draws| + 1 >= |c.sequence|
    ensures Attempt(c, false, draws).Ok? ==> Valid(Attempt(c, false, draws).value)
    ensures Attempt(c, false, draws).Ok? ==> Attempt(c, false, draws).value.sequence == c.sequence
    ensures Attempt(c, false, draws).Ok? ==> PosOf(Attempt(c, false, draws).value, 0) == WalkStart(|c.sequence|)
  {
    var e := c.(lattice := map[]);
    var s := Place(e, 0, WalkStart(|c.sequence|));
    forall j | 0 <= j < |e.aminoList| ensures ResidueShape(e, j) {
      assert ResidueShape(c, j);
    }
    PlaceKeepsWellFormed(e, 0, WalkStart(|c.sequence|));
    PlaceExtendsPlaced(e, 0, WalkStart(|c.sequence|));
    WalkFromValid(s, draws, 1);
    assert Attempt(c, false, draws) == WalkFrom(s, draws, 1);
    WalkKeepsStart(s, draws, 1);
  }

  /** Every placement pass that returns gives a valid conformation of the
      same sequence; line placement fails only on the empty sequence. */
  lemma AttemptValid(c: Conformation, line: bool, draws: seq<nat>)
    requires WellFormed(c) && |draws| + 1 >= |c.sequence|
    ensures Attempt(c, line, draws).Ok? ==> Valid(Attempt(c, line, draws).value)
    ensures Attempt(c, line, draws).Ok? ==> Attempt(c, line, draws).value.sequence == c.sequence
    ensures line ==> (Attempt(c, line, draws).Ok? <==> |c.sequence| > 0)
  {
    if |c.sequence| > 0 {
      if line {
        LineLayoutValid(c);
      } else {
        RandomWalkValid(c, draws);
      }
    }
  }

  /** What the bounded retry returns is a valid conformation of the same
      sequence. */
  lemma RetryValid(c: Conformation, line: bool, attempts: seq<seq<nat>>)
    requires WellFormed(c)
    requires forall a :: a in attempts ==> |a| + 1 >= |c.sequence|
    ensures Retry(c, line, attempts).Ok? ==> Valid(Retry(c, line, attempts).value)
    ensures Retry(c, line, attempts).Ok? ==> Retry(c, line, attempts).value.sequence == c.sequence
  {
    var rs := Attempts(c, line, attempts);
    if FirstOk(rs).Ok? {
      var k :| 0 <= k < |rs| && FirstOk(rs) == rs[k];
      assert attempts[k] in attempts;
      AttemptValid(c, line, attempts[k]);
    }
  }

  // ---------------------------------------------------------------------
  // Energy

  /** Residues i < j form an HP contact: both hydrophobic, not bonded
      (j - i > 1) and lattice-adjacent. `norm(d) <= 1.1` on an integer
      vector is a Manhattan length of at most 1. */
  predicate InContact(am: seq<AminoAcid>, i: nat, j: nat)
    requires i < j < |am|
  {
    am[i].hpType == H && am[j].hpType == H
    && Manhattan(am[i].position, am[j].position) <= 1 && j - i > 1
  }

  /** Contacts (i, j') with i < j' < j. */
  function RowContacts(am: seq<AminoAcid>, i: nat, j: nat): nat
    requires i < |am| && j <= |am|
    decreases j
  {
    if j <= i + 1 then 0
    else RowContacts(am, i, j - 1) + (if InContact(am, i, j - 1) then 1 else 0)
  }

  /** Contacts (i', j') with i' < i. */
  function ContactsBefore(am: seq<AminoAcid>, i: nat): nat
    requires i <= |am|
  {
    if i == 0 then 0 else ContactsBefore(am, i - 1) + RowContacts(am, i - 1, |am|)
  }

  /** The number of HP contacts of a residue list. */
  function ContactCount(am: seq<AminoAcid>): nat
  {
    ContactsBefore(am, |am|)
  }

  /** The conformation with its energy recomputed. */
  function WithEnergy(c: Conformation): (r: Conformation)
    ensures r == c.(energy := r.energy)
    ensures r.energy == -(|ContactPairs(c.aminoList)| as int)
  {
    ContactCountIsPairs(c.aminoList);
    c.(energy := -(ContactCount(c.aminoList) as int))
  }

  /** Recomputes the energy with the double loop over pairs: minus the number
      of HP contacts, so never positive; positions, lattice and sequence are
      left as they are. */
  method EvaluateEnergy(c: Conformation) returns (r: Conformation)
    ensures r.energy == -(ContactCount(c.aminoList) as int) && r.energy <= 0
    ensures r.sequence == c.sequence && r.aminoList == c.aminoList && r.lattice == c.lattice
    ensures r == WithEnergy(c)
  {
    var am := c.aminoList;
    var energy := 0;
    for i := 0 to |am|
      invariant energy == -(ContactsBefore(am, i) as int)
    {
      for j := i + 1 to |am|
        invariant energy == -((ContactsBefore(am, i) + RowContacts(am, i, j)) as int)
      {
        if am[i].hpType == H && am[j].hpType == H
           && Manhattan(am[i].position, am[j].position) <= 1 && j - i > 1 {
          energy := energy - 1;
        }
      }
    }
    r := c.(energy := energy);
  }

  /** Energy depends on positions and classes alone, so evaluating it
      twice gives what evaluating it once gives. */
  lemma EnergyIdempotent(c: Conformation)
    ensures WithEnergy(WithEnergy(c)) == WithEnergy(c)
    ensures WithEnergy(c).energy <= 0
  {
  }

  /** The non-bonded HP contacts as a set of index pairs: the energy counts
      exactly these. */
  ghost function ContactPairs(am: seq<AminoAcid>): set<(nat, nat)>
  {
    set i: nat, j: nat | i < j < |am| && InContact(am, i, j) :: (i, j)
  }

  /** The contacts of residue i with residues before j. */
  ghost function RowPairs(am: seq<AminoAcid>, i: nat, j: nat): set<(nat, nat)>
    requires i < |am| && j <= |am|
  {
    set j': nat | i < j' < j && InContact(am, i, j') :: (i, j')
  }

  /** The contacts whose first residue comes before i. */
  ghost function PairsBefore(am: seq<AminoAcid>, i: nat): set<(nat, nat)>
    requires i <= |am|
  {
    set i': nat, j: nat | i' < i && i' < j < |am| && InContact(am, i', j) :: (i', j)
  }

  lemma {:induction false} RowContactsCount(am: seq<AminoAcid>, i: nat, j: nat)
    requires i < |am| && j <= |am|
    ensures RowContacts(am, i, j) == |RowPairs(am, i, j)|
    decreases j
  {
    if j <= i + 1 {
      assert RowPairs(am, i, j) == {};
    } else {
      RowContactsCount(am, i, j - 1);
      var added: set<(nat, nat)> := if InContact(am, i, j - 1) then {(i, j - 1)} else {};
      assert RowPairs(am, i, j) == RowPairs(am, i, j - 1) + added;
      assert (i, j - 1) !in RowPairs(am, i, j - 1);
    }
  }

  lemma {:induction false} ContactsBeforeCount(am: seq<AminoAcid>, i: nat)
    requires i <= |am|
    ensures ContactsBefore(am, i) == |PairsBefore(am, i)|
  {
    if i == 0 {
      assert PairsBefore(am, i) == {};
    } else {
      ContactsBeforeCount(am, i - 1);
      RowContactsCount(am, i - 1, |am|);
      PairsBeforeSplit(am, i);
    }
  }

  /** The contacts before i are those before i - 1 and, disjoint from them,
      the row of residue i - 1. */
  lemma PairsBeforeSplit(am: seq<AminoAcid>, i: nat)
    requires 0 < i <= |am|
    ensures PairsBefore(am, i) == PairsBefore(am, i - 1) + RowPairs(am, i - 1, |am|)
    ensures PairsBefore(am, i - 1) * RowPairs(am, i - 1, |am|) == {}
  {
    forall p | p in PairsBefore(am, i)
      ensures p in PairsBefore(am, i - 1) + RowPairs(am, i - 1, |am|)
    {
      if p.0 == i - 1 {
        assert p in RowPairs(am, i - 1, |am|);
      }
    }
  }

  /** The pairwise double loop counts every contact pair exactly once. */
  lemma ContactCountIsPairs(am: seq<AminoAcid>)
    ensures ContactCount(am) == |ContactPairs(am)|
  {
    ContactsBeforeCount(am, |am|);
    assert PairsBefore(am, |am|) == ContactPairs(am);
  }

  /** A chain with no hydrophobic residue has no contact. */
  lemma {:induction false} AllPolarNoContacts(am: seq<AminoAcid>)
    requires forall i :: 0 <= i < |am| ==> am[i].hpType == P
    ensures ContactCount(am) == 0
  {
    ContactCountIsPairs(am);
    assert ContactPairs(am) == {};
  }

  /** Along a lattice path the distance between residues i and j has the
      parity of j - i. */
  lemma {:induction false} ChainParity(c: Conformation, i: nat, j: nat)
    requires Connected(c) && i <= j < |c.aminoList|
    ensures Manhattan(c.aminoList[i].position, c.aminoList[j].position) % 2 == (j - i) % 2
    decreases j - i
  {
    if i < j {
      ChainParity(c, i, j - 1);
      assert Linked(c.aminoList, j);
      StepFlipsParity(c.aminoList[j - 1].position, c.aminoList[j].position, c.aminoList[i].position);
    }
  }

  /** In a valid conformation residues an even number of steps apart never
      touch, so only pairs with an odd index gap contribute to the energy. */
  lemma EvenGapNoContact(c: Conformation, i: nat, j: nat)
    requires Valid(c) && i < j < |c.aminoList| && (j - i) % 2 == 0
    ensures !InContact(c.aminoList, i, j)
  {
    ChainParity(c, i, j);
    ConsistentIsSelfAvoiding(c);
  }

  /** The constructor of a new conformation: residue list, bounded placement
      retry, then the energy. */
  function Construct(sequence: string, line: bool, attempts: seq<seq<nat>>): (r: Result<Conformation>)
    requires forall a :: a in attempts ==> |a| + 1 >= |sequence|
    ensures r.Ok? <==> exists k :: 0 <= k < |attempts| && Attempt(Unplaced(sequence), line, attempts[k]).Ok?
    ensures r.Err? ==> r.error == PlacementExhausted
    ensures r.Ok? ==> r.value.sequence == sequence && |r.value.aminoList| == |sequence| && r.value.energy <= 0
  {
    var placed :- Retry(Unplaced(sequence), line, attempts);
    Ok(WithEnergy(placed))
  }

  /** What the constructor delivers: a valid conformation of the given
      sequence carrying its own contact energy. */
  ghost predicate Built(c: Conformation, sequence: string)
  {
    Valid(c) && c.sequence == sequence && c.energy == -(ContactCount(c.aminoList) as int)
  }

  /** The energy plays no part in validity. */
  lemma EnergyKeepsValid(c: Conformation)
    requires Valid(c)
    ensures Valid(WithEnergy(c))
  {
    var r := WithEnergy(c);
    forall i | 0 <= i < |c.aminoList| ensures ResidueShape(r, i) && AtHome(r, i) {
      assert ResidueShape(c, i) && AtHome(c, i);
    }
    forall q | q in c.lattice ensures CellInRange(r, q) && OwnedBefore(r, q, |c.aminoList|) {
      assert CellInRange(c, q) && OwnedBefore(c, q, |c.aminoList|);
    }
    forall i | 1 <= i < |c.aminoList| ensures Linked(r.aminoList, i) {
      assert Linked(c.aminoList, i);
    }
  }

  /** A constructed conformation is valid, carries its own sequence and its
      fresh contact energy; a failure means every attempt hit a dead end. */
  lemma ConstructValid(sequence: string, line: bool, attempts: seq<seq<nat>>)
    requires forall a :: a in attempts ==> |a| + 1 >= |sequence|
    ensures Construct(sequence, line, attempts).Ok? ==> Built(Construct(sequence, line, attempts).value, sequence)
    ensures Construct(sequence, line, attempts).Err? ==> Construct(sequence, line, attempts).error == PlacementExhausted
  {
    var c := Unplaced(sequence);
    RetryValid(c, line, attempts);
    var placed := Retry(c, line, attempts);
    if placed.Ok? {
      EnergyKeepsValid(placed.value);
    }
  }

  /** In line mode a non-empty sequence is placed at the first attempt. */
  lemma LineConstructSucceeds(sequence: string, attempts: seq<seq<nat>>)
    requires forall a :: a in attempts ==> |a| + 1 >= |sequence|
    requires |sequence| > 0 && |attempts| > 0
    ensures Construct(sequence, true, attempts).Ok?
  {
    var c := Unplaced(sequence);
    assert attempts[0] in attempts;
    AttemptValid(c, true, attempts[0]);
    assert Attempts(c, true, attempts)[0].Ok?;
  }

  /** `Conformation(sequence, line=line)`: builds the residue list, retries
      placement until an attempt succeeds (at most once per draw sequence
      supplied) and evaluates the energy. */
  method NewConformation(sequence: string, line: bool, attempts: seq<seq<nat>>) returns (r: Result<Conformation>)
    requires forall a :: a in attempts ==> |a| + 1 >= |sequence|
    ensures r == Construct(sequence, line, attempts)
  {
    var aminoList := CreateAminoList(sequence);
    var c := Conformation(sequence, aminoList, map[], 0);
    assert c == Unplaced(sequence);
    ghost var rs := Attempts(c, line, attempts);
    var k := 0;
    while k < |attempts|
      invariant k <= |attempts|
      invariant FirstOk(rs) == FirstOk(rs[k..])
    {
      assert attempts[k] in attempts;
      var placed := AssignPositions(c, line, attempts[k]);
      FirstOkStep(rs, k);
      if placed.Ok? {
        var evaluated := EvaluateEnergy(placed.value);
        return Ok(evaluated);
      }
      k := k + 1;
    }
    return Err(PlacementExhausted);
  }
}
