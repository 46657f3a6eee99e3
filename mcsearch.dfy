/** The Monte Carlo search: repeatedly pick a residue, pick one of its
    candidate moves and take it under the Metropolis criterion. The random
    generator is replaced by the values it would return, one `StepDraws`
    per step, and `exp` is a parameter. */
module McSearch {
  import opened Lattice
  import opened Amino
  import opened Conformations
  import opened Moves
  import opened Neighbourhood

  /** The Boltzmann constant in kcal/(mol K). */
  const Boltzmann: real := 0.0019872

  /** The values one step takes from the generator: the residue draw, the
      candidate draw and the acceptance threshold, a value in [0, 1). */
  datatype StepDraws = StepDraws(residue: nat, choice: nat, threshold: real)

  /** `rng.integers(low, high)`: a value in [low, high), selected by `draw`;
      an empty range raises. */
  function Integers(low: int, high: int, draw: nat): (r: Result<int>)
    ensures r.Err? <==> high <= low
    ensures r.Err? ==> r.error == EmptyRange
    ensures r.Ok? ==> low <= r.value < high
  {
    if high <= low then Err(EmptyRange) else Ok(low + draw % (high - low))
  }

  /** Every value of a non-empty range is drawn by some draw. */
  lemma IntegersCovers(low: int, high: int, v: int)
    requires low <= v < high
    ensures Integers(low, high, (v - low) as nat) == Ok(v)
  {
  }

  /** The candidate a step takes among m >= 1: the only one when m == 1,
      else `rng.integers(0, m - 1)`. */
  function ChoiceIndex(m: nat, draw: nat): (i: nat)
    requires m >= 1
    ensures i < m
  {
    if m == 1 then 0 else Integers(0, m - 1, draw).value
  }

  /** With two or more candidates the exclusive upper bound m - 1 keeps the
      last candidate out of reach; every other candidate can be taken. */
  lemma LastCandidateNeverChosen(m: nat, draw: nat)
    requires m >= 2
    ensures ChoiceIndex(m, draw) < m - 1
    ensures forall i :: 0 <= i < m - 1 ==> ChoiceIndex(m, i) == i
  {
  }

  /** The Metropolis criterion: a candidate that does not raise the energy
      is taken; one that does is taken when the threshold is below
      exp(-delta / (temp * Boltzmann)). */
  predicate Accepts(delta: int, threshold: real, temp: real, exp: real -> real)
    requires temp > 0.0
  {
    delta <= 0 || threshold < exp(-(delta as real) / (temp * Boltzmann))
  }

  /** One iteration of the search loop. */
  function McStep(c: Conformation, d: StepDraws, temp: real, exp: real -> real): (r: Result<Conformation>)
    requires |c.aminoList| == |c.sequence| && temp > 0.0
    ensures r == Err(EmptyRange) <==> |c.sequence| <= 1
    ensures r.Err? ==> r.error == EmptyRange || r.error == IndexError
    ensures r.Ok? ==> r.value.sequence == c.sequence && |r.value.aminoList| == |c.aminoList|
  {
    var residue :- Integers(0, |c.sequence| - 1, d.residue);
    var moves :- GetPossibleMoves(c, residue as nat);
    if |moves| == 0 then Ok(c)
    else
      var chosen := moves[ChoiceIndex(|moves|, d.choice)];
      assert SameShape(c, chosen);
      if Accepts(chosen.energy - c.energy, d.threshold, temp, exp) then Ok(WithEnergy(chosen))
      else Ok(c)
  }

  /** `nb_steps` iterations, one per element of `draws`; the first one that
      raises ends the search. */
  function McRun(c: Conformation, draws: seq<StepDraws>, temp: real, exp: real -> real): (r: Result<Conformation>)
    requires |c.aminoList| == |c.sequence| && temp > 0.0
    ensures r.Err? ==> r.error == EmptyRange || r.error == IndexError
    ensures r.Ok? ==> r.value.sequence == c.sequence && |r.value.aminoList| == |c.aminoList|
    decreases |draws|
  {
    if draws == [] then Ok(c)
    else
      var next :- McStep(c, draws[0], temp, exp);
      McRun(next, draws[1..], temp, exp)
  }

  /** `mc_search`: the loop of the source, statement by statement. */
  method McSearch(current: Conformation, nbSteps: nat, draws: seq<StepDraws>, temp: real, exp: real -> real)
    returns (r: Result<Conformation>)
    requires |current.aminoList| == |current.sequence| && temp > 0.0
    requires |draws| == nbSteps
    ensures r == McRun(current, draws, temp, exp)
  {
    var conf := current;
    var step := 0;
    while step < nbSteps
      invariant 0 <= step <= nbSteps
      invariant |conf.aminoList| == |conf.sequence|
      invariant McRun(current, draws, temp, exp) == McRun(conf, draws[step..], temp, exp)
    {
      var d := draws[step];
      ghost var expected := McStep(conf, d, temp, exp);
      McRunUnfold(conf, draws[step..], temp, exp);
      assert draws[step..][1..] == draws[step + 1..];
      var residue := Integers(0, |conf.sequence| - 1, d.residue);
      if residue.Err? {
        return Err(residue.error);
      }
      var moves := GetPossibleMoves(conf, residue.value as nat);
      if moves.Err? {
        return Err(moves.error);
      }
      var listMoves := moves.value;
      assert expected == Proposal(conf, d);
      if |listMoves| != 0 {
        var chosen := listMoves[ChoiceIndex(|listMoves|, d.choice)];
        assert SameShape(conf, chosen);
        assert expected == Ok(WithEnergy(chosen));
        var energyDelta := chosen.energy - conf.energy;
        var bound := exp(-(energyDelta as real) / (temp * Boltzmann));
        if energyDelta <= 0 {
          conf := EvaluateEnergy(chosen);
        } else if d.threshold < bound {
          conf := EvaluateEnergy(chosen);
        }
      }
      assert expected == Ok(conf);
      step := step + 1;
    }
    assert draws[step..] == [];
    r := Ok(conf);
  }

  /** One step of the run: the run raises when the step does, and goes on
      from the step's result otherwise. */
  lemma McRunUnfold(c: Conformation, draws: seq<StepDraws>, temp: real, exp: real -> real)
    requires |c.aminoList| == |c.sequence| && temp > 0.0 && draws != []
    ensures McStep(c, draws[0], temp, exp).Err? ==>
              McRun(c, draws, temp, exp) == Err(McStep(c, draws[0], temp, exp).error)
    ensures McStep(c, draws[0], temp, exp).Ok? ==>
              McRun(c, draws, temp, exp) == McRun(McStep(c, draws[0], temp, exp).value, draws[1..], temp, exp)
  {
  }

  // ---------------------------------------------------------------------
  // What a search does

  /** The step with the Metropolis test left out: the chosen candidate is
      always taken. */
  function Proposal(c: Conformation, d: StepDraws): (r: Result<Conformation>)
    requires |c.aminoList| == |c.sequence|
  {
    var residue :- Integers(0, |c.sequence| - 1, d.residue);
    var moves :- GetPossibleMoves(c, residue as nat);
    if |moves| == 0 then Ok(c) else Ok(WithEnergy(moves[ChoiceIndex(|moves|, d.choice)]))
  }

  /** Candidates carry the energy of the conformation they came from, so
      the energy difference is always zero and every proposal is taken,
      whatever the temperature, the threshold and `exp`. */
  lemma EveryProposalAccepted(c: Conformation, d: StepDraws, temp: real, exp: real -> real)
    requires |c.aminoList| == |c.sequence| && temp > 0.0
    ensures McStep(c, d, temp, exp) == Proposal(c, d)
  {
  }

  /** The energy a conformation carries is its contact energy. */
  ghost predicate Fresh(c: Conformation)
  {
    c.energy == -(ContactCount(c.aminoList) as int)
  }

  /** A search started from a conformation whose energy is up to date
      returns one whose energy is up to date, hence never positive. */
  lemma {:induction false} McRunKeepsFresh(c: Conformation, draws: seq<StepDraws>, temp: real, exp: real -> real)
    requires |c.aminoList| == |c.sequence| && temp > 0.0 && Fresh(c)
    ensures McRun(c, draws, temp, exp).Ok? ==> Fresh(McRun(c, draws, temp, exp).value)
    ensures McRun(c, draws, temp, exp).Ok? ==> McRun(c, draws, temp, exp).value.energy <= 0
    decreases |draws|
  {
    if draws != [] {
      var next := McStep(c, draws[0], temp, exp);
      if next.Ok? {
        McRunKeepsFresh(next.value, draws[1..], temp, exp);
      }
    }
  }

  /** A chain of at most one residue leaves `rng.integers` an empty range:
      any search of one step or more raises. */
  lemma {:induction false} ShortChainRaises(c: Conformation, draws: seq<StepDraws>, temp: real, exp: real -> real)
    requires |c.aminoList| == |c.sequence| && temp > 0.0
    requires |c.sequence| <= 1 && |draws| >= 1
    ensures McRun(c, draws, temp, exp) == Err(EmptyRange)
  {
    assert McStep(c, draws[0], temp, exp) == Err(EmptyRange);
  }

  /** With two residues or more, `rng.integers` always has a range to draw
      from, so the only error a search can raise is `IndexError`. */
  lemma {:induction false} LongChainRaisesIndexError(c: Conformation, draws: seq<StepDraws>, temp: real, exp: real -> real)
    requires |c.aminoList| == |c.sequence| && temp > 0.0
    requires |c.sequence| >= 2 || draws == []
    ensures McRun(c, draws, temp, exp).Err? ==> McRun(c, draws, temp, exp).error == IndexError
    decreases |draws|
  {
    if draws != [] {
      var step := McStep(c, draws[0], temp, exp);
      if step.Ok? {
        LongChainRaisesIndexError(step.value, draws[1..], temp, exp);
      }
    }
  }

  /** The energy plays no part in two residues sharing a cell. */
  lemma EnergyKeepsOverlapping(d: Conformation)
    requires Overlapping(d)
    ensures Overlapping(WithEnergy(d))
  {
    var r := WithEnergy(d);
    if Consistent(r) {
      forall i | 0 <= i < |d.aminoList| ensures AtHome(d, i) {
        assert AtHome(r, i);
      }
      forall q | q in d.lattice ensures OwnedBefore(d, q, |d.aminoList|) {
        assert OwnedBefore(r, q, |d.aminoList|);
      }
      assert Consistent(d);
    }
  }

  /** The residue draw never reaches the last residue, whose end moves
      would break the chain; so one step from a valid conformation gives a
      valid conformation or one with two residues on one cell. */
  lemma StepValidOrOverlapping(c: Conformation, d: StepDraws, temp: real, exp: real -> real)
    requires Valid(c) && |c.aminoList| == |c.sequence| && temp > 0.0
    ensures McStep(c, d, temp, exp).Ok? ==> ValidOrOverlapping(McStep(c, d, temp, exp).value)
  {
    EveryProposalAccepted(c, d, temp, exp);
    ProposalValidOrOverlapping(c, d);
  }

  lemma ProposalValidOrOverlapping(c: Conformation, d: StepDraws)
    requires Valid(c) && |c.aminoList| == |c.sequence|
    ensures Proposal(c, d).Ok? ==> ValidOrOverlapping(Proposal(c, d).value)
  {
    var residue := Integers(0, |c.sequence| - 1, d.residue);
    if residue.Ok? {
      var k := residue.value as nat;
      CandidatesValidOrOverlapping(c, k);
      var moves := GetPossibleMoves(c, k);
      if moves.Ok? {
        if |moves.value| > 0 {
          var chosen := moves.value[ChoiceIndex(|moves.value|, d.choice)];
          assert chosen in moves.value;
          EnergyKeepsValidOrOverlapping(chosen);
          assert Proposal(c, d) == Ok(WithEnergy(chosen));
        } else {
          assert Proposal(c, d) == Ok(c);
        }
      }
    }
  }

  lemma EnergyKeepsValidOrOverlapping(d: Conformation)
    requires ValidOrOverlapping(d)
    ensures ValidOrOverlapping(WithEnergy(d))
  {
    if Valid(d) {
      EnergyKeepsValid(d);
    } else {
      EnergyKeepsOverlapping(d);
    }
  }
}
