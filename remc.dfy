/** Replica exchange Monte Carlo: a ladder of replicas, one per
    temperature, each searched locally in turn, then neighbouring replicas
    exchanged, round after round until the lowest energy seen reaches the
    target or the round limit is hit. The generator is replaced by the
    values it would return: per round, one list of step draws per replica
    and one exchange threshold per slot. */
module Remc {
  import opened Lattice
  import opened Conformations
  import opened McSearch

  /** The number of temperatures of the ladder (`np.linspace`'s default). */
  const LadderSize: nat := 50

  /** The i-th of 50 evenly spaced temperatures from tMin to tMax. */
  function Linspace(tMin: real, tMax: real, i: nat): real
    requires i < LadderSize
  {
    tMin + (i as real) * ((tMax - tMin) / 49.0)
  }

  lemma LinspaceEnds(tMin: real, tMax: real)
    ensures Linspace(tMin, tMax, 0) == tMin
    ensures Linspace(tMin, tMax, LadderSize - 1) == tMax
  {
  }

  /** The ladder rises strictly from tMin to tMax. */
  lemma LinspaceIncreasing(tMin: real, tMax: real, i: nat, j: nat)
    requires tMin < tMax && i < j < LadderSize
    ensures Linspace(tMin, tMax, i) < Linspace(tMin, tMax, j)
  {
    var step := (tMax - tMin) / 49.0;
    assert Linspace(tMin, tMax, j) - Linspace(tMin, tMax, i) == ((j - i) as real) * step;
    assert ((j - i) as real) * step > 0.0;
  }

  /** Between two positive ends every temperature is positive. */
  lemma LinspacePositive(tMin: real, tMax: real, i: nat)
    requires 0.0 < tMin && 0.0 < tMax && i < LadderSize
    ensures Linspace(tMin, tMax, i) > 0.0
  {
    var step := (tMax - tMin) / 49.0;
    var w := i as real;
    if tMin <= tMax {
      ProductSign(w, step);
    } else {
      ProductSign(49.0 - w, -step);
      assert Linspace(tMin, tMax, i) == tMax - (49.0 - w) * step;
    }
  }

  lemma ProductSign(a: real, b: real)
    requires a >= 0.0 && b >= 0.0
    ensures a * b >= 0.0
  {
  }

  /** `array_t[i]`: the i-th temperature, IndexError past the ladder. */
  function Temperature(tMin: real, tMax: real, i: nat): (r: Result<real>)
    requires 0.0 < tMin && 0.0 < tMax
    ensures r.Err? <==> i >= LadderSize
    ensures r.Err? ==> r.error == IndexError
    ensures r.Ok? ==> r.value > 0.0
  {
    if i < LadderSize then
      LinspacePositive(tMin, tMax, i);
      Ok(Linspace(tMin, tMax, i))
    else Err(IndexError)
  }

  /** `np.argmin`: the first index holding the smallest value. */
  function Argmin(s: seq<int>): (i: nat)
    requires |s| > 0
    ensures i < |s|
    ensures forall j :: 0 <= j < |s| ==> s[i] <= s[j]
    ensures forall j :: 0 <= j < i ==> s[i] < s[j]
  {
    if |s| == 1 then 0
    else
      var k := Argmin(s[..|s| - 1]);
      if s[|s| - 1] < s[k] then |s| - 1 else k
  }

  /** `min` of the trackers: the smallest value, ValueError when empty. */
  function MinTracker(s: seq<int>): (r: Result<int>)
    ensures r.Err? <==> |s| == 0
    ensures r.Err? ==> r.error == EmptyLadder
    ensures r.Ok? ==> (forall j :: 0 <= j < |s| ==> r.value <= s[j]) && r.value in s
  {
    if |s| == 0 then Err(EmptyLadder) else Ok(s[Argmin(s)])
  }

  /** `min(current_energy_list)`, read slot by slot. */
  method MinOf(a: array<int>) returns (r: Result<int>)
    ensures r == MinTracker(a[..])
  {
    if a.Length == 0 {
      return Err(EmptyLadder);
    }
    var m := a[0];
    var i := 1;
    while i < a.Length
      invariant 1 <= i <= a.Length
      invariant m in a[..i]
      invariant forall j :: 0 <= j < i ==> m <= a[j]
    {
      if a[i] < m {
        m := a[i];
      }
      i := i + 1;
    }
    assert a[..i] == a[..];
    ghost var k := Argmin(a[..]);
    r := Ok(m);
  }

  // ---------------------------------------------------------------------
  // The local phase

  predicate Shaped(c: Conformation)
  {
    |c.aminoList| == |c.sequence|
  }

  ghost predicate AllShaped(reps: seq<Conformation>)
  {
    forall i :: 0 <= i < |reps| ==> Shaped(reps[i])
  }

  /** The tracker of a slot after its search: lowered to the new energy
      when that is strictly lower, else kept. */
  ghost predicate Lowered(before: int, after: int, energy: int)
  {
    after <= before && after <= energy && (after == before || after == energy)
  }

  /** The search of slot i at the slot's temperature, then its tracker. */
  function SlotSearch(rep: Conformation, tracker: int, i: nat, tMin: real, tMax: real,
                      draws: seq<StepDraws>, exp: real -> real): (r: Result<(Conformation, int)>)
    requires Shaped(rep) && 0.0 < tMin && 0.0 < tMax
    ensures i >= LadderSize ==> r == Err(IndexError)
    ensures r.Err? ==> r.error == IndexError || r.error == EmptyRange
    ensures r.Ok? ==> Shaped(r.value.0) && r.value.0.sequence == rep.sequence
    ensures r.Ok? ==> Lowered(tracker, r.value.1, r.value.0.energy)
  {
    var temp :- Temperature(tMin, tMax, i);
    var searched :- McRun(rep, draws, temp, exp);
    Ok((searched, if searched.energy < tracker then searched.energy else tracker))
  }

  /** The replicas and their trackers. */
  datatype Ladder = Ladder(replicas: seq<Conformation>, trackers: seq<int>)

  /** The slots from k on searched in order; the first search that raises
      ends the phase. */
  function LocalPhase(reps: seq<Conformation>, trackers: seq<int>, tMin: real, tMax: real,
                      local: seq<seq<StepDraws>>, exp: real -> real, k: nat): (r: Result<Ladder>)
    requires |trackers| == |reps| == |local| && k <= |reps| && AllShaped(reps)
    requires 0.0 < tMin && 0.0 < tMax
    ensures r.Err? ==> r.error == IndexError || r.error == EmptyRange
    ensures r.Ok? && k < |reps| ==> |reps| <= LadderSize
    ensures r.Ok? ==> |r.value.replicas| == |r.value.trackers| == |reps| && AllShaped(r.value.replicas)
    ensures r.Ok? ==> forall i :: 0 <= i < k ==> r.value.replicas[i] == reps[i] && r.value.trackers[i] == trackers[i]
    ensures r.Ok? ==> forall i :: k <= i < |reps| ==>
              r.value.replicas[i].sequence == reps[i].sequence && Lowered(trackers[i], r.value.trackers[i], r.value.replicas[i].energy)
    decreases |reps| - k
  {
    if k == |reps| then Ok(Ladder(reps, trackers))
    else
      var slot :- SlotSearch(reps[k], trackers[k], k, tMin, tMax, local[k], exp);
      LocalPhase(reps[k := slot.0], trackers[k := slot.1], tMin, tMax, local, exp, k + 1)
  }

  /** One slot of the local phase: the phase raises when the slot's
      search does, and goes on from the next slot otherwise. */
  lemma LocalPhaseUnfold(reps: seq<Conformation>, trackers: seq<int>, tMin: real, tMax: real,
                         local: seq<seq<StepDraws>>, exp: real -> real, k: nat)
    requires |trackers| == |reps| == |local| && k < |reps| && AllShaped(reps)
    requires 0.0 < tMin && 0.0 < tMax
    ensures SlotSearch(reps[k], trackers[k], k, tMin, tMax, local[k], exp).Err? ==>
              LocalPhase(reps, trackers, tMin, tMax, local, exp, k)
                == Err(SlotSearch(reps[k], trackers[k], k, tMin, tMax, local[k], exp).error)
    ensures SlotSearch(reps[k], trackers[k], k, tMin, tMax, local[k], exp).Ok? ==>
              var slot := SlotSearch(reps[k], trackers[k], k, tMin, tMax, local[k], exp).value;
              LocalPhase(reps, trackers, tMin, tMax, local, exp, k)
                == LocalPhase(reps[k := slot.0], trackers[k := slot.1], tMin, tMax, local, exp, k + 1)
  {
  }

  // ---------------------------------------------------------------------
  // The exchange phase

  /** The exchange criterion of slots i and i+1 at temperatures ti, tj
      with trackers ei, ej. */
  function ExchangeDelta(ti: real, tj: real, ei: int, ej: int): real
    requires ti > 0.0 && tj > 0.0
  {
    (1.0 / tj * Boltzmann - 1.0 / ti * Boltzmann) * ((ei - ej) as real)
  }

  /** A non-positive delta swaps; a positive one swaps when the threshold
      is at most exp(delta). */
  predicate Swaps(delta: real, q: real, exp: real -> real)
  {
    delta <= 0.0 || q <= exp(delta)
  }

  /** Slots i and i+1 exchanged. */
  function Swap(reps: seq<Conformation>, i: nat): (r: seq<Conformation>)
    requires i + 1 < |reps|
    ensures |r| == |reps|
    ensures r[i] == reps[i + 1] && r[i + 1] == reps[i]
    ensures forall j :: 0 <= j < |reps| && j != i && j != i + 1 ==> r[j] == reps[j]
  {
    reps[i := reps[i + 1]][i + 1 := reps[i]]
  }

  /** A swap moves replicas and loses none. */
  lemma SwapPermutes(reps: seq<Conformation>, i: nat)
    requires i + 1 < |reps|
    ensures multiset(Swap(reps, i)) == multiset(reps)
  {
    var r := Swap(reps, i);
    assert reps == reps[..i] + [reps[i], reps[i + 1]] + reps[i + 2..];
    assert r == reps[..i] + [reps[i + 1], reps[i]] + reps[i + 2..];
  }

  /** The pairs (repl, repl+1), (repl+2, repl+3), ... tried in order; the
      trackers stay with their slots. */
  function ExchangeFrom(reps: seq<Conformation>, trackers: seq<int>, tMin: real, tMax: real,
                        qs: seq<real>, exp: real -> real, repl: nat): (r: seq<Conformation>)
    requires |trackers| == |reps| == |qs| <= LadderSize && 0.0 < tMin && 0.0 < tMax
    ensures |r| == |reps|
    ensures forall i :: 0 <= i < repl && i < |reps| ==> r[i] == reps[i]
    decreases |reps| - repl
  {
    if repl + 1 >= |reps| then reps
    else
      var next := if PairSwaps(trackers, tMin, tMax, qs, exp, repl) then Swap(reps, repl) else reps;
      ExchangeFrom(next, trackers, tMin, tMax, qs, exp, repl + 2)
  }

  /** Whether the pair (repl, repl+1) is exchanged: the criterion at the
      two slots' temperatures and trackers, against the pair's threshold. */
  predicate PairSwaps(trackers: seq<int>, tMin: real, tMax: real, qs: seq<real>, exp: real -> real, repl: nat)
    requires repl + 1 < |trackers| <= LadderSize && |qs| == |trackers| && 0.0 < tMin && 0.0 < tMax
  {
    LinspacePositive(tMin, tMax, repl);
    LinspacePositive(tMin, tMax, repl + 1);
    var delta := ExchangeDelta(Linspace(tMin, tMax, repl), Linspace(tMin, tMax, repl + 1),
                               trackers[repl], trackers[repl + 1]);
    Swaps(delta, qs[repl], exp)
  }

  /** The exchange phase only permutes the replicas of the ladder. */
  lemma {:induction false} ExchangePermutes(reps: seq<Conformation>, trackers: seq<int>, tMin: real, tMax: real,
                                            qs: seq<real>, exp: real -> real, repl: nat)
    requires |trackers| == |reps| == |qs| <= LadderSize && 0.0 < tMin && 0.0 < tMax
    ensures multiset(ExchangeFrom(reps, trackers, tMin, tMax, qs, exp, repl)) == multiset(reps)
    decreases |reps| - repl
  {
    if repl + 1 < |reps| {
      ExchangeUnfold(reps, trackers, tMin, tMax, qs, exp, repl);
      if PairSwaps(trackers, tMin, tMax, qs, exp, repl) {
        SwapPermutes(reps, repl);
        ExchangePermutes(Swap(reps, repl), trackers, tMin, tMax, qs, exp, repl + 2);
      } else {
        ExchangePermutes(reps, trackers, tMin, tMax, qs, exp, repl + 2);
      }
    }
  }

  /** The slot whose replica slot i holds once every pair from `repl` on
      is exchanged. */
  function Mate(i: nat, repl: nat, n: nat): nat
  {
    if i < repl then i
    else if (i - repl) % 2 == 0 && i + 1 < n then i + 1
    else if (i - repl) % 2 == 1 then i - 1
    else i
  }

  /** Every pair from `repl` on exchanged. */
  function PairsSwapped(reps: seq<Conformation>, repl: nat): (r: seq<Conformation>)
    ensures |r| == |reps|
  {
    seq(|reps|, i requires 0 <= i < |reps| => reps[Mate(i, repl, |reps|)])
  }

  /** exp(x) exceeds 1 for every positive x, and every threshold lies in
      [0, 1). */
  ghost predicate ExpAboveOne(exp: real -> real)
  {
    forall x :: x > 0.0 ==> exp(x) > 1.0
  }

  ghost predicate Thresholds(qs: seq<real>)
  {
    forall i :: 0 <= i < |qs| ==> 0.0 <= qs[i] < 1.0
  }

  /** A positive delta is compared with exp(delta), which exceeds every
      threshold: every pair tried is exchanged, whatever the temperatures
      and the trackers. */
  lemma {:induction false} ExchangeAlwaysSwaps(reps: seq<Conformation>, trackers: seq<int>, tMin: real, tMax: real,
                                               qs: seq<real>, exp: real -> real, repl: nat)
    requires |trackers| == |reps| == |qs| <= LadderSize && 0.0 < tMin && 0.0 < tMax
    requires ExpAboveOne(exp) && Thresholds(qs)
    ensures ExchangeFrom(reps, trackers, tMin, tMax, qs, exp, repl) == PairsSwapped(reps, repl)
    decreases |reps| - repl
  {
    if repl + 1 >= |reps| {
      PairsSwappedDone(reps, repl);
    } else {
      var next := Swap(reps, repl);
      calc {
        ExchangeFrom(reps, trackers, tMin, tMax, qs, exp, repl);
        { ExchangeStep(reps, trackers, tMin, tMax, qs, exp, repl); }
        ExchangeFrom(next, trackers, tMin, tMax, qs, exp, repl + 2);
        { ExchangeAlwaysSwaps(next, trackers, tMin, tMax, qs, exp, repl + 2); }
        PairsSwapped(next, repl + 2);
        { PairsSwappedStep(reps, repl); }
        PairsSwapped(reps, repl);
      }
    }
  }

  /** Past the last pair nothing is exchanged. */
  lemma PairsSwappedDone(reps: seq<Conformation>, repl: nat)
    requires repl + 1 >= |reps|
    ensures PairsSwapped(reps, repl) == reps
  {
    assert forall i :: 0 <= i < |reps| ==> PairsSwapped(reps, repl)[i] == reps[i];
  }

  /** The first pair tried is exchanged. */
  lemma ExchangeStep(reps: seq<Conformation>, trackers: seq<int>, tMin: real, tMax: real,
                     qs: seq<real>, exp: real -> real, repl: nat)
    requires |trackers| == |reps| == |qs| <= LadderSize && 0.0 < tMin && 0.0 < tMax
    requires ExpAboveOne(exp) && Thresholds(qs) && repl + 1 < |reps|
    ensures ExchangeFrom(reps, trackers, tMin, tMax, qs, exp, repl)
         == ExchangeFrom(Swap(reps, repl), trackers, tMin, tMax, qs, exp, repl + 2)
  {
    LinspacePositive(tMin, tMax, repl);
    LinspacePositive(tMin, tMax, repl + 1);
    SwapsAlways(ExchangeDelta(Linspace(tMin, tMax, repl), Linspace(tMin, tMax, repl + 1),
                              trackers[repl], trackers[repl + 1]), qs[repl], exp);
    assert PairSwaps(trackers, tMin, tMax, qs, exp, repl);
    ExchangeUnfold(reps, trackers, tMin, tMax, qs, exp, repl);
  }

  lemma SwapsAlways(delta: real, q: real, exp: real -> real)
    requires ExpAboveOne(exp) && 0.0 <= q < 1.0
    ensures Swaps(delta, q, exp)
  {
    if delta > 0.0 {
      assert exp(delta) > 1.0;
    }
  }

  /** Exchanging the first pair, then every pair two further on, is
      exchanging every pair from the first. */
  lemma PairsSwappedStep(reps: seq<Conformation>, repl: nat)
    requires repl + 1 < |reps|
    ensures PairsSwapped(Swap(reps, repl), repl + 2) == PairsSwapped(reps, repl)
  {
    var next := Swap(reps, repl);
    forall i | 0 <= i < |reps| ensures PairsSwapped(next, repl + 2)[i] == PairsSwapped(reps, repl)[i] {
    }
  }

  // ---------------------------------------------------------------------
  // The rounds

  /** The generator's values for one round: the step draws of each slot's
      search and a threshold per slot for the exchanges. */
  datatype RoundDraws = RoundDraws(local: seq<seq<StepDraws>>, qs: seq<real>)

  /** The parameters of `remc` that stay fixed. */
  datatype Settings = Settings(localSteps: nat, stepLimit: nat, tMin: real, tMax: real, optimalEnergy: int)

  /** A round supplies every slot with `localSteps` draws and a threshold. */
  ghost predicate RoundFits(d: RoundDraws, n: nat, localSteps: nat)
  {
    |d.local| == n && |d.qs| == n && forall i :: 0 <= i < n ==> |d.local[i]| == localSteps
  }

  ghost predicate Supplies(rounds: seq<RoundDraws>, n: nat, s: Settings)
  {
    |rounds| >= s.stepLimit && forall k :: 0 <= k < |rounds| ==> RoundFits(rounds[k], n, s.localSteps)
  }

  ghost predicate Positive(s: Settings)
  {
    0.0 < s.tMin && 0.0 < s.tMax
  }

  /** The loop state: replicas, trackers, the parity of the first pair and
      the number of rounds done. */
  datatype State = State(replicas: seq<Conformation>, trackers: seq<int>, offset: nat, steps: nat)

  ghost predicate Running(st: State, s: Settings, rounds: seq<RoundDraws>)
  {
    && |st.trackers| == |st.replicas|
    && AllShaped(st.replicas)
    && st.steps <= s.stepLimit
    && st.offset == st.steps % 2
    && Positive(s)
    && Supplies(rounds, |st.replicas|, s)
  }

  /** One round: the local phase, then exchanges starting at `offset`,
      which then flips. */
  function Round(st: State, s: Settings, rounds: seq<RoundDraws>, exp: real -> real): (r: Result<State>)
    requires Running(st, s, rounds) && st.steps < s.stepLimit
    ensures r.Err? ==> r.error == IndexError || r.error == EmptyRange
    ensures r.Ok? ==> Running(r.value, s, rounds) && |r.value.replicas| == |st.replicas|
    ensures r.Ok? ==> r.value.steps == st.steps + 1
    ensures r.Ok? ==> forall i :: 0 <= i < |st.trackers| ==> r.value.trackers[i] <= st.trackers[i]
  {
    var d := rounds[st.steps];
    assert RoundFits(d, |st.replicas|, s.localSteps);
    var local :- LocalPhase(st.replicas, st.trackers, s.tMin, s.tMax, d.local, exp, 0);
    var swapped := ExchangeFrom(local.replicas, local.trackers, s.tMin, s.tMax, d.qs, exp, st.offset);
    ExchangePermutes(local.replicas, local.trackers, s.tMin, s.tMax, d.qs, exp, st.offset);
    assert AllShaped(swapped) by {
      forall i | 0 <= i < |swapped| ensures Shaped(swapped[i]) {
        assert swapped[i] in multiset(local.replicas);
      }
    }
    NextRound(st, s, rounds, swapped, local.trackers);
    Ok(State(swapped, local.trackers, 1 - st.offset, st.steps + 1))
  }

  /** A round raises when its local phase does, and otherwise is the
      exchange phase applied to the local phase's ladder. */
  lemma RoundUnfold(st: State, s: Settings, rounds: seq<RoundDraws>, exp: real -> real)
    requires Running(st, s, rounds) && st.steps < s.stepLimit
    ensures var d := rounds[st.steps];
            var local := LocalPhase(st.replicas, st.trackers, s.tMin, s.tMax, d.local, exp, 0);
            (local.Err? ==> Round(st, s, rounds, exp) == Err(local.error)) &&
            (local.Ok? ==>
               Round(st, s, rounds, exp) ==
               Ok(State(ExchangeFrom(local.value.replicas, local.value.trackers, s.tMin, s.tMax, d.qs, exp, st.offset),
                        local.value.trackers, 1 - st.offset, st.steps + 1)))
  {
  }

  /** The main loop: rounds while the lowest tracker is above the target
      and the round limit is not reached. */
  function RemcLoop(st: State, s: Settings, rounds: seq<RoundDraws>, exp: real -> real): (r: Result<State>)
    requires Running(st, s, rounds)
    ensures |st.replicas| == 0 ==> r == Err(EmptyLadder)
    ensures r.Err? ==> r.error == EmptyLadder || r.error == IndexError || r.error == EmptyRange
    ensures r.Ok? ==> Running(r.value, s, rounds) && |r.value.replicas| == |st.replicas| > 0
    decreases s.stepLimit - st.steps
  {
    var m :- MinTracker(st.trackers);
    if !(m > s.optimalEnergy && st.steps < s.stepLimit) then Ok(st)
    else
      var next :- Round(st, s, rounds, exp);
      RemcLoop(next, s, rounds, exp)
  }

  /** The loop stops before the round limit only once the lowest tracker
      has reached the target; trackers only ever go down. */
  lemma {:induction false} RemcLoopOutcome(st: State, s: Settings, rounds: seq<RoundDraws>, exp: real -> real)
    requires Running(st, s, rounds) && RemcLoop(st, s, rounds, exp).Ok?
    ensures st.steps <= RemcLoop(st, s, rounds, exp).value.steps
    ensures RemcLoop(st, s, rounds, exp).value.steps < s.stepLimit ==>
              MinTracker(RemcLoop(st, s, rounds, exp).value.trackers).value <= s.optimalEnergy
    ensures forall i :: 0 <= i < |st.trackers| ==> RemcLoop(st, s, rounds, exp).value.trackers[i] <= st.trackers[i]
    decreases s.stepLimit - st.steps
  {
    var m := MinTracker(st.trackers).value;
    if m > s.optimalEnergy && st.steps < s.stepLimit {
      RemcLoopOutcome(Round(st, s, rounds, exp).value, s, rounds, exp);
    }
  }

  /** A round keeps the loop state well-formed: the offset flips with the
      parity of the round count. */
  lemma NextRound(st: State, s: Settings, rounds: seq<RoundDraws>, reps: seq<Conformation>, trackers: seq<int>)
    requires Running(st, s, rounds) && st.steps < s.stepLimit
    requires |reps| == |trackers| == |st.replicas| && AllShaped(reps)
    ensures st.offset <= 1
    ensures Running(State(reps, trackers, 1 - st.offset, st.steps + 1), s, rounds)
  {
  }

  /** The start of the loop: every slot holds the start conformation and
      every tracker is zero. */
  function Start(start: Conformation, nbReplica: nat): State
  {
    State(seq(nbReplica, _ => start), seq(nbReplica, _ => 0), 0, 0)
  }

  /** `remc`: the replica of the slot whose tracker is lowest (the first
      such slot). */
  function Remc(start: Conformation, nbReplica: nat, s: Settings, rounds: seq<RoundDraws>, exp: real -> real): (r: Result<Conformation>)
    requires Shaped(start) && Positive(s) && Supplies(rounds, nbReplica, s)
    ensures nbReplica == 0 ==> r == Err(EmptyLadder)
    ensures r.Err? ==> r.error == EmptyLadder || r.error == IndexError || r.error == EmptyRange
    ensures r.Ok? ==> r.value.sequence == start.sequence && Shaped(r.value)
  {
    var final :- RemcLoop(Start(start, nbReplica), s, rounds, exp);
    RemcLoopKeepsSequence(Start(start, nbReplica), s, rounds, exp, start.sequence);
    Ok(final.replicas[Argmin(final.trackers)])
  }

  /** Every replica folds the sequence `sq`. */
  ghost predicate OfSequence(reps: seq<Conformation>, sq: string)
  {
    forall i :: 0 <= i < |reps| ==> reps[i].sequence == sq
  }

  /** Searches keep each replica's sequence and exchanges only move
      replicas between slots: a round keeps every replica on `sq`. */
  lemma RoundKeepsSequence(st: State, s: Settings, rounds: seq<RoundDraws>, exp: real -> real, sq: string)
    requires Running(st, s, rounds) && st.steps < s.stepLimit && OfSequence(st.replicas, sq)
    ensures Round(st, s, rounds, exp).Ok? ==> OfSequence(Round(st, s, rounds, exp).value.replicas, sq)
  {
    RoundUnfold(st, s, rounds, exp);
    var d := rounds[st.steps];
    assert RoundFits(d, |st.replicas|, s.localSteps);
    var local := LocalPhase(st.replicas, st.trackers, s.tMin, s.tMax, d.local, exp, 0);
    if local.Ok? {
      var reps := local.value.replicas;
      assert OfSequence(reps, sq);
      var swapped := ExchangeFrom(reps, local.value.trackers, s.tMin, s.tMax, d.qs, exp, st.offset);
      ExchangePermutes(reps, local.value.trackers, s.tMin, s.tMax, d.qs, exp, st.offset);
      forall i | 0 <= i < |swapped| ensures swapped[i].sequence == sq {
        assert swapped[i] in multiset(reps);
      }
    }
  }

  /** The loop keeps every replica on `sq`. */
  lemma {:induction false} RemcLoopKeepsSequence(st: State, s: Settings, rounds: seq<RoundDraws>, exp: real -> real, sq: string)
    requires Running(st, s, rounds) && OfSequence(st.replicas, sq)
    ensures RemcLoop(st, s, rounds, exp).Ok? ==> OfSequence(RemcLoop(st, s, rounds, exp).value.replicas, sq)
    decreases s.stepLimit - st.steps
  {
    var m := MinTracker(st.trackers);
    if m.Ok? && m.value > s.optimalEnergy && st.steps < s.stepLimit {
      RoundKeepsSequence(st, s, rounds, exp, sq);
      var next := Round(st, s, rounds, exp);
      if next.Ok? {
        RemcLoopKeepsSequence(next.value, s, rounds, exp, sq);
      }
    }
  }

  /** One turn of the loop whose condition holds: the run raises when the
      round does and goes on from the round's state otherwise. */
  lemma RemcLoopUnfold(st: State, s: Settings, rounds: seq<RoundDraws>, exp: real -> real)
    requires Running(st, s, rounds) && MinTracker(st.trackers).Ok?
    requires MinTracker(st.trackers).value > s.optimalEnergy && st.steps < s.stepLimit
    ensures Round(st, s, rounds, exp).Err? ==>
              RemcLoop(st, s, rounds, exp) == Err(Round(st, s, rounds, exp).error)
    ensures Round(st, s, rounds, exp).Ok? ==>
              RemcLoop(st, s, rounds, exp) == RemcLoop(Round(st, s, rounds, exp).value, s, rounds, exp)
  {
  }

  // ---------------------------------------------------------------------
  // The search on arrays

  /** The local phase on the replica and tracker arrays, slot by slot. */
  method LocalSearch(replicas: array<Conformation>, trackers: array<int>, s: Settings,
                     local: seq<seq<StepDraws>>, exp: real -> real) returns (err: Option<Error>)
    requires replicas.Length == trackers.Length == |local| && AllShaped(replicas[..]) && Positive(s)
    requires forall i :: 0 <= i < |local| ==> |local[i]| == s.localSteps
    modifies replicas, trackers
    ensures LocalPhase(old(replicas[..]), old(trackers[..]), s.tMin, s.tMax, local, exp, 0).Err? ==>
              err == Some(LocalPhase(old(replicas[..]), old(trackers[..]), s.tMin, s.tMax, local, exp, 0).error)
    ensures LocalPhase(old(replicas[..]), old(trackers[..]), s.tMin, s.tMax, local, exp, 0).Ok? ==>
              err.None? && Ladder(replicas[..], trackers[..]) == LocalPhase(old(replicas[..]), old(trackers[..]), s.tMin, s.tMax, local, exp, 0).value
  {
    ghost var spec := LocalPhase(replicas[..], trackers[..], s.tMin, s.tMax, local, exp, 0);
    var i := 0;
    while i < replicas.Length
      invariant 0 <= i <= replicas.Length
      invariant AllShaped(replicas[..])
      invariant spec == LocalPhase(replicas[..], trackers[..], s.tMin, s.tMax, local, exp, i)
    {
      ghost var reps, trs := replicas[..], trackers[..];
      LocalPhaseUnfold(reps, trs, s.tMin, s.tMax, local, exp, i);
      ghost var slot := SlotSearch(reps[i], trs[i], i, s.tMin, s.tMax, local[i], exp);
      var temp := Temperature(s.tMin, s.tMax, i);
      if temp.Err? {
        return Some(temp.error);
      }
      var searched := McSearch.McSearch(replicas[i], s.localSteps, local[i], temp.value, exp);
      if searched.Err? {
        return Some(searched.error);
      }
      replicas[i] := searched.value;
      if searched.value.energy < trackers[i] {
        trackers[i] := searched.value.energy;
      }
      assert slot == Ok((replicas[i], trackers[i]));
      assert replicas[..] == reps[i := slot.value.0];
      assert trackers[..] == trs[i := slot.value.1];
      i := i + 1;
    }
    return None;
  }

  /** The exchange phase on the replica array, pair by pair. */
  method ExchangePhase(replicas: array<Conformation>, trackers: array<int>, s: Settings,
                       qs: seq<real>, exp: real -> real, offset: nat)
    requires replicas.Length == trackers.Length == |qs| <= LadderSize && Positive(s)
    modifies replicas
    ensures replicas[..] == ExchangeFrom(old(replicas[..]), trackers[..], s.tMin, s.tMax, qs, exp, offset)
  {
    ghost var spec := ExchangeFrom(replicas[..], trackers[..], s.tMin, s.tMax, qs, exp, offset);
    var repl := offset;
    while repl < replicas.Length - 1
      invariant spec == ExchangeFrom(replicas[..], trackers[..], s.tMin, s.tMax, qs, exp, repl)
      decreases replicas.Length - repl
    {
      var nexRepl := repl + 1;
      LinspacePositive(s.tMin, s.tMax, repl);
      LinspacePositive(s.tMin, s.tMax, nexRepl);
      var deltaEner := ExchangeDelta(Linspace(s.tMin, s.tMax, repl), Linspace(s.tMin, s.tMax, nexRepl),
                                     trackers[repl], trackers[nexRepl]);
      ExchangeUnfold(replicas[..], trackers[..], s.tMin, s.tMax, qs, exp, repl);
      if deltaEner <= 0.0 {
        SwapSlots(replicas, repl);
      } else {
        var q := qs[repl];
        if q <= exp(deltaEner) {
          SwapSlots(replicas, repl);
        }
      }
      repl := repl + 2;
    }
  }

  /** The replicas of slots i and i+1 exchanged through a temporary. */
  method SwapSlots(replicas: array<Conformation>, i: nat)
    requires i + 1 < replicas.Length
    modifies replicas
    ensures replicas[..] == Swap(old(replicas[..]), i)
  {
    var tmpRepl := replicas[i];
    replicas[i] := replicas[i + 1];
    replicas[i + 1] := tmpRepl;
  }

  /** One pair of the exchange phase: the pair at `repl` is exchanged or
      not, and the phase goes on two slots further. */
  lemma ExchangeUnfold(reps: seq<Conformation>, trackers: seq<int>, tMin: real, tMax: real,
                       qs: seq<real>, exp: real -> real, repl: nat)
    requires |trackers| == |reps| == |qs| <= LadderSize && 0.0 < tMin && 0.0 < tMax && repl + 1 < |reps|
    ensures PairSwaps(trackers, tMin, tMax, qs, exp, repl) ==>
              ExchangeFrom(reps, trackers, tMin, tMax, qs, exp, repl)
                == ExchangeFrom(Swap(reps, repl), trackers, tMin, tMax, qs, exp, repl + 2)
    ensures !PairSwaps(trackers, tMin, tMax, qs, exp, repl) ==>
              ExchangeFrom(reps, trackers, tMin, tMax, qs, exp, repl)
                == ExchangeFrom(reps, trackers, tMin, tMax, qs, exp, repl + 2)
  {
  }

  /** One round on the arrays: the local phase, then the exchange phase. */
  method RemcRound(replicas: array<Conformation>, trackers: array<int>, s: Settings, rounds: seq<RoundDraws>,
                   exp: real -> real, offset: nat, steps: nat) returns (err: Option<Error>)
    requires replicas.Length == trackers.Length
    requires Running(State(replicas[..], trackers[..], offset, steps), s, rounds) && steps < s.stepLimit
    modifies replicas, trackers
    ensures Round(State(old(replicas[..]), old(trackers[..]), offset, steps), s, rounds, exp).Err? ==>
              err == Some(Round(State(old(replicas[..]), old(trackers[..]), offset, steps), s, rounds, exp).error)
    ensures Round(State(old(replicas[..]), old(trackers[..]), offset, steps), s, rounds, exp).Ok? ==>
              err.None? &&
              Round(State(old(replicas[..]), old(trackers[..]), offset, steps), s, rounds, exp).value
                == State(replicas[..], trackers[..], 1 - offset, steps + 1)
  {
    ghost var st := State(replicas[..], trackers[..], offset, steps);
    RoundUnfold(st, s, rounds, exp);
    var d := rounds[steps];
    assert RoundFits(d, replicas.Length, s.localSteps);
    err := LocalSearch(replicas, trackers, s, d.local, exp);
    if err.None? {
      ExchangePhase(replicas, trackers, s, d.qs, exp, offset);
    }
  }

  /** `remc` on arrays: the ladder filled with the start conformation,
      the rounds, and the replica of the slot with the lowest tracker. */
  method RemcSearch(start: Conformation, nbReplica: nat, s: Settings, rounds: seq<RoundDraws>, exp: real -> real)
    returns (r: Result<Conformation>)
    requires Shaped(start) && Positive(s) && Supplies(rounds, nbReplica, s)
    ensures r == Remc(start, nbReplica, s, rounds, exp)
  {
    var trackers := new int[nbReplica](_ => 0);
    var replicas := new Conformation[nbReplica](_ => start);
    assert replicas[..] == Start(start, nbReplica).replicas;
    assert trackers[..] == Start(start, nbReplica).trackers;
    var err := RemcRounds(replicas, trackers, s, rounds, exp);
    if err.Some? {
      return Err(err.value);
    }
    r := Ok(replicas[Argmin(trackers[..])]);
  }

  /** The `while` loop of `remc` on the two arrays, from round 0. */
  method RemcRounds(replicas: array<Conformation>, trackers: array<int>, s: Settings,
                    rounds: seq<RoundDraws>, exp: real -> real) returns (err: Option<Error>)
    requires replicas.Length == trackers.Length
    requires Running(State(replicas[..], trackers[..], 0, 0), s, rounds)
    modifies replicas, trackers
    ensures RemcLoop(State(old(replicas[..]), old(trackers[..]), 0, 0), s, rounds, exp).Err? ==>
              err == Some(RemcLoop(State(old(replicas[..]), old(trackers[..]), 0, 0), s, rounds, exp).error)
    ensures RemcLoop(State(old(replicas[..]), old(trackers[..]), 0, 0), s, rounds, exp).Ok? ==>
              err.None? &&
              RemcLoop(State(old(replicas[..]), old(trackers[..]), 0, 0), s, rounds, exp).value.replicas == replicas[..] &&
              RemcLoop(State(old(replicas[..]), old(trackers[..]), 0, 0), s, rounds, exp).value.trackers == trackers[..]
  {
    var offset: nat := 0;
    var globalSteps: nat := 0;
    ghost var spec := RemcLoop(State(replicas[..], trackers[..], 0, 0), s, rounds, exp);
    while true
      invariant Running(State(replicas[..], trackers[..], offset, globalSteps), s, rounds)
      invariant spec == RemcLoop(State(replicas[..], trackers[..], offset, globalSteps), s, rounds, exp)
      decreases s.stepLimit - globalSteps
    {
      ghost var st := State(replicas[..], trackers[..], offset, globalSteps);
      var m := MinOf(trackers);
      if m.Err? {
        return Some(m.error);
      }
      if !(m.value > s.optimalEnergy && globalSteps < s.stepLimit) {
        return None;
      }
      RemcLoopUnfold(st, s, rounds, exp);
      err := RemcRound(replicas, trackers, s, rounds, exp, offset, globalSteps);
      if err.Some? {
        return;
      }
      offset := 1 - offset;
      globalSteps := globalSteps + 1;
    }
  }

  // ---------------------------------------------------------------------
  // What the search returns

  /** A target at or above zero is met by the zero trackers before any
      round: the start conformation comes back untouched. */
  lemma TargetMetAtStart(start: Conformation, nbReplica: nat, s: Settings, rounds: seq<RoundDraws>, exp: real -> real)
    requires Shaped(start) && Positive(s) && Supplies(rounds, nbReplica, s)
    requires nbReplica > 0 && s.optimalEnergy >= 0
    ensures Remc(start, nbReplica, s, rounds, exp) == Ok(start)
  {
    var st := Start(start, nbReplica);
    assert st.trackers[0] == 0;
    assert MinTracker(st.trackers).value == 0;
  }

  /** A ladder without slots raises at the first `min`. */
  lemma EmptyLadderRaises(start: Conformation, s: Settings, rounds: seq<RoundDraws>, exp: real -> real)
    requires Shaped(start) && Positive(s) && Supplies(rounds, 0, s)
    ensures Remc(start, 0, s, rounds, exp) == Err(EmptyLadder)
  {
  }

  /** More replicas than temperatures: the first round that runs reaches
      `array_t[50]` (unless a search raises before it), so the search
      never returns. */
  lemma LadderTooLong(start: Conformation, nbReplica: nat, s: Settings, rounds: seq<RoundDraws>, exp: real -> real)
    requires Shaped(start) && Positive(s) && Supplies(rounds, nbReplica, s)
    requires nbReplica > LadderSize && s.stepLimit > 0 && s.optimalEnergy < 0
    ensures Remc(start, nbReplica, s, rounds, exp).Err?
    ensures Remc(start, nbReplica, s, rounds, exp).error == IndexError || Remc(start, nbReplica, s, rounds, exp).error == EmptyRange
    ensures |start.sequence| >= 2 || s.localSteps == 0 ==> Remc(start, nbReplica, s, rounds, exp).error == IndexError
  {
    var st := Start(start, nbReplica);
    assert st.trackers[0] == 0;
    assert MinTracker(st.trackers).value == 0;
    assert Round(st, s, rounds, exp).Err?;
    if |start.sequence| >= 2 || s.localSteps == 0 {
      var d := rounds[0];
      assert RoundFits(d, nbReplica, s.localSteps);
      LocalPhaseIndexError(st.replicas, st.trackers, s.tMin, s.tMax, d.local, exp, 0, start.sequence);
      RoundUnfold(st, s, rounds, exp);
    }
  }

  /** When every slot from k on searches a chain of two residues or more,
      or does not search at all, the local phase can only raise
      `IndexError`. */
  lemma {:induction false} LocalPhaseIndexError(reps: seq<Conformation>, trackers: seq<int>, tMin: real, tMax: real,
                                                local: seq<seq<StepDraws>>, exp: real -> real, k: nat, sq: string)
    requires |trackers| == |reps| == |local| && k <= |reps| && AllShaped(reps)
    requires 0.0 < tMin && 0.0 < tMax && OfSequence(reps, sq)
    requires forall i :: k <= i < |reps| ==> |sq| >= 2 || local[i] == []
    ensures LocalPhase(reps, trackers, tMin, tMax, local, exp, k).Err? ==>
              LocalPhase(reps, trackers, tMin, tMax, local, exp, k).error == IndexError
    decreases |reps| - k
  {
    if k < |reps| {
      LocalPhaseUnfold(reps, trackers, tMin, tMax, local, exp, k);
      var slot := SlotSearch(reps[k], trackers[k], k, tMin, tMax, local[k], exp);
      var temp := Temperature(tMin, tMax, k);
      if temp.Ok? {
        LongChainRaisesIndexError(reps[k], local[k], temp.value, exp);
      }
      if slot.Ok? {
        LocalPhaseIndexError(reps[k := slot.value.0], trackers[k := slot.value.1], tMin, tMax, local, exp, k + 1, sq);
      }
    }
  }

  /** Every tracker of the returned ladder is at most zero, and below the
      round limit the lowest one has reached the target. */
  lemma RemcTrackers(start: Conformation, nbReplica: nat, s: Settings, rounds: seq<RoundDraws>, exp: real -> real)
    requires Shaped(start) && Positive(s) && Supplies(rounds, nbReplica, s)
    requires RemcLoop(Start(start, nbReplica), s, rounds, exp).Ok?
    ensures forall i :: 0 <= i < nbReplica ==> RemcLoop(Start(start, nbReplica), s, rounds, exp).value.trackers[i] <= 0
    ensures RemcLoop(Start(start, nbReplica), s, rounds, exp).value.steps < s.stepLimit ==>
              MinTracker(RemcLoop(Start(start, nbReplica), s, rounds, exp).value.trackers).value <= s.optimalEnergy
  {
    RemcLoopOutcome(Start(start, nbReplica), s, rounds, exp);
  }

  /** Trackers stay with their slots while replicas move: on a two-slot
      ladder whose slot 0 tracked the lower energy, the exchange moves the
      other replica into slot 0, the slot `argmin` then picks. */
  lemma TrackersStayBehind(a: Conformation, b: Conformation, ea: int, eb: int,
                           tMin: real, tMax: real, qs: seq<real>, exp: real -> real)
    requires ea < eb && 0.0 < tMin && 0.0 < tMax && |qs| == 2
    requires ExpAboveOne(exp) && Thresholds(qs)
    ensures ExchangeFrom([a, b], [ea, eb], tMin, tMax, qs, exp, 0) == [b, a]
    ensures Argmin([ea, eb]) == 0
  {
    ExchangeAlwaysSwaps([a, b], [ea, eb], tMin, tMax, qs, exp, 0);
    assert PairsSwapped([a, b], 0)[0] == b;
    assert PairsSwapped([a, b], 0)[1] == a;
  }
}
