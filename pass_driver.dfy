/** The pass loop of the FMS driver (`main`): repeated passes of "select
    and lock every cell once, then commit the best prefix of moves".

    The partitioning engine that the loop calls (`select_cell`,
    `find_move_set`, `move_cells`, and the gain and bucket maintenance
    around them) is not part of this model.  Its answers are the three
    unconstrained functions of an `Oracles` value, so everything proved
    here holds whatever the engine returns: it is what the loop itself
    guarantees about its counters and about `cutsize`.
 */
module PassDriver {

  /** The engine's answers, indexed by pass number.
      - `feasible(pass, k)`: the `move_possible` flag `select_cell` returns
        at the `k`-th selection of the pass;
      - `gainSum(pass, msize)`: the best prefix gain `find_move_set` reports
        for the `msize` recorded moves;
      - `cutGain(pass, cutsize)`: the reduction `move_cells` reports when it
        commits that prefix to a partition of cut size `cutsize`. */
  datatype Oracles = Oracles(
    feasible: (nat, nat) -> bool,
    gainSum: (nat, nat) -> int,
    cutGain: (nat, int) -> int)

  /** What one pass did to the driver's counters. */
  datatype PassRecord = PassRecord(
    pass: nat,       // value of `no_iter` when the pass started
    locked: nat,     // `nlocked` at the end of the selection loop
    msize: nat,      // number of feasible moves recorded
    gainSum: int,    // best prefix gain of the pass
    cutBefore: int,  // `cutsize` when the pass started
    cutAfter: int)   // `cutsize` when the pass ended

  /** Number of times the `do … while (nlocked < nocells)` body runs:
      `nocells` times, and once when there are no cells at all. */
  function SelectionRounds(nocells: int): nat
  {
    if nocells <= 0 then 1 else nocells
  }

  /** Number of selections among the first `n` of a pass that were feasible. */
  function CountFeasible(o: Oracles, pass: nat, n: nat): nat
  {
    if n == 0 then 0
    else CountFeasible(o, pass, n - 1) + (if o.feasible(pass, n - 1) then 1 else 0)
  }

  /** One pass as a function of the cut size it starts from. */
  function RunPass(nocells: int, o: Oracles, pass: nat, cutsize: int): PassRecord
  {
    var locked := SelectionRounds(nocells);
    var msize := CountFeasible(o, pass, locked);
    var gain := o.gainSum(pass, msize);
    PassRecord(pass, locked, msize, gain, cutsize,
               if gain > 0 then cutsize - o.cutGain(pass, cutsize) else cutsize)
  }

  /** The outer loop's condition, read after pass `r` (which has already
      counted itself in `no_iter`). */
  predicate Continues(r: PassRecord, maxIterations: int)
  {
    r.gainSum > 0 && r.cutAfter > 0 && r.pass + 1 < maxIterations
  }

  /** The passes the outer `do … while` performs from pass number `pass` on. */
  function Trace(nocells: int, maxIterations: int, o: Oracles, pass: nat, cutsize: int): seq<PassRecord>
    decreases maxIterations - pass
  {
    var r := RunPass(nocells, o, pass, cutsize);
    if Continues(r, maxIterations) then [r] + Trace(nocells, maxIterations, o, pass + 1, r.cutAfter)
    else [r]
  }

  /** The driver's pass loop, with the engine abstracted. `initialCut` is the
      value `find_cut_size` gives before the first pass and `maxIterations`
      is the build constant `NO_ITERATIONS`. Returns the final `no_iter` and
      `cutsize`; `trace` records the passes for the specification. */
  method RunPasses(nocells: int, maxIterations: int, o: Oracles, initialCut: int)
    returns (noIter: int, cutsize: int, ghost trace: seq<PassRecord>)
    ensures trace == Trace(nocells, maxIterations, o, 0, initialCut)
    ensures noIter == |trace| && cutsize == trace[|trace| - 1].cutAfter
    ensures 1 <= noIter && (maxIterations >= 1 ==> noIter <= maxIterations)
  {
    noIter := 0;
    cutsize := initialCut;
    trace := [];
    while true
      invariant 0 <= noIter && (noIter > 0 ==> noIter < maxIterations)
      invariant |trace| == noIter
      invariant Trace(nocells, maxIterations, o, 0, initialCut) ==
                trace + Trace(nocells, maxIterations, o, noIter, cutsize)
      decreases maxIterations - noIter
    {
      // selection loop: every cell is selected and locked once
      var msize := 0;
      var nlocked := 0;
      while true
        invariant 0 <= nlocked < SelectionRounds(nocells)
        invariant msize == CountFeasible(o, noIter, nlocked)
        decreases SelectionRounds(nocells) - nlocked
      {
        var movePossible := o.feasible(noIter, nlocked);
        if movePossible {
          msize := msize + 1;
        }
        nlocked := nlocked + 1;
        if !(nlocked < nocells) {
          break;
        }
      }
      assert nlocked == SelectionRounds(nocells);

      // commit the best prefix only when it gains
      var gainSum := o.gainSum(noIter, msize);
      ghost var before := cutsize;
      if gainSum > 0 {
        var cutGain := o.cutGain(noIter, cutsize);
        cutsize := cutsize - cutGain;
      }
      ghost var r := PassRecord(noIter, nlocked, msize, gainSum, before, cutsize);
      assert r == RunPass(nocells, o, noIter, before);
      trace := trace + [r];
      noIter := noIter + 1;
      if !(gainSum > 0 && cutsize > 0 && noIter < maxIterations) {
        break;
      }
    }
    TraceLength(nocells, maxIterations, o, 0, initialCut);
  }

  /** Within a pass the number of recorded moves never exceeds the number of
      selections; it equals it exactly when every selection was feasible. */
  lemma {:induction false} CountFeasibleBound(o: Oracles, pass: nat, n: nat)
    ensures CountFeasible(o, pass, n) <= n
    ensures CountFeasible(o, pass, n) == n <==> forall k :: 0 <= k < n ==> o.feasible(pass, k)
    ensures CountFeasible(o, pass, n) == 0 <==> forall k :: 0 <= k < n ==> !o.feasible(pass, k)
  {
    if n > 0 {
      CountFeasibleBound(o, pass, n - 1);
    }
  }

  /** At least one pass runs; from pass `pass` on at most
      `maxIterations - pass` more run, so from the start at most
      `NO_ITERATIONS` (when it is at least 1). */
  lemma {:induction false} TraceLength(nocells: int, maxIterations: int, o: Oracles, pass: nat, cutsize: int)
    ensures 1 <= |Trace(nocells, maxIterations, o, pass, cutsize)|
    ensures pass < maxIterations ==> |Trace(nocells, maxIterations, o, pass, cutsize)| <= maxIterations - pass
    decreases maxIterations - pass
  {
    var r := RunPass(nocells, o, pass, cutsize);
    if Continues(r, maxIterations) {
      TraceLength(nocells, maxIterations, o, pass + 1, r.cutAfter);
    }
  }

  /** Each pass in the trace: its number, `nlocked` equal to the number of
      selection rounds, `msize` bounded by it, `cutsize` handed on from pass
      to pass and changed only when the pass gained, and then by exactly what
      `move_cells` reported. Every pass but the last satisfies the loop
      condition and the last one does not. */
  lemma {:induction false} TracePasses(nocells: int, maxIterations: int, o: Oracles, pass: nat, cutsize: int)
    ensures var t := Trace(nocells, maxIterations, o, pass, cutsize);
            |t| >= 1 && t[0].cutBefore == cutsize &&
            (forall k :: 0 <= k < |t| ==>
               t[k].pass == pass + k &&
               t[k].locked == SelectionRounds(nocells) &&
               t[k].msize == CountFeasible(o, pass + k, t[k].locked) &&
               t[k].msize <= t[k].locked &&
               t[k].gainSum == o.gainSum(pass + k, t[k].msize) &&
               (t[k].gainSum > 0 ==> t[k].cutAfter == t[k].cutBefore - o.cutGain(pass + k, t[k].cutBefore)) &&
               (t[k].gainSum <= 0 ==> t[k].cutAfter == t[k].cutBefore)) &&
            (forall k :: 0 <= k < |t| - 1 ==> Continues(t[k], maxIterations) && t[k + 1].cutBefore == t[k].cutAfter) &&
            !Continues(t[|t| - 1], maxIterations)
    decreases maxIterations - pass
  {
    var r := RunPass(nocells, o, pass, cutsize);
    CountFeasibleBound(o, pass, r.locked);
    if Continues(r, maxIterations) {
      TracePasses(nocells, maxIterations, o, pass + 1, r.cutAfter);
    }
  }

  /** A pass whose best prefix does not gain is the last one and leaves the
      cut size as it was: running the driver on a partition the engine
      cannot improve changes nothing. */
  lemma NoGainIsFinal(nocells: int, maxIterations: int, o: Oracles, pass: nat, cutsize: int)
    requires o.gainSum(pass, CountFeasible(o, pass, SelectionRounds(nocells))) <= 0
    ensures Trace(nocells, maxIterations, o, pass, cutsize) ==
              [PassRecord(pass, SelectionRounds(nocells), CountFeasible(o, pass, SelectionRounds(nocells)),
                          o.gainSum(pass, CountFeasible(o, pass, SelectionRounds(nocells))), cutsize, cutsize)]
  {
  }

  /** The total of what `move_cells` reported over the passes that gained. */
  function CommittedGain(t: seq<PassRecord>, o: Oracles): int
  {
    if t == [] then 0
    else (if t[0].gainSum > 0 then o.cutGain(t[0].pass, t[0].cutBefore) else 0) + CommittedGain(t[1..], o)
  }

  /** The final cut size is the initial one minus what `move_cells` reported
      for the passes that gained: no other step of the loop touches it. */
  lemma {:induction false} FinalCut(nocells: int, maxIterations: int, o: Oracles, pass: nat, cutsize: int)
    ensures var t := Trace(nocells, maxIterations, o, pass, cutsize);
            t[|t| - 1].cutAfter == cutsize - CommittedGain(t, o)
    decreases maxIterations - pass
  {
    var r := RunPass(nocells, o, pass, cutsize);
    var t := Trace(nocells, maxIterations, o, pass, cutsize);
    if Continues(r, maxIterations) {
      FinalCut(nocells, maxIterations, o, pass + 1, r.cutAfter);
      TraceLength(nocells, maxIterations, o, pass + 1, r.cutAfter);
      assert t[1..] == Trace(nocells, maxIterations, o, pass + 1, r.cutAfter);
    } else {
      assert t[1..] == [];
    }
  }

  /** `move_cells` reported no negative reduction for any pass of `t` that
      committed moves. */
  predicate CommitsNonNegative(t: seq<PassRecord>, o: Oracles)
  {
    forall k :: 0 <= k < |t| && t[k].gainSum > 0 ==> o.cutGain(t[k].pass, t[k].cutBefore) >= 0
  }

  /** When `move_cells` reports no negative reduction for the passes that
      commit, the cut size is non-increasing from pass to pass and the final
      one is at most the initial one. */
  lemma {:induction false} CutNonIncreasing(nocells: int, maxIterations: int, o: Oracles, pass: nat, cutsize: int)
    requires CommitsNonNegative(Trace(nocells, maxIterations, o, pass, cutsize), o)
    ensures var t := Trace(nocells, maxIterations, o, pass, cutsize);
            (forall k :: 0 <= k < |t| ==> t[k].cutAfter <= t[k].cutBefore <= cutsize) &&
            t[|t| - 1].cutAfter <= cutsize
    decreases maxIterations - pass
  {
    var r := RunPass(nocells, o, pass, cutsize);
    var t := Trace(nocells, maxIterations, o, pass, cutsize);
    assert t[0] == r;
    if Continues(r, maxIterations) {
      TraceLength(nocells, maxIterations, o, pass + 1, r.cutAfter);
      var t' := Trace(nocells, maxIterations, o, pass + 1, r.cutAfter);
      assert t == [r] + t';
      forall k | 0 <= k < |t'| && t'[k].gainSum > 0
        ensures o.cutGain(t'[k].pass, t'[k].cutBefore) >= 0
      {
        assert t'[k] == t[k + 1];
      }
      CutNonIncreasing(nocells, maxIterations, o, pass + 1, r.cutAfter);
      forall k | 0 <= k < |t|
        ensures t[k].cutAfter <= t[k].cutBefore <= cutsize
      {
        if k > 0 {
          assert t[k] == t'[k - 1];
        }
      }
    }
  }
}
