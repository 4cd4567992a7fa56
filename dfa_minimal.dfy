/** Minimality of the corrected refinement of dfa-minimizer/src/dfa.ts: the
    corrected loop puts two declared states into one block exactly when no
    binary string tells them apart, so a machine whose states are pairwise
    distinguishable ends with one state per block. */
module DfaMinimal {
  import opened Seqs
  import opened Dfa
  import opened DfaPartition
  import opened DfaQuotient
  import opened DfaCorrected

  /** s leads q and r to states that disagree on acceptance. */
  ghost predicate Separates(d: Description, q: State, r: State, s: string) {
    && IsBinary(s) && RunDefined(d, q, s) && RunDefined(d, r, s)
    && (Run(d, q, s) in d.acceptStates) != (Run(d, r, s) in d.acceptStates)
  }

  /** Some binary string tells q and r apart. */
  ghost predicate Distinguishable(d: Description, q: State, r: State) {
    exists s :: Separates(d, q, r, s)
  }

  /** Declared states in different blocks of P are distinguishable. */
  ghost predicate Separated(d: Description, P: Partition) {
    forall q, r :: q in d.states && r in d.states && !SameBlock(P, q, r) ==> Distinguishable(d, q, r)
  }

  // ---------------------------------------------------------------------
  // A stable partition only joins equivalent states

  /** In a partition, sharing a block is transitive. */
  lemma SameBlockTrans(P: Partition, xs: seq<State>, x: State, y: State, z: State)
    requires IsPartition(P, xs) && SameBlock(P, x, y) && SameBlock(P, z, y)
    ensures SameBlock(P, x, z)
  {
    SameBlockOf(P, xs, x, y);
    SameBlockOf(P, xs, z, y);
    var k := BlockOf(P, x);
    assert x in P[k];
    assert z in P[BlockOf(P, z)];
  }

  /** In a partition, two states share a block exactly when BlockOf finds
      the same block for both. */
  lemma SameBlockIff(P: Partition, xs: seq<State>, q: State, r: State)
    requires IsPartition(P, xs) && q in xs && r in xs
    ensures SameBlock(P, q, r) <==> BlockOf(P, q) == BlockOf(P, r)
  {
    if SameBlock(P, q, r) {
      SameBlockOf(P, xs, q, r);
    }
    var k := BlockOf(P, q);
    assert q in P[k] && r in P[BlockOf(P, r)];
  }

  /** Two states sharing a block of a stable partition move, on each
      symbol, to states sharing a block. */
  lemma SameBlockStep(d: Description, P: Partition, q: State, r: State, c: char)
    requires IsPartition(P, d.states) && Stable(d, P) && SameBlock(P, q, r) && IsBit(c)
    ensures q in d.transitions && r in d.transitions
    ensures SameBlock(P, Transition(d, q, c), Transition(d, r, c))
  {
    var j :| 0 <= j < |P| && q in P[j] && r in P[j];
    var i := IndexOf(P[j], q);
    var i' := IndexOf(P[j], r);
    assert StableAt(d, P, j, i) && StableAt(d, P, j, i');
    var h := P[j][0];
    if c == '0' {
      SameBlockTrans(P, d.states, d.transitions[q].on0, d.transitions[h].on0, d.transitions[r].on0);
    } else {
      SameBlockTrans(P, d.states, d.transitions[q].on1, d.transitions[h].on1, d.transitions[r].on1);
    }
  }

  /** Two states sharing a block of a good partition agree on acceptance. */
  lemma SameBlockAccept(d: Description, P: Partition, q: State, r: State)
    requires Good(d, P) && SameBlock(P, q, r)
    ensures q in d.acceptStates <==> r in d.acceptStates
  {
    var j :| 0 <= j < |P| && q in P[j] && r in P[j];
    var i := IndexOf(P[j], q);
    var i' := IndexOf(P[j], r);
    assert P[j][i] in d.acceptStates <==> P[j][0] in d.acceptStates;
    assert P[j][i'] in d.acceptStates <==> P[j][0] in d.acceptStates;
  }

  /** Two states sharing a block of a good, stable partition accept the
      same binary strings. */
  lemma {:induction false} SameBlockSameRuns(d: Description, P: Partition, q: State, r: State, s: string)
    requires Good(d, P) && Stable(d, P) && SameBlock(P, q, r) && IsBinary(s)
    ensures RunDefined(d, q, s) && RunDefined(d, r, s)
    ensures Run(d, q, s) in d.acceptStates <==> Run(d, r, s) in d.acceptStates
    decreases |s|
  {
    if |s| == 0 {
      SameBlockAccept(d, P, q, r);
    } else {
      SameBlockStep(d, P, q, r, s[0]);
      assert IsBinary(s[1..]) by {
        forall i | 0 <= i < |s[1..]| ensures IsBit(s[1..][i]) {
          assert s[1..][i] == s[i + 1];
        }
      }
      SameBlockSameRuns(d, P, Transition(d, q, s[0]), Transition(d, r, s[0]), s[1..]);
    }
  }

  // ---------------------------------------------------------------------
  // The corrected rounds only split distinguishable states

  /** A string separating the c-targets of q and r, preceded by c,
      separates q and r. */
  lemma SeparatesPrefix(d: Description, q: State, r: State, c: char, s: string)
    requires q in d.transitions && r in d.transitions && IsBit(c)
    requires Separates(d, Transition(d, q, c), Transition(d, r, c), s)
    ensures Separates(d, q, r, [c] + s)
  {
    var w := [c] + s;
    assert w[0] == c && w[1..] == s;
    assert IsBinary(w) by {
      forall i | 0 <= i < |w| ensures IsBit(w[i]) {
        if i > 0 {
          assert w[i] == s[i - 1];
        }
      }
    }
  }

  /** The corrected initial partition joins states that agree on
      acceptance. */
  lemma InitialJoins(d: Description, q: State, r: State)
    requires Distinct(d.states) && q in d.states && r in d.states
    requires q in d.acceptStates <==> r in d.acceptStates
    ensures SameBlock(CorrectedInitial(d), q, r)
  {
    var P := CorrectedInitial(d);
    var acc, rej := Accepting(d.states, d.acceptStates), Rejecting(d.states, d.acceptStates);
    InitialBlocks(d);
    if q in d.acceptStates {
      assert q in acc && r in acc && P[0] == acc;
    } else {
      assert q in rej && r in rej;
      assert P[if |acc| > 0 then 1 else 0] == rej;
    }
  }

  /** The corrected initial partition separates accepting from rejecting
      states, which the empty string tells apart. */
  lemma SeparatedInitial(d: Description)
    requires Distinct(d.states)
    ensures Separated(d, CorrectedInitial(d))
  {
    forall q, r | q in d.states && r in d.states && !SameBlock(CorrectedInitial(d), q, r)
      ensures Distinguishable(d, q, r)
    {
      if q in d.acceptStates <==> r in d.acceptStates {
        InitialJoins(d, q, r);
      }
      assert Separates(d, q, r, "");
    }
  }

  /** A corrected round keeps declared states in different blocks
      distinguishable. */
  lemma SeparatedStep(d: Description, P: Partition)
    requires WellFormed(d) && IsPartition(P, d.states) && Separated(d, P)
    ensures Separated(d, CorrectedStep(d, P))
  {
    var Q := CorrectedStep(d, P);
    forall q, r | q in d.states && r in d.states && !SameBlock(Q, q, r)
      ensures Distinguishable(d, q, r)
    {
      StepSameBlock(d, P, q, r);
      SameBlockIff(Q, d.states, q, r);
      var t, u := d.transitions[q], d.transitions[r];
      SameBlockIff(P, d.states, q, r);
      SameBlockIff(P, d.states, t.on0, u.on0);
      SameBlockIff(P, d.states, t.on1, u.on1);
      if !SameBlock(P, t.on0, u.on0) {
        var s :| Separates(d, t.on0, u.on0, s);
        SeparatesPrefix(d, q, r, '0', s);
      } else if !SameBlock(P, t.on1, u.on1) {
        var s :| Separates(d, t.on1, u.on1, s);
        SeparatesPrefix(d, q, r, '1', s);
      }
    }
  }

  /** The invariant of the corrected loop used here. */
  ghost predicate GoodSeparated(d: Description, P: Partition) {
    Good(d, P) && Separated(d, P)
  }

  /** Corrected rounds keep partitions good and separated. */
  lemma StepsSeparated(d: Description)
    requires WellFormed(d)
    ensures forall X :: GoodSeparated(d, X) ==> GoodSeparated(d, CorrectedStep(d, X))
  {
    forall X | GoodSeparated(d, X)
      ensures GoodSeparated(d, CorrectedStep(d, X))
    {
      StepGood(d, X);
      SeparatedStep(d, X);
    }
  }

  /** The corrected loop after a round from a good, separated partition
      stops on a separated partition. */
  lemma RoundsSeparated(d: Description, P: Partition, fuel: nat)
    requires WellFormed(d) && GoodSeparated(d, P)
    requires Loop(RoundOf(d), P, CorrectedStep(d, P), fuel).Some?
    ensures Separated(d, Loop(RoundOf(d), P, CorrectedStep(d, P), fuel).value)
  {
    var inv: Partition -> bool := X => GoodSeparated(d, X);
    StepsSeparated(d);
    var R := LoopExit(RoundOf(d), inv, P, fuel);
    SeparatedStep(d, R);
  }

  /** The corrected loop started on a good, separated partition with a
      block stops on a separated partition. */
  lemma LoopSeparated(d: Description, P: Partition, fuel: nat)
    requires WellFormed(d) && GoodSeparated(d, P) && |P| > 0
    requires Loop(RoundOf(d), [], P, fuel).Some?
    ensures Separated(d, Loop(RoundOf(d), [], P, fuel).value)
  {
    RoundsSeparated(d, P, fuel - 1);
  }

  /** Whatever partition the corrected loop stops on is separated. */
  lemma SeparatedFinal(d: Description, fuel: nat)
    requires WellFormed(d) && CorrectedFinal(d, fuel).Some?
    ensures Separated(d, CorrectedFinal(d, fuel).value)
  {
    InitialNonEmpty(d);
    SeparatedInitial(d);
    CorrectedIsLoop(d, [], CorrectedInitial(d), fuel);
    LoopSeparated(d, CorrectedInitial(d), fuel);
  }

  // ---------------------------------------------------------------------
  // Minimality

  /** Two declared states share a block of the corrected loop's final
      partition exactly when no binary string tells them apart. */
  lemma CorrectedFinalBlocks(d: Description, fuel: nat, q: State, r: State)
    requires WellFormed(d) && CorrectedFinal(d, fuel).Some? && q in d.states && r in d.states
    ensures SameBlock(CorrectedFinal(d, fuel).value, q, r) <==> !Distinguishable(d, q, r)
  {
    var F := CorrectedFinal(d, fuel).value;
    CorrectedFinalGood(d, fuel);
    SeparatedFinal(d, fuel);
    if SameBlock(F, q, r) {
      forall s | IsBinary(s)
        ensures !Separates(d, q, r, s)
      {
        SameBlockSameRuns(d, F, q, r, s);
      }
    }
  }

  /** A machine whose declared states are pairwise distinguishable is
      already minimal: the corrected loop leaves every state in a block of
      its own. */
  lemma CorrectedFinalSingletons(d: Description, fuel: nat)
    requires WellFormed(d) && CorrectedFinal(d, fuel).Some?
    requires forall q, r :: q in d.states && r in d.states && q != r ==> Distinguishable(d, q, r)
    ensures forall k :: 0 <= k < |CorrectedFinal(d, fuel).value| ==> |CorrectedFinal(d, fuel).value[k]| == 1
  {
    var F := CorrectedFinal(d, fuel).value;
    CorrectedFinalGood(d, fuel);
    forall k | 0 <= k < |F|
      ensures |F[k]| == 1
    {
      if |F[k]| > 1 {
        var q, r := F[k][0], F[k][1];
        assert q in F[k] && r in F[k] && q != r;
        CorrectedFinalBlocks(d, fuel, q, r);
        assert false;
      }
    }
  }
}
