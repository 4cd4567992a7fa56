/** The refinement `minimize` in dfa-minimizer/src/dfa.ts evidently intends:
    Moore's algorithm, whose signature of a state starts with the block of
    the state itself and whose initial partition splits the declared states
    into accepting and rejecting ones, keeping only non-empty blocks. With
    that signature the loop's stopping rule (equal block counts) is sound,
    the loop always stops, and the quotient accepts the language of the
    original machine. */
module DfaCorrected {
  import opened Seqs
  import opened Dfa
  import opened DfaPartition
  import opened DfaQuotient

  /** The states of xs that are accept states, in the order of xs. */
  function Accepting(xs: seq<State>, accept: seq<State>): seq<State>
    decreases |xs|
  {
    if |xs| == 0 then []
    else Accepting(xs[..|xs| - 1], accept) + (if xs[|xs| - 1] in accept then [xs[|xs| - 1]] else [])
  }

  /** The declared accepting states, then the declared rejecting states,
      each block present only when non-empty. */
  function CorrectedInitial(d: Description): Partition {
    var acc, rej := Accepting(d.states, d.acceptStates), Rejecting(d.states, d.acceptStates);
    (if |acc| > 0 then [acc] else []) + (if |rej| > 0 then [rej] else [])
  }

  /** The block of the state itself, then the blocks of its targets. */
  function OwnSigOf(d: Description, P: Partition, q: State): seq<nat> {
    Occurrences(P, q) + SigOf(d, P, q)
  }

  function OwnSigsOf(d: Description, P: Partition, xs: seq<State>): seq<seq<nat>> {
    seq(|xs|, i requires 0 <= i < |xs| => OwnSigOf(d, P, xs[i]))
  }

  /** One round with the corrected signature. */
  function CorrectedStep(d: Description, P: Partition): Partition {
    GroupBy(d.states, OwnSigsOf(d, P, d.states))
  }

  /** The `while` loop of `minimize` with the corrected round. */
  function CorrectedRefinement(d: Description, previous: Partition, current: Partition, fuel: nat): Option<Partition>
    decreases fuel
  {
    if |previous| == |current| then Some(current)
    else if fuel == 0 then None
    else CorrectedRefinement(d, current, CorrectedStep(d, current), fuel - 1)
  }

  function CorrectedFinal(d: Description, fuel: nat): Option<Partition> {
    CorrectedRefinement(d, [], CorrectedInitial(d), fuel)
  }

  /** A partition of the declared states into non-empty blocks, each block
      either wholly accepting or wholly rejecting. */
  ghost predicate Good(d: Description, P: Partition) {
    IsPartition(P, d.states) && NonEmptyBlocks(P) && RespectsAcceptance(d, P)
  }

  /** `minimize` with the corrected refinement. */
  function CorrectedMinimized(d: Description, fuel: nat): Option<Description>
    requires WellFormed(d)
  {
    match CorrectedFinal(d, fuel)
    case None => None
    case Some(P) =>
      CorrectedFinalGood(d, fuel);
      PartitionQuotientDefined(d, P);
      Some(Quotient(d, P))
  }

  // ---------------------------------------------------------------------
  // The initial partition

  lemma {:induction false} AcceptingMember(xs: seq<State>, accept: seq<State>, q: State)
    ensures q in Accepting(xs, accept) <==> q in xs && q in accept
    decreases |xs|
  {
    if |xs| > 0 {
      var init := xs[..|xs| - 1];
      assert xs == init + [xs[|xs| - 1]];
      AcceptingMember(init, accept, q);
    }
  }

  lemma {:induction false} AcceptingInOrder(xs: seq<State>, accept: seq<State>)
    requires Distinct(xs)
    ensures InOrder(xs, Accepting(xs, accept))
    decreases |xs|
  {
    if |xs| == 0 {
      assert Accepting(xs, accept) == [];
    } else {
      var init, x := xs[..|xs| - 1], xs[|xs| - 1];
      assert xs == init + [x];
      assert Distinct(init);
      AcceptingInOrder(init, accept);
      InOrderSnoc(init, x, Accepting(init, accept));
    }
  }

  /** The accepting and the rejecting declared states: each block lists
      its states once, and every declared state is in exactly one. */
  lemma InitialBlocks(d: Description)
    requires Distinct(d.states)
    ensures Distinct(Accepting(d.states, d.acceptStates)) && Distinct(Rejecting(d.states, d.acceptStates))
    ensures forall q :: q in Accepting(d.states, d.acceptStates) <==> q in d.states && q in d.acceptStates
    ensures forall q :: q in Rejecting(d.states, d.acceptStates) <==> q in d.states && q !in d.acceptStates
  {
    var acc, rej := Accepting(d.states, d.acceptStates), Rejecting(d.states, d.acceptStates);
    AcceptingInOrder(d.states, d.acceptStates);
    RejectingInOrder(d.states, d.acceptStates);
    InOrderDistinct(d.states, acc);
    InOrderDistinct(d.states, rej);
    forall q ensures q in acc <==> q in d.states && q in d.acceptStates {
      AcceptingMember(d.states, d.acceptStates, q);
    }
    forall q ensures q in rej <==> q in d.states && q !in d.acceptStates {
      RejectingMember(d.states, d.acceptStates, q);
    }
  }

  /** The corrected initial partition is good, and it is empty only when
      no state is declared. */
  lemma InitialGood(d: Description)
    requires Distinct(d.states)
    ensures Good(d, CorrectedInitial(d))
    ensures |CorrectedInitial(d)| == 0 ==> |d.states| == 0
  {
    InitialBlocks(d);
    SplitGood(d, Accepting(d.states, d.acceptStates), Rejecting(d.states, d.acceptStates), CorrectedInitial(d));
  }

  /** Splitting the declared states into the accepting block acc and the
      rejecting block rej, dropping an empty one, gives a good partition. */
  lemma SplitGood(d: Description, acc: seq<State>, rej: seq<State>, P: Partition)
    requires Distinct(acc) && Distinct(rej)
    requires forall q :: q in acc <==> q in d.states && q in d.acceptStates
    requires forall q :: q in rej <==> q in d.states && q !in d.acceptStates
    requires P == (if |acc| > 0 then [acc] else []) + (if |rej| > 0 then [rej] else [])
    ensures Good(d, P)
    ensures |P| == 0 ==> |d.states| == 0
  {
    assert forall k :: 0 <= k < |P| ==> (P[k] == acc && |acc| > 0 && k == 0) || (P[k] == rej && |rej| > 0 && k == |P| - 1);
    forall q | q in d.states ensures exists k :: 0 <= k < |P| && q in P[k] {
      if q in d.acceptStates { assert q in P[0]; } else { assert q in P[|P| - 1]; }
    }
    forall k, i | 0 <= k < |P| && 0 <= i < |P[k]| ensures P[k][i] in d.acceptStates <==> P[k][0] in d.acceptStates {
      assert P[k][i] in P[k] && P[k][0] in P[k];
    }
    if |d.states| > 0 {
      assert d.states[0] in acc || d.states[0] in rej;
    }
  }

  // ---------------------------------------------------------------------
  // Refining partitions

  /** Q refines P: states sharing a block of Q share a block of P. */
  ghost predicate Refines(Q: Partition, P: Partition) {
    forall q, r :: SameBlock(Q, q, r) ==> SameBlock(P, q, r)
  }

  /** In a partition every block is found by BlockOf from any member. */
  lemma BlockOfMember(P: Partition, xs: seq<State>, k: nat, q: State)
    requires IsPartition(P, xs) && k < |P| && q in P[k]
    ensures q in xs && BlockOf(P, q) == k
  {
    PartitionLiesOnce(P, xs, q);
  }

  /** The block of P holding each block of Q's first member. */
  ghost function Parent(P: Partition, Q: Partition, xs: seq<State>): seq<nat>
    requires IsPartition(P, xs) && IsPartition(Q, xs) && NonEmptyBlocks(Q)
  {
    seq(|Q|, j requires 0 <= j < |Q| => assert Q[j][0] in Q[j] && Q[j][0] in xs; BlockOf(P, Q[j][0]))
  }

  /** Under a refinement, a state's block of Q has the state's block of P
      as parent. */
  lemma ParentAt(P: Partition, Q: Partition, xs: seq<State>, q: State)
    requires IsPartition(P, xs) && IsPartition(Q, xs) && NonEmptyBlocks(Q) && Refines(Q, P) && q in xs
    ensures Parent(P, Q, xs)[BlockOf(Q, q)] == BlockOf(P, q)
  {
    var j := BlockOf(Q, q);
    var l := Q[j][0];
    assert l in Q[j];
    assert SameBlock(Q, q, l);
    SameBlockOf(P, xs, q, l);
  }

  /** A refinement into non-empty blocks has at least as many blocks, and
      with as many it puts states of one block of P into one block. */
  lemma RefinesCount(P: Partition, Q: Partition, xs: seq<State>)
    requires IsPartition(P, xs) && IsPartition(Q, xs) && NonEmptyBlocks(P) && NonEmptyBlocks(Q) && Refines(Q, P)
    ensures |Q| >= |P|
    ensures |Q| == |P| ==> forall q, r :: SameBlock(P, q, r) ==> SameBlock(Q, q, r)
  {
    var F := Parent(P, Q, xs);
    forall k | 0 <= k < |P| ensures k in F {
      var z := P[k][0];
      assert z in P[k];
      BlockOfMember(P, xs, k, z);
      ParentAt(P, Q, xs, z);
      assert F[BlockOf(Q, z)] == k;
    }
    Covering(F, |P|);
    if |Q| == |P| {
      forall q, r | SameBlock(P, q, r) ensures SameBlock(Q, q, r) {
        var j :| 0 <= j < |P| && q in P[j] && r in P[j];
        BlockOfMember(P, xs, j, q);
        BlockOfMember(P, xs, j, r);
        ParentAt(P, Q, xs, q);
        ParentAt(P, Q, xs, r);
        assert F[BlockOf(Q, q)] == F[BlockOf(Q, r)];
      }
    }
  }

  /** A refinement of a partition whose blocks agree on acceptance agrees
      on acceptance too. */
  lemma RefinesAcceptance(d: Description, P: Partition, Q: Partition)
    requires RespectsAcceptance(d, P) && Refines(Q, P)
    ensures RespectsAcceptance(d, Q)
  {
    forall k, i | 0 <= k < |Q| && 0 <= i < |Q[k]| ensures Q[k][i] in d.acceptStates <==> Q[k][0] in d.acceptStates {
      var q, l := Q[k][i], Q[k][0];
      assert q in Q[k] && l in Q[k];
      assert SameBlock(Q, q, l);
      var j :| 0 <= j < |P| && q in P[j] && l in P[j];
      assert P[j][IndexOf(P[j], q)] == q && P[j][IndexOf(P[j], l)] == l;
    }
  }

  // ---------------------------------------------------------------------
  // One corrected round

  /** Over a partition, the corrected signature is the triple of the
      blocks of the state and of its two targets. */
  lemma OwnSigInPartition(d: Description, P: Partition, q: State)
    requires WellFormed(d) && IsPartition(P, d.states) && q in d.states
    ensures q in d.transitions && d.transitions[q].on0 in d.states && d.transitions[q].on1 in d.states
    ensures OwnSigOf(d, P, q) ==
      [BlockOf(P, q), BlockOf(P, d.transitions[q].on0), BlockOf(P, d.transitions[q].on1)]
  {
    assert TargetsDeclared(d, q);
    PartitionLiesOnce(P, d.states, q);
    OccurrencesOnce(P, q, BlockOf(P, q));
    SignatureInPartition(P, d.states, d.transitions[q]);
  }

  /** Two declared states share a block of the corrected round exactly when
      they, their 0-targets and their 1-targets share blocks of P. */
  lemma StepSameBlock(d: Description, P: Partition, q: State, r: State)
    requires WellFormed(d) && IsPartition(P, d.states) && q in d.states && r in d.states
    ensures IsPartition(CorrectedStep(d, P), d.states)
    ensures q in d.transitions && d.transitions[q].on0 in d.states && d.transitions[q].on1 in d.states
    ensures r in d.transitions && d.transitions[r].on0 in d.states && d.transitions[r].on1 in d.states
    ensures BlockOf(CorrectedStep(d, P), q) == BlockOf(CorrectedStep(d, P), r) <==>
      && BlockOf(P, q) == BlockOf(P, r)
      && BlockOf(P, d.transitions[q].on0) == BlockOf(P, d.transitions[r].on0)
      && BlockOf(P, d.transitions[q].on1) == BlockOf(P, d.transitions[r].on1)
  {
    GroupingSameBlock(d.states, OwnSigsOf(d, P, d.states), IndexOf(d.states, q), IndexOf(d.states, r));
    OwnSigInPartition(d, P, q);
    OwnSigInPartition(d, P, r);
  }

  /** States sharing a block of Q move, on each symbol, to states sharing
      a block of P. */
  ghost predicate Consistent(d: Description, Q: Partition, P: Partition) {
    forall q, r :: SameBlock(Q, q, r) ==>
      && q in d.transitions && r in d.transitions
      && SameBlock(P, d.transitions[q].on0, d.transitions[r].on0)
      && SameBlock(P, d.transitions[q].on1, d.transitions[r].on1)
  }

  /** A corrected round yields a partition of the declared states into
      non-empty blocks that refines its input and is consistent with it. */
  lemma StepRefines(d: Description, P: Partition)
    requires WellFormed(d) && IsPartition(P, d.states)
    ensures IsPartition(CorrectedStep(d, P), d.states) && NonEmptyBlocks(CorrectedStep(d, P))
    ensures |CorrectedStep(d, P)| <= |d.states|
    ensures Refines(CorrectedStep(d, P), P) && Consistent(d, CorrectedStep(d, P), P)
  {
    var Q := CorrectedStep(d, P);
    GroupingPartition(d.states, OwnSigsOf(d, P, d.states));
    forall q, r | SameBlock(Q, q, r)
      ensures SameBlock(P, q, r)
      ensures q in d.transitions && r in d.transitions
      ensures SameBlock(P, d.transitions[q].on0, d.transitions[r].on0)
      ensures SameBlock(P, d.transitions[q].on1, d.transitions[r].on1)
    {
      StepPair(d, P, q, r);
    }
  }

  lemma StepPair(d: Description, P: Partition, q: State, r: State)
    requires WellFormed(d) && IsPartition(P, d.states) && SameBlock(CorrectedStep(d, P), q, r)
    ensures SameBlock(P, q, r)
    ensures q in d.transitions && r in d.transitions
    ensures SameBlock(P, d.transitions[q].on0, d.transitions[r].on0)
    ensures SameBlock(P, d.transitions[q].on1, d.transitions[r].on1)
  {
    var Q := CorrectedStep(d, P);
    GroupingPartition(d.states, OwnSigsOf(d, P, d.states));
    var j :| 0 <= j < |Q| && q in Q[j] && r in Q[j];
    BlockOfMember(Q, d.states, j, q);
    BlockOfMember(Q, d.states, j, r);
    StepSameBlock(d, P, q, r);
    var t, u := d.transitions[q], d.transitions[r];
    assert q in P[BlockOf(P, q)] && r in P[BlockOf(P, q)];
    assert t.on0 in P[BlockOf(P, t.on0)] && u.on0 in P[BlockOf(P, t.on0)];
    assert t.on1 in P[BlockOf(P, t.on1)] && u.on1 in P[BlockOf(P, t.on1)];
  }

  /** A corrected round maps a good partition to a good one with at least
      as many blocks. */
  lemma StepGood(d: Description, P: Partition)
    requires WellFormed(d) && Good(d, P)
    ensures Good(d, CorrectedStep(d, P))
    ensures |P| <= |CorrectedStep(d, P)| <= |d.states|
  {
    var Q := CorrectedStep(d, P);
    StepRefines(d, P);
    RefinesAcceptance(d, P, Q);
    RefinesCount(P, Q, d.states);
  }

  /** When a corrected round keeps the number of blocks, its output is
      stable: this is why the loop may stop on equal block counts. */
  lemma EqualCountStable(d: Description, P: Partition)
    requires WellFormed(d) && Good(d, P) && |CorrectedStep(d, P)| == |P|
    ensures Stable(d, CorrectedStep(d, P))
  {
    var Q := CorrectedStep(d, P);
    StepRefines(d, P);
    RefinesCount(P, Q, d.states);
    KeptBlocksStable(d, P, Q);
  }

  /** A partition consistent with P that keeps P's blocks together is
      stable. */
  lemma KeptBlocksStable(d: Description, P: Partition, Q: Partition)
    requires Consistent(d, Q, P) && forall q, r :: SameBlock(P, q, r) ==> SameBlock(Q, q, r)
    ensures Stable(d, Q)
  {
    forall k, i | 0 <= k < |Q| && 0 <= i < |Q[k]| ensures StableAt(d, Q, k, i) {
      var q, l := Q[k][i], Q[k][0];
      assert q in Q[k] && l in Q[k];
      assert SameBlock(Q, q, l);
    }
  }

  // ---------------------------------------------------------------------
  // The corrected loop

  /** The refinement loop over an arbitrary round function, so that the
      loop's termination and invariant are argued once, without unfolding
      a round. */
  function Loop(step: Partition -> Partition, previous: Partition, current: Partition, fuel: nat): Option<Partition>
    decreases fuel
  {
    if |previous| == |current| then Some(current)
    else if fuel == 0 then None
    else Loop(step, current, step(current), fuel - 1)
  }

  /** The corrected round as a function value. */
  function RoundOf(d: Description): Partition -> Partition {
    X => CorrectedStep(d, X)
  }

  /** The corrected loop is the generic loop over the corrected round. */
  lemma {:induction false} CorrectedIsLoop(d: Description, previous: Partition, current: Partition, fuel: nat)
    ensures CorrectedRefinement(d, previous, current, fuel) == Loop(RoundOf(d), previous, current, fuel)
    decreases fuel
  {
    if |previous| != |current| && fuel > 0 {
      CorrectedIsLoop(d, current, CorrectedStep(d, current), fuel - 1);
    }
  }

  /** A loop that stops, stops on the round of some partition satisfying
      the preserved invariant whose round keeps its number of blocks. */
  lemma {:induction false} LoopExit(step: Partition -> Partition, inv: Partition -> bool, P: Partition, fuel: nat)
    returns (R: Partition)
    requires forall X :: inv(X) ==> inv(step(X))
    requires inv(P) && Loop(step, P, step(P), fuel).Some?
    ensures inv(R) && |R| == |step(R)| && Loop(step, P, step(P), fuel).value == step(R)
    decreases fuel
  {
    if |P| == |step(P)| {
      R := P;
    } else {
      R := LoopExit(step, inv, step(P), fuel - 1);
    }
  }

  /** A loop whose rounds never lose a block and never exceed n blocks
      stops once the rounds left cover the blocks still to be made. */
  lemma {:induction false} LoopStops(step: Partition -> Partition, inv: Partition -> bool, n: nat, P: Partition, fuel: nat)
    requires forall X :: inv(X) ==> inv(step(X)) && |X| <= |step(X)| <= n
    requires inv(P) && |P| + fuel >= n
    ensures Loop(step, P, step(P), fuel).Some?
    decreases fuel
  {
    if |P| != |step(P)| {
      LoopStops(step, inv, n, step(P), fuel - 1);
    }
  }

  /** Rounds keep partitions good and never lose a block. */
  lemma StepsGood(d: Description)
    requires WellFormed(d)
    ensures forall X :: Good(d, X) ==> Good(d, CorrectedStep(d, X)) && |X| <= |CorrectedStep(d, X)| <= |d.states|
  {
    forall X | Good(d, X) ensures Good(d, CorrectedStep(d, X)) && |X| <= |CorrectedStep(d, X)| <= |d.states| {
      StepGood(d, X);
    }
  }

  /** The initial partition is good and, for a well-formed machine, has a
      block. */
  lemma InitialNonEmpty(d: Description)
    requires WellFormed(d)
    ensures Good(d, CorrectedInitial(d)) && |CorrectedInitial(d)| > 0 && |d.states| > 0
  {
    InitialGood(d);
    assert d.start in d.states;
  }

  /** The corrected loop after a round from a good partition stops on a
      good, stable partition. */
  lemma RoundsGood(d: Description, P: Partition, fuel: nat)
    requires WellFormed(d) && Good(d, P)
    requires Loop(RoundOf(d), P, CorrectedStep(d, P), fuel).Some?
    ensures Good(d, Loop(RoundOf(d), P, CorrectedStep(d, P), fuel).value)
    ensures Stable(d, Loop(RoundOf(d), P, CorrectedStep(d, P), fuel).value)
  {
    var inv: Partition -> bool := X => Good(d, X);
    StepsGood(d);
    var R := LoopExit(RoundOf(d), inv, P, fuel);
    StepGood(d, R);
    EqualCountStable(d, R);
  }

  /** The corrected loop started on a good partition with a block stops on
      a good, stable partition. */
  lemma LoopGood(d: Description, P: Partition, fuel: nat)
    requires WellFormed(d) && Good(d, P) && |P| > 0
    requires Loop(RoundOf(d), [], P, fuel).Some?
    ensures Good(d, Loop(RoundOf(d), [], P, fuel).value) && Stable(d, Loop(RoundOf(d), [], P, fuel).value)
  {
    RoundsGood(d, P, fuel - 1);
  }

  /** Whatever partition the corrected loop stops on is good and stable. */
  lemma CorrectedFinalGood(d: Description, fuel: nat)
    requires WellFormed(d) && CorrectedFinal(d, fuel).Some?
    ensures Good(d, CorrectedFinal(d, fuel).value) && Stable(d, CorrectedFinal(d, fuel).value)
  {
    InitialNonEmpty(d);
    CorrectedIsLoop(d, [], CorrectedInitial(d), fuel);
    LoopGood(d, CorrectedInitial(d), fuel);
  }

  /** The corrected loop after a round from a good partition stops once
      the rounds left cover the blocks still to be made. */
  lemma RoundsStop(d: Description, P: Partition, fuel: nat)
    requires WellFormed(d) && Good(d, P) && |P| + fuel >= |d.states|
    ensures Loop(RoundOf(d), P, CorrectedStep(d, P), fuel).Some?
  {
    var inv: Partition -> bool := X => Good(d, X);
    StepsGood(d);
    LoopStops(RoundOf(d), inv, |d.states|, P, fuel);
  }

  /** The corrected loop started on a good partition with a block stops
      within as many rounds as there are states. */
  lemma LoopStopsWithin(d: Description, P: Partition)
    requires WellFormed(d) && Good(d, P) && |P| > 0 && |d.states| > 0
    ensures Loop(RoundOf(d), [], P, |d.states|).Some?
  {
    RoundsStop(d, P, |d.states| - 1);
  }

  /** The corrected loop always stops within as many rounds as there are
      states. */
  lemma CorrectedStops(d: Description)
    requires WellFormed(d)
    ensures CorrectedFinal(d, |d.states|).Some?
    ensures CorrectedMinimized(d, |d.states|).Some?
  {
    InitialNonEmpty(d);
    CorrectedIsLoop(d, [], CorrectedInitial(d), |d.states|);
    LoopStopsWithin(d, CorrectedInitial(d));
  }

  /** The machine the corrected `minimize` returns accepts exactly the
      binary strings the original accepts, provided its block labels do not
      collide. */
  lemma CorrectedPreservesLanguage(d: Description, fuel: nat, s: string)
    requires WellFormed(d) && CorrectedFinal(d, fuel).Some?
    requires LabelsDistinct(CorrectedFinal(d, fuel).value) && IsBinary(s)
    ensures CorrectedMinimized(d, fuel).Some?
    ensures RunDefined(d, d.start, s) && RunDefined(CorrectedMinimized(d, fuel).value, CorrectedMinimized(d, fuel).value.start, s)
    ensures Accepted(CorrectedMinimized(d, fuel).value, s) == Accepted(d, s)
  {
    CorrectedFinalGood(d, fuel);
    QuotientPreservesLanguage(d, CorrectedFinal(d, fuel).value, s);
  }
}
