/** Two machines on which `minimize` of dfa-minimizer/src/dfa.ts returns a
    machine with a different language, because a state's behaviour lists
    only the blocks of its targets and never the block the state itself is
    in. On the first, the loop merges an accepting and a rejecting state;
    on the second, a round merges two blocks and splits another, so the
    block count stays the same and the loop stops on a partition that is
    not a fixpoint. The corrected round of DfaCorrected keeps the language
    of the first machine. */
module DfaFindings {
  import opened Seqs
  import opened Dfa
  import opened DfaPartition
  import opened DfaQuotient
  import opened DfaCorrected
  import opened DfaExamples

  // ---------------------------------------------------------------------
  // An accepting state merged with a rejecting one

  /** f is accepting and loops on both symbols; x is the start, not
      accepting, and moves to f on both symbols. */
  ghost predicate OwnBlockTable(d: Description, f: State, x: State) {
    && f != x
    && d.states == [f, x]
    && d.transitions.Keys == {f, x}
    && d.transitions[f] == Targets(f, f) && d.transitions[x] == Targets(f, f)
    && d.start == x && d.acceptStates == [f]
  }

  function OwnBlock(): Description {
    Description(["F", "X"], map["F" := Targets("F", "F"), "X" := Targets("F", "F")], "X", ["F"])
  }

  lemma OwnBlockNames()
    ensures OwnBlockTable(OwnBlock(), "F", "X")
  {
  }

  lemma OwnBlockWellFormed(d: Description, f: State, x: State)
    requires OwnBlockTable(d, f, x)
    ensures WellFormed(d)
  {
    forall q ensures TargetsDeclared(d, q) {
    }
  }

  lemma OwnBlockInitial(d: Description, f: State, x: State)
    requires OwnBlockTable(d, f, x)
    ensures InitialPartition(d) == [[f], [x]]
  {
    assert [f, x][..1] == [f] && [f][..0] == [];
    assert Rejecting([f], [f]) == [];
    assert Rejecting([f, x], [f]) == [x];
  }

  /** Both states send both symbols into block 0, so the first round puts
      them together. */
  lemma OwnBlockRound1(d: Description, f: State, x: State)
    requires OwnBlockTable(d, f, x)
    ensures RefineStep(d, [[f], [x]]) == [[f, x]]
  {
    var P := [[f], [x]];
    assert LiesOnceIn(P, f, 0);
    SigOfTargets(d, P, f, f, f, 0, 0);
    SigOfTargets(d, P, x, f, f, 0, 0);
    var u: seq<nat> := [0, 0];
    RoundByKeys(d, P, [u, u]);
    GroupSame2(f, x, u);
  }

  lemma OwnBlockRound2(d: Description, f: State, x: State)
    requires OwnBlockTable(d, f, x)
    ensures RefineStep(d, [[f, x]]) == [[f, x]]
  {
    var P := [[f, x]];
    assert LiesOnceIn(P, f, 0);
    SigOfTargets(d, P, f, f, f, 0, 0);
    SigOfTargets(d, P, x, f, f, 0, 0);
    var u: seq<nat> := [0, 0];
    RoundByKeys(d, P, [u, u]);
    GroupSame2(f, x, u);
  }

  /** The loop stops after two rounds on a single block. */
  lemma OwnBlockFinal(d: Description, f: State, x: State)
    requires OwnBlockTable(d, f, x)
    ensures FinalPartition(d, 2) == Some([[f, x]])
  {
    OwnBlockInitial(d, f, x);
    OwnBlockRound1(d, f, x);
    OwnBlockRound2(d, f, x);
    var P0, P1 := [[f], [x]], [[f, x]];
    assert Refinement(d, P1, P1, 0) == Some(P1);
    assert Refinement(d, P0, P1, 1) == Some(P1);
  }

  /** As written, `minimize` turns a machine that rejects the empty string
      into one that accepts it: the single block is labelled by f + x,
      it is the start, and it is accepting because its first member f is. */
  lemma OwnBlockLanguageChanged(d: Description, f: State, x: State)
    requires OwnBlockTable(d, f, x)
    ensures WellFormed(d) && Minimized(d, 2).Some?
    ensures !Accepted(d, "") && Accepted(Minimized(d, 2).value, "")
  {
    OwnBlockWellFormed(d, f, x);
    OwnBlockFinal(d, f, x);
    var P := [[f, x]];
    assert f in P[0] && x in P[0];
    assert IsPartition(P, d.states);
    assert Proper(d, P);
    assert BlockOf(P, x) == 0;
    QuotientStart(d, P);
    QuotientAccepting(d, P, 0);
    AcceptedEmpty(d);
    AcceptedEmpty(Quotient(d, P));
  }

  /** A corrected round is the grouping of the declared states by any
      list that holds their corrected signatures. */
  lemma CorrectedRoundByKeys(d: Description, P: Partition, ks: seq<seq<nat>>)
    requires |ks| == |d.states| && forall i :: 0 <= i < |ks| ==> OwnSigOf(d, P, d.states[i]) == ks[i]
    ensures CorrectedStep(d, P) == GroupBy(d.states, ks)
  {
    assert OwnSigsOf(d, P, d.states) == ks;
  }

  /** A state reading one symbol moves to that symbol's target. */
  lemma RunOne(d: Description, q: State, c: char)
    requires q in d.transitions && IsBit(c)
    ensures RunDefined(d, q, [c]) && Run(d, q, [c]) == Transition(d, q, c)
  {
    assert [c][0] == c && [c][1..] == [];
  }

  lemma OwnBlockCorrectedInitial(d: Description, f: State, x: State)
    requires OwnBlockTable(d, f, x)
    ensures CorrectedInitial(d) == [[f], [x]]
  {
    OwnBlockInitial(d, f, x);
    assert [f, x][..1] == [f] && [f][..0] == [];
    assert f in [f] && x !in [f];
    assert Accepting([], [f]) == [];
    assert Accepting([f], [f]) == [f];
    assert Accepting([f, x], [f]) == [f];
  }

  /** Counting its own block, f has signature [0, 0, 0] and x [1, 0, 0]. */
  lemma OwnBlockCorrectedSigs(d: Description, f: State, x: State)
    requires OwnBlockTable(d, f, x)
    ensures OwnSigOf(d, [[f], [x]], f) == [0, 0, 0]
    ensures OwnSigOf(d, [[f], [x]], x) == [1, 0, 0]
  {
    var P := [[f], [x]];
    assert LiesOnceIn(P, f, 0) && LiesOnceIn(P, x, 1);
    OccurrencesOnce(P, f, 0);
    OccurrencesOnce(P, x, 1);
    SigOfTargets(d, P, f, f, f, 0, 0);
    SigOfTargets(d, P, x, f, f, 0, 0);
  }

  /** With the corrected round, the first round keeps the accepting and the
      rejecting state apart, and the loop stops there. */
  lemma OwnBlockCorrectedFinal(d: Description, f: State, x: State)
    requires OwnBlockTable(d, f, x)
    ensures CorrectedFinal(d, 1) == Some([[f], [x]])
  {
    var P := [[f], [x]];
    OwnBlockCorrectedInitial(d, f, x);
    OwnBlockCorrectedSigs(d, f, x);
    var u: seq<nat>, v: seq<nat> := [0, 0, 0], [1, 0, 0];
    CorrectedRoundByKeys(d, P, [u, v]);
    GroupDistinct2(f, x, u, v);
    assert CorrectedRefinement(d, P, P, 0) == Some(P);
  }

  /** The corrected `minimize` keeps the language of the machine on which
      the original changes it, and so rejects the empty string. */
  lemma OwnBlockCorrected(d: Description, f: State, x: State)
    requires OwnBlockTable(d, f, x)
    ensures WellFormed(d) && CorrectedMinimized(d, 1).Some?
    ensures forall s :: IsBinary(s) ==>
      && RunDefined(d, d.start, s) && RunDefined(CorrectedMinimized(d, 1).value, CorrectedMinimized(d, 1).value.start, s)
      && Accepted(CorrectedMinimized(d, 1).value, s) == Accepted(d, s)
    ensures !Accepted(CorrectedMinimized(d, 1).value, "")
  {
    OwnBlockWellFormed(d, f, x);
    OwnBlockCorrectedFinal(d, f, x);
    SingleLabel(f);
    SingleLabel(x);
    assert LabelsDistinct([[f], [x]]);
    forall s | IsBinary(s)
      ensures RunDefined(d, d.start, s) && RunDefined(CorrectedMinimized(d, 1).value, CorrectedMinimized(d, 1).value.start, s)
      ensures Accepted(CorrectedMinimized(d, 1).value, s) == Accepted(d, s)
    {
      CorrectedPreservesLanguage(d, 1, s);
    }
    assert IsBinary("");
    AcceptedEmpty(d);
  }

  // ---------------------------------------------------------------------
  // A round that keeps the block count without being a fixpoint

  /** a is the start and the only accept state; a and b move to b on both
      symbols, c moves to a on both. */
  ghost predicate SameCountTable(d: Description, a: State, b: State, c: State) {
    && a != b && a != c && b != c && a + b != c
    && d.states == [a, b, c]
    && d.transitions.Keys == {a, b, c}
    && d.transitions[a] == Targets(b, b) && d.transitions[b] == Targets(b, b) && d.transitions[c] == Targets(a, a)
    && d.start == a && d.acceptStates == [a]
  }

  function SameCount(): Description {
    Description(["A", "B", "C"],
      map["A" := Targets("B", "B"), "B" := Targets("B", "B"), "C" := Targets("A", "A")],
      "A", ["A"])
  }

  lemma SameCountNames()
    ensures SameCountTable(SameCount(), "A", "B", "C")
  {
  }

  lemma SameCountWellFormed(d: Description, a: State, b: State, c: State)
    requires SameCountTable(d, a, b, c)
    ensures WellFormed(d)
  {
    forall q ensures TargetsDeclared(d, q) {
    }
  }

  lemma SameCountInitial(d: Description, a: State, b: State, c: State)
    requires SameCountTable(d, a, b, c)
    ensures InitialPartition(d) == [[a], [b, c]]
  {
    assert [a, b, c][..2] == [a, b] && [a, b][..1] == [a] && [a][..0] == [];
    assert Rejecting([a], [a]) == [];
    assert Rejecting([a, b], [a]) == [b];
    assert Rejecting([a, b, c], [a]) == [b, c];
  }

  lemma GroupSame3<T, K>(a: T, b: T, c: T, u: K)
    ensures GroupBy([a, b, c], [u, u, u]) == [[a, b, c]]
  {
    GroupSame2(a, b, u);
    GroupOld([a, b], [u, u], c, 0, [u], [[a, b]], [a, b, c], [u, u, u], [[a, b, c]]);
  }

  /** The first round merges a into b's block and splits c off. */
  lemma SameCountRound1(d: Description, a: State, b: State, c: State)
    requires SameCountTable(d, a, b, c)
    ensures RefineStep(d, [[a], [b, c]]) == [[a, b], [c]]
  {
    var P := [[a], [b, c]];
    assert LiesOnceIn(P, a, 0) && LiesOnceIn(P, b, 1);
    SigOfTargets(d, P, a, b, b, 1, 1);
    SigOfTargets(d, P, b, b, b, 1, 1);
    SigOfTargets(d, P, c, a, a, 0, 0);
    var u: seq<nat>, v: seq<nat> := [1, 1], [0, 0];
    RoundByKeys(d, P, [u, u, v]);
    GroupSameFirst3(a, b, c, u, v);
  }

  /** A further round would merge all three states. */
  lemma SameCountRound2(d: Description, a: State, b: State, c: State)
    requires SameCountTable(d, a, b, c)
    ensures RefineStep(d, [[a, b], [c]]) == [[a, b, c]]
  {
    var P := [[a, b], [c]];
    assert LiesOnceIn(P, a, 0) && LiesOnceIn(P, b, 0);
    SigOfTargets(d, P, a, b, b, 0, 0);
    SigOfTargets(d, P, b, b, b, 0, 0);
    SigOfTargets(d, P, c, a, a, 0, 0);
    var u: seq<nat> := [0, 0];
    RoundByKeys(d, P, [u, u, u]);
    GroupSame3(a, b, c, u);
  }

  /** As written, the loop stops after one round because the block count
      did not change, on a partition its own round would change. */
  lemma SameCountFinal(d: Description, a: State, b: State, c: State)
    requires SameCountTable(d, a, b, c)
    ensures FinalPartition(d, 1) == Some([[a, b], [c]])
    ensures RefineStep(d, [[a, b], [c]]) != [[a, b], [c]]
  {
    SameCountInitial(d, a, b, c);
    SameCountRound1(d, a, b, c);
    SameCountRound2(d, a, b, c);
    var P0, P := [[a], [b, c]], [[a, b], [c]];
    assert Refinement(d, P0, P, 0) == Some(P);
    assert [[a, b, c]] != P;
  }

  lemma SameCountProper(d: Description, a: State, b: State, c: State)
    requires SameCountTable(d, a, b, c)
    ensures Proper(d, [[a, b], [c]])
    ensures Label([a, b]) == a + b && BlockOf([[a, b], [c]], a) == 0 && BlockOf([[a, b], [c]], b) == 0
  {
    var P := [[a, b], [c]];
    assert a in P[0] && b in P[0] && c in P[1];
    assert IsPartition(P, d.states);
    SingleLabel(c);
    SingleLabel(b);
    assert [a, b][1..] == [b];
  }

  /** The machine `minimize` returns accepts "0", which the original
      rejects: a and b share the accepting start block, and b is not
      accepting. */
  lemma SameCountLanguageChanged(d: Description, a: State, b: State, c: State)
    requires SameCountTable(d, a, b, c)
    ensures WellFormed(d) && Minimized(d, 1).Some?
    ensures RunDefined(d, d.start, "0") && !Accepted(d, "0")
    ensures RunDefined(Minimized(d, 1).value, Minimized(d, 1).value.start, "0") && Accepted(Minimized(d, 1).value, "0")
  {
    SameCountWellFormed(d, a, b, c);
    SameCountFinal(d, a, b, c);
    SameCountProper(d, a, b, c);
    var P := [[a, b], [c]];
    QuotientStart(d, P);
    QuotientTable(d, P, 0);
    QuotientAccepting(d, P, 0);
    var m := Quotient(d, P);
    assert m.start == a + b;
    RunOne(m, a + b, '0');
    RunOne(d, a, '0');
  }
}
