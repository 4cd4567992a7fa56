/** The partition-refinement half of `minimize` in dfa-minimizer/src/dfa.ts:
    the initial partition, the per-state signature, one refinement round and
    the loop that repeats rounds until the block count stops changing. */
module DfaPartition {
  import opened Seqs
  import opened Dfa

  /** An equivalence-class partition: an ordered sequence of blocks. */
  type Partition = seq<seq<State>>

  datatype Option<T> = None | Some(value: T)

  /** Every state of xs lies in some block, every block member is in xs, no
      state lies in two blocks and no block repeats a state. */
  ghost predicate IsPartition(P: Partition, xs: seq<State>) {
    && (forall q :: q in xs ==> exists k :: 0 <= k < |P| && q in P[k])
    && (forall k, q :: 0 <= k < |P| && q in P[k] ==> q in xs)
    && (forall k, k', q :: 0 <= k < k' < |P| && q in P[k] ==> q !in P[k'])
    && (forall k :: 0 <= k < |P| ==> Distinct(P[k]))
  }

  /** The first block holding q. */
  function BlockOf(P: Partition, q: State): (k: nat)
    requires exists k :: 0 <= k < |P| && q in P[k]
    ensures k < |P| && q in P[k]
    ensures forall j :: 0 <= j < k ==> q !in P[j]
  {
    if q in P[0] then 0
    else
      assert exists k :: 0 <= k < |P[1..]| && q in P[1..][k] by {
        var k :| 0 <= k < |P| && q in P[k];
        assert P[1..][k - 1] == P[k];
      }
      1 + BlockOf(P[1..], q)
  }

  // ---------------------------------------------------------------------
  // Initial partition (dfa.ts:71-87)

  /** The states of xs that are not accept states, in the order of xs. */
  function Rejecting(xs: seq<State>, accept: seq<State>): seq<State>
    decreases |xs|
  {
    if |xs| == 0 then []
    else Rejecting(xs[..|xs| - 1], accept) + (if xs[|xs| - 1] in accept then [] else [xs[|xs| - 1]])
  }

  /** Block 0 is `acceptStates` as given, block 1 the other declared states. */
  function InitialPartition(d: Description): Partition {
    [d.acceptStates, Rejecting(d.states, d.acceptStates)]
  }

  /** `initialEquivalenceClass`: push every declared state that is not an
      accept state into block 1. */
  method InitialEquivalenceClass(d: Description) returns (P: Partition)
    ensures P == InitialPartition(d)
  {
    var rejecting: seq<State> := [];
    for i := 0 to |d.states|
      invariant rejecting == Rejecting(d.states[..i], d.acceptStates)
    {
      assert d.states[..i + 1][..i] == d.states[..i];
      if d.states[i] !in d.acceptStates {
        rejecting := rejecting + [d.states[i]];
      }
    }
    assert d.states[..|d.states|] == d.states;
    P := [d.acceptStates, rejecting];
  }

  lemma {:induction false} RejectingMember(xs: seq<State>, accept: seq<State>, q: State)
    ensures q in Rejecting(xs, accept) <==> q in xs && q !in accept
    decreases |xs|
  {
    if |xs| > 0 {
      var init := xs[..|xs| - 1];
      assert xs == init + [xs[|xs| - 1]];
      RejectingMember(init, accept, q);
    }
  }

  lemma {:induction false} RejectingInOrder(xs: seq<State>, accept: seq<State>)
    requires Distinct(xs)
    ensures InOrder(xs, Rejecting(xs, accept))
    decreases |xs|
  {
    if |xs| == 0 {
      assert Rejecting(xs, accept) == [];
    } else {
      var init, x := xs[..|xs| - 1], xs[|xs| - 1];
      assert xs == init + [x];
      assert Distinct(init);
      RejectingInOrder(init, accept);
      InOrderSnoc(init, x, Rejecting(init, accept));
    }
  }

  /** The initial partition has two blocks: `acceptStates` as given, then the
      declared states that are not accepting, in declaration order. When
      `acceptStates` is duplicate-free and declared, the two blocks partition
      the declared states. */
  lemma InitialPartitionShape(d: Description)
    requires Distinct(d.states)
    ensures |InitialPartition(d)| == 2
    ensures InitialPartition(d)[0] == d.acceptStates
    ensures forall q :: q in InitialPartition(d)[1] <==> q in d.states && q !in d.acceptStates
    ensures InOrder(d.states, InitialPartition(d)[1])
    ensures Distinct(d.acceptStates) && (forall q :: q in d.acceptStates ==> q in d.states) ==>
              IsPartition(InitialPartition(d), d.states)
  {
    var P := InitialPartition(d);
    forall q ensures q in P[1] <==> q in d.states && q !in d.acceptStates {
      RejectingMember(d.states, d.acceptStates, q);
    }
    RejectingInOrder(d.states, d.acceptStates);
    InOrderDistinct(d.states, P[1]);
    if Distinct(d.acceptStates) && (forall q :: q in d.acceptStates ==> q in d.states) {
      forall q | q in d.states ensures exists k :: 0 <= k < |P| && q in P[k] {
        if q in d.acceptStates { assert q in P[0]; } else { assert q in P[1]; }
      }
    }
  }

  // ---------------------------------------------------------------------
  // Signature of a state (dfa.ts:89-104)

  /** One copy of index i for every position of q in block b. */
  function Hits(b: seq<State>, q: State, i: nat): seq<nat>
    decreases |b|
  {
    if |b| == 0 then [] else Hits(b[..|b| - 1], q, i) + (if b[|b| - 1] == q then [i] else [])
  }

  /** The index of every block holding q, once per position of q, scanning
      the blocks in order. */
  function Occurrences(P: Partition, q: State): seq<nat>
    decreases |P|
  {
    if |P| == 0 then [] else Occurrences(P[..|P| - 1], q) + Hits(P[|P| - 1], q, |P| - 1)
  }

  /** The behaviour of a state with targets t: the block indices found for
      its 0-target, then those for its 1-target. */
  function Signature(P: Partition, t: Targets): seq<nat> {
    Occurrences(P, t.on0) + Occurrences(P, t.on1)
  }

  /** q occurs in b, and only once. */
  ghost predicate OnceIn(b: seq<State>, q: State) {
    q in b && forall i, j :: 0 <= i < j < |b| && b[i] == q ==> b[j] != q
  }

  /** q occurs exactly once across all blocks of P, in block k. */
  ghost predicate LiesOnceIn(P: Partition, q: State, k: nat) {
    k < |P| && OnceIn(P[k], q) && forall j :: 0 <= j < |P| && j != k ==> q !in P[j]
  }

  lemma {:induction false} HitsAbsent(b: seq<State>, q: State, i: nat)
    requires q !in b
    ensures Hits(b, q, i) == []
    decreases |b|
  {
    if |b| > 0 {
      HitsAbsent(b[..|b| - 1], q, i);
    }
  }

  lemma {:induction false} HitsOnce(b: seq<State>, q: State, i: nat)
    requires OnceIn(b, q)
    ensures Hits(b, q, i) == [i]
    decreases |b|
  {
    var n := |b| - 1;
    var init := b[..n];
    if b[n] == q {
      assert q !in init by {
        forall m | 0 <= m < n ensures init[m] != q { assert init[m] == b[m]; }
      }
      HitsAbsent(init, q, i);
    } else {
      assert q in init by {
        var m :| 0 <= m < |b| && b[m] == q;
        assert init[m] == q;
      }
      HitsOnce(init, q, i);
    }
  }

  lemma {:induction false} OccurrencesAbsent(P: Partition, q: State)
    requires forall j :: 0 <= j < |P| ==> q !in P[j]
    ensures Occurrences(P, q) == []
    decreases |P|
  {
    if |P| > 0 {
      var n := |P| - 1;
      HitsAbsent(P[n], q, n);
      OccurrencesAbsent(P[..n], q);
    }
  }

  /** A state lying exactly once in P, in block k, is reported as [k]. */
  lemma {:induction false} OccurrencesOnce(P: Partition, q: State, k: nat)
    requires LiesOnceIn(P, q, k)
    ensures Occurrences(P, q) == [k]
    decreases |P|
  {
    var n := |P| - 1;
    if k == n {
      HitsOnce(P[n], q, n);
      OccurrencesAbsent(P[..n], q);
    } else {
      HitsAbsent(P[n], q, n);
      OccurrencesOnce(P[..n], q, k);
    }
  }

  /** If each target lies exactly once in P, the signature is the pair of the
      0-target's block and the 1-target's block, both within range. */
  lemma SignatureOfTargets(P: Partition, t: Targets, k0: nat, k1: nat)
    requires LiesOnceIn(P, t.on0, k0) && LiesOnceIn(P, t.on1, k1)
    ensures Signature(P, t) == [k0, k1]
    ensures k0 < |P| && k1 < |P|
  {
    OccurrencesOnce(P, t.on0, k0);
    OccurrencesOnce(P, t.on1, k1);
  }

  /** In a partition every member lies exactly once, in its BlockOf block. */
  lemma PartitionLiesOnce(P: Partition, xs: seq<State>, q: State)
    requires IsPartition(P, xs) && q in xs
    ensures LiesOnceIn(P, q, BlockOf(P, q))
  {
    var k := BlockOf(P, q);
    forall j | 0 <= j < |P| && j != k ensures q !in P[j] {
      if j > k { assert q in P[k]; }
    }
  }

  /** In a partition of xs whose targets lie in xs, the signature is the
      pair of target blocks. */
  lemma SignatureInPartition(P: Partition, xs: seq<State>, t: Targets)
    requires IsPartition(P, xs) && t.on0 in xs && t.on1 in xs
    ensures Signature(P, t) == [BlockOf(P, t.on0), BlockOf(P, t.on1)]
  {
    PartitionLiesOnce(P, xs, t.on0);
    PartitionLiesOnce(P, xs, t.on1);
    SignatureOfTargets(P, t, BlockOf(P, t.on0), BlockOf(P, t.on1));
  }

  lemma HitsSnoc(b: seq<State>, j: nat, q: State, i: nat)
    requires j < |b|
    ensures Hits(b[..j + 1], q, i) == Hits(b[..j], q, i) + (if b[j] == q then [i] else [])
  {
    assert b[..j + 1][..j] == b[..j];
  }

  lemma OccurrencesSnoc(P: Partition, i: nat, q: State)
    requires i < |P|
    ensures Occurrences(P[..i + 1], q) == Occurrences(P[..i], q) + Hits(P[i], q, i)
  {
    assert P[..i + 1][..i] == P[..i];
  }

  /** `findStateBehavior`: for each target, scan every block and every
      position, appending the block index at each match. */
  method FindStateBehavior(P: Partition, t: Targets) returns (behavior: seq<nat>)
    ensures behavior == Signature(P, t)
  {
    behavior := [];
    var targets := [t.on0, t.on1];
    for n := 0 to 2
      invariant behavior == if n == 0 then [] else if n == 1 then Occurrences(P, t.on0) else Signature(P, t)
    {
      behavior := AppendOccurrences(P, targets[n], behavior);
    }
  }

  /** The two inner loops of `findStateBehavior` for one target: append the
      index of every block at every position where the target occurs. */
  method AppendOccurrences(P: Partition, next: State, behavior0: seq<nat>) returns (behavior: seq<nat>)
    ensures behavior == behavior0 + Occurrences(P, next)
  {
    behavior := behavior0;
    for i := 0 to |P|
      invariant behavior == behavior0 + Occurrences(P[..i], next)
    {
      ghost var mid := behavior;
      for j := 0 to |P[i]|
        invariant behavior == mid + Hits(P[i][..j], next, i)
      {
        HitsSnoc(P[i], j, next, i);
        if P[i][j] == next {
          behavior := behavior + [i];
          assert behavior == mid + (Hits(P[i][..j], next, i) + [i]);
        }
      }
      assert P[i][..|P[i]|] == P[i];
      OccurrencesSnoc(P, i, next);
      assert behavior == behavior0 + (Occurrences(P[..i], next) + Hits(P[i], next, i));
    }
    assert P[..|P|] == P;
  }

  // ---------------------------------------------------------------------
  // One refinement round (dfa.ts:53-66)

  /** The signature of a declared state under P. */
  function SigOf(d: Description, P: Partition, q: State): seq<nat> {
    if q in d.transitions then Signature(P, d.transitions[q]) else []
  }

  /** The signatures of the states of xs, in order. */
  function SigsOf(d: Description, P: Partition, xs: seq<State>): seq<seq<nat>> {
    seq(|xs|, i requires 0 <= i < |xs| => SigOf(d, P, xs[i]))
  }

  /** The partition one round computes: one block per distinct signature, in
      the order the signatures are first seen, each block holding the states
      with that signature in declaration order. */
  function RefineStep(d: Description, P: Partition): Partition {
    Groups(d, P, d.states)
  }

  /** The grouping of the states of xs by signature under P. */
  function Groups(d: Description, P: Partition, xs: seq<State>): Partition {
    GroupBy(xs, SigsOf(d, P, xs))
  }

  /** Group k of a grouping of the distinct elements xs by keys ks holds
      exactly the elements whose key is the k-th key first seen. */
  lemma GroupingAt(xs: seq<State>, ks: seq<seq<nat>>, k: nat, i: nat)
    requires Distinct(xs) && |ks| == |xs| && k < |GroupBy(xs, ks)| && i < |xs|
    ensures |GroupBy(xs, ks)| == |FirstSeen(ks)|
    ensures xs[i] in GroupBy(xs, ks)[k] <==> ks[i] == FirstSeen(ks)[k]
  {
    assert GroupBy(xs, ks)[k] == Select(xs, ks, FirstSeen(ks)[k]);
    SelectAt(xs, ks, FirstSeen(ks)[k], i);
  }

  /** Grouping the distinct elements xs by keys yields a partition of xs
      into non-empty groups, each listed in the order of xs, with no more
      groups than elements. */
  lemma GroupingPartition(xs: seq<State>, ks: seq<seq<nat>>)
    requires Distinct(xs) && |ks| == |xs|
    ensures IsPartition(GroupBy(xs, ks), xs)
    ensures forall k :: 0 <= k < |GroupBy(xs, ks)| ==> |GroupBy(xs, ks)[k]| > 0
    ensures forall k :: 0 <= k < |GroupBy(xs, ks)| ==> InOrder(xs, GroupBy(xs, ks)[k])
    ensures |GroupBy(xs, ks)| <= |xs|
  {
    var Q := GroupBy(xs, ks);
    var keys := FirstSeen(ks);
    forall k | 0 <= k < |Q| ensures |Q[k]| > 0 && InOrder(xs, Q[k]) && Distinct(Q[k]) {
      assert Q[k] == Select(xs, ks, keys[k]);
      FirstSeenMember(ks, keys[k]);
      SelectHead(xs, ks, keys[k]);
      SelectInOrder(xs, ks, keys[k]);
      InOrderDistinct(xs, Q[k]);
    }
    forall q | q in xs ensures exists k :: 0 <= k < |Q| && q in Q[k] {
      var i := IndexOf(xs, q);
      FirstSeenMember(ks, ks[i]);
      var k := IndexOf(keys, ks[i]);
      GroupingAt(xs, ks, k, i);
    }
    forall k, q | 0 <= k < |Q| && q in Q[k] ensures q in xs {
      SelectSub(xs, ks, keys[k], q);
    }
    forall k, k', q | 0 <= k < k' < |Q| && q in Q[k] ensures q !in Q[k'] {
      SelectSub(xs, ks, keys[k], q);
      var i := IndexOf(xs, q);
      GroupingAt(xs, ks, k, i);
      GroupingAt(xs, ks, k', i);
    }
  }

  /** Two elements share a group exactly when their keys agree. */
  lemma GroupingSameBlock(xs: seq<State>, ks: seq<seq<nat>>, i: nat, i': nat)
    requires Distinct(xs) && |ks| == |xs| && i < |xs| && i' < |xs|
    ensures IsPartition(GroupBy(xs, ks), xs) && xs[i] in xs && xs[i'] in xs
    ensures BlockOf(GroupBy(xs, ks), xs[i]) == BlockOf(GroupBy(xs, ks), xs[i']) <==> ks[i] == ks[i']
  {
    GroupingPartition(xs, ks);
    var Q := GroupBy(xs, ks);
    assert xs[i] in xs && xs[i'] in xs;
    var k, k' := BlockOf(Q, xs[i]), BlockOf(Q, xs[i']);
    GroupingAt(xs, ks, k, i);
    GroupingAt(xs, ks, k', i');
    if ks[i] == ks[i'] {
      GroupingAt(xs, ks, k, i');
      PartitionLiesOnce(Q, xs, xs[i']);
    }
  }

  /** One round yields a partition of the declared states into non-empty
      blocks, each listed in declaration order, with no more blocks than
      states. */
  lemma RefineStepPartition(d: Description, P: Partition)
    requires Distinct(d.states)
    ensures IsPartition(RefineStep(d, P), d.states)
    ensures forall k :: 0 <= k < |RefineStep(d, P)| ==> |RefineStep(d, P)[k]| > 0
    ensures forall k :: 0 <= k < |RefineStep(d, P)| ==> InOrder(d.states, RefineStep(d, P)[k])
    ensures |RefineStep(d, P)| <= |d.states|
  {
    GroupingPartition(d.states, SigsOf(d, P, d.states));
  }

  /** Two declared states share a block of the next round exactly when their
      signatures agree. */
  lemma RefineStepSameBlock(d: Description, P: Partition, q: State, q': State)
    requires Distinct(d.states) && q in d.states && q' in d.states
    ensures IsPartition(RefineStep(d, P), d.states)
    ensures BlockOf(RefineStep(d, P), q) == BlockOf(RefineStep(d, P), q') <==> SigOf(d, P, q) == SigOf(d, P, q')
  {
    GroupingSameBlock(d.states, SigsOf(d, P, d.states), IndexOf(d.states, q), IndexOf(d.states, q'));
  }

  /** Blocks appear in the order their signatures are first seen: block k's
      first member is the first declared state with its signature, and first
      members come in declaration order. */
  lemma RefineStepFirstSeen(d: Description, P: Partition, k: nat, k': nat)
    requires Distinct(d.states) && k < k' < |RefineStep(d, P)|
    ensures |RefineStep(d, P)[k]| > 0 && |RefineStep(d, P)[k']| > 0
    ensures RefineStep(d, P)[k][0] in d.states && RefineStep(d, P)[k'][0] in d.states
    ensures IndexOf(d.states, RefineStep(d, P)[k][0]) < IndexOf(d.states, RefineStep(d, P)[k'][0])
    ensures forall i :: 0 <= i < IndexOf(d.states, RefineStep(d, P)[k][0]) ==>
              SigOf(d, P, d.states[i]) != SigOf(d, P, RefineStep(d, P)[k][0])
  {
    var Q := RefineStep(d, P);
    var ks := SigsOf(d, P, d.states);
    var sigs := FirstSeen(ks);
    assert Q[k] == Select(d.states, ks, sigs[k]);
    assert Q[k'] == Select(d.states, ks, sigs[k']);
    FirstSeenOrder(ks, k, k');
    SelectHead(d.states, ks, sigs[k]);
    SelectHead(d.states, ks, sigs[k']);
    var p, p' := IndexOf(ks, sigs[k]), IndexOf(ks, sigs[k']);
    IndexOfDistinct(d.states, p);
    IndexOfDistinct(d.states, p');
    forall i | 0 <= i < p ensures SigOf(d, P, d.states[i]) != SigOf(d, P, Q[k][0]) {
      assert ks[i] == SigOf(d, P, d.states[i]) && ks[p] == SigOf(d, P, d.states[p]);
    }
  }

  /** Scanning one more state q either appends it to the block of its
      signature or opens a new block for it at the end. */
  lemma GroupsSnoc(d: Description, P: Partition, xs: seq<State>, q: State)
    ensures |Groups(d, P, xs)| == |FirstSeen(SigsOf(d, P, xs))|
    ensures FirstSeen(SigsOf(d, P, xs + [q])) ==
      var sigs, b := FirstSeen(SigsOf(d, P, xs)), SigOf(d, P, q);
      if b in sigs then sigs else sigs + [b]
    ensures Groups(d, P, xs + [q]) ==
      var sigs, b, G := FirstSeen(SigsOf(d, P, xs)), SigOf(d, P, q), Groups(d, P, xs);
      if b in sigs then G[IndexOf(sigs, b) := G[IndexOf(sigs, b)] + [q]] else G + [[q]]
  {
    assert (xs + [q])[..|xs|] == xs;
    assert SigsOf(d, P, xs + [q]) == SigsOf(d, P, xs) + [SigOf(d, P, q)];
    GroupBySnoc(xs, SigsOf(d, P, xs), q, SigOf(d, P, q));
  }

  /** `minimize`'s inner `for` loop: give each declared state the block of
      its signature, opening a new block at the first unseen signature. */
  method RefineRound(d: Description, P: Partition) returns (Q: Partition)
    requires forall q :: q in d.states ==> q in d.transitions
    ensures Q == RefineStep(d, P)
  {
    Q := [];
    var behaviors: seq<seq<nat>> := [];
    for i := 0 to |d.states|
      invariant behaviors == FirstSeen(SigsOf(d, P, d.states[..i]))
      invariant Q == Groups(d, P, d.states[..i])
    {
      var q := d.states[i];
      var b := FindStateBehavior(P, d.transitions[q]);
      PrefixSnoc(d.states, i);
      GroupsSnoc(d, P, d.states[..i], q);
      if b in behaviors {
        var idx := IndexOf(behaviors, b);
        Q := Q[idx := Q[idx] + [q]];
      } else {
        behaviors := behaviors + [b];
        Q := Q + [[q]];
      }
    }
    assert d.states[..|d.states|] == d.states;
  }

  // ---------------------------------------------------------------------
  // The refinement loop (dfa.ts:49-67)

  /** The `while` loop from the state (previous, current): stop when the two
      have the same number of blocks; otherwise run one more round. The
      source gives no bound on the number of rounds, so at most `fuel` more
      rounds run, and None means the bound was reached first. */
  function Refinement(d: Description, previous: Partition, current: Partition, fuel: nat): Option<Partition>
    decreases fuel
  {
    if |previous| == |current| then Some(current)
    else if fuel == 0 then None
    else Refinement(d, current, RefineStep(d, current), fuel - 1)
  }

  /** The partition `minimize` hands to the quotient construction, with at
      most `fuel` rounds. */
  function FinalPartition(d: Description, fuel: nat): Option<Partition> {
    Refinement(d, [], InitialPartition(d), fuel)
  }

  /** The loop of `minimize` up to the quotient construction. */
  method MinimizePartition(d: Description, fuel: nat) returns (r: Option<Partition>)
    requires forall q :: q in d.states ==> q in d.transitions
    ensures r == FinalPartition(d, fuel)
  {
    var equivalenceClass := InitialEquivalenceClass(d);
    var previous: Partition := [];
    var left := fuel;
    while |previous| != |equivalenceClass|
      invariant Refinement(d, previous, equivalenceClass, left) == FinalPartition(d, fuel)
      decreases left
    {
      if left == 0 {
        return None;
      }
      previous := equivalenceClass;
      equivalenceClass := RefineRound(d, previous);
      left := left - 1;
    }
    r := Some(equivalenceClass);
  }

  /** The partition after n rounds of the loop: `Rounds(d, 0)` is the
      initial partition, and each round refines the one before. */
  function Rounds(d: Description, n: nat): Partition
    decreases n
  {
    if n == 0 then InitialPartition(d) else RefineStep(d, Rounds(d, n - 1))
  }

  /** Round n (n > 0) leaves the number of blocks unchanged: the loop
      condition fails right after it. */
  predicate SameCount(d: Description, n: nat) {
    n > 0 && |Rounds(d, n - 1)| == |Rounds(d, n)|
  }

  /** A round that changes the number of blocks is followed by another. */
  lemma RefinementNext(d: Description, j: nat, fuel: nat)
    requires j > 0 && !SameCount(d, j)
    requires Refinement(d, Rounds(d, j - 1), Rounds(d, j), fuel).Some?
    ensures fuel > 0
    ensures Refinement(d, Rounds(d, j - 1), Rounds(d, j), fuel) == Refinement(d, Rounds(d, j), Rounds(d, j + 1), fuel - 1)
  {
    assert Rounds(d, j + 1) == RefineStep(d, Rounds(d, j));
  }

  /** From the state after j rounds, the loop exits after the first round
      n >= j that leaves the number of blocks unchanged. */
  lemma {:induction false} RefinementRounds(d: Description, j: nat, fuel: nat) returns (n: nat)
    requires j > 0
    requires Refinement(d, Rounds(d, j - 1), Rounds(d, j), fuel).Some?
    ensures j <= n <= j + fuel
    ensures Refinement(d, Rounds(d, j - 1), Rounds(d, j), fuel).value == Rounds(d, n)
    ensures SameCount(d, n) && forall m: nat :: j <= m < n ==> !SameCount(d, m)
    decreases fuel
  {
    if SameCount(d, j) {
      n := j;
    } else {
      RefinementNext(d, j, fuel);
      n := RefinementRounds(d, j + 1, fuel - 1);
      forall m: nat | j <= m < n
        ensures !SameCount(d, m)
      {
        if m == j {
        }
      }
    }
  }

  /** The loop runs at least one round, and it exits right after the FIRST
      round n that leaves the number of blocks unchanged, returning the
      partition of that round. */
  lemma FinalPartitionExit(d: Description, fuel: nat)
    requires FinalPartition(d, fuel).Some?
    ensures exists n: nat :: (0 < n <= fuel && FinalPartition(d, fuel).value == Rounds(d, n)
      && SameCount(d, n) && forall m: nat :: 0 < m < n ==> !SameCount(d, m))
  {
    assert |InitialPartition(d)| == 2;
    assert Rounds(d, 1) == RefineStep(d, Rounds(d, 0));
    var n := RefinementRounds(d, 1, fuel - 1);
    assert 0 < n <= fuel && FinalPartition(d, fuel).value == Rounds(d, n);
  }

  /** Extra fuel does not change a result the loop already reached. */
  lemma {:induction false} RefinementFuel(d: Description, previous: Partition, current: Partition, fuel: nat, more: nat)
    requires Refinement(d, previous, current, fuel).Some?
    ensures Refinement(d, previous, current, fuel + more) == Refinement(d, previous, current, fuel)
    decreases fuel
  {
    if |previous| != |current| {
      RefinementFuel(d, current, RefineStep(d, current), fuel - 1, more);
    }
  }

  /** The final partition is a partition of the declared states into
      non-empty blocks listed in declaration order. */
  lemma FinalPartitionShape(d: Description, fuel: nat)
    requires Distinct(d.states) && FinalPartition(d, fuel).Some?
    ensures IsPartition(FinalPartition(d, fuel).value, d.states)
    ensures forall k :: 0 <= k < |FinalPartition(d, fuel).value| ==> |FinalPartition(d, fuel).value[k]| > 0
    ensures forall k :: 0 <= k < |FinalPartition(d, fuel).value| ==> InOrder(d.states, FinalPartition(d, fuel).value[k])
  {
    FinalPartitionExit(d, fuel);
    var n: nat :| 0 < n <= fuel && FinalPartition(d, fuel).value == Rounds(d, n) && SameCount(d, n);
    RefineStepPartition(d, Rounds(d, n - 1));
  }
}
