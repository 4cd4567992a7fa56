/** The quotient half of `minimize` in dfa-minimizer/src/dfa.ts
    (`equivalenceClassToDFA`), `minimize` itself, and the proof that a
    quotient by a stable, acceptance-respecting partition accepts the same
    strings as the original machine. */
module DfaQuotient {
  import opened Seqs
  import opened Dfa
  import opened DfaPartition

  /** A block's label: its members' names joined with no separator. */
  function Label(b: seq<State>): State {
    if |b| == 0 then "" else b[0] + Label(b[1..])
  }

  /** The label of the last block of P that holds q (the scan over all
      blocks keeps overwriting its result), or None when no block holds q. */
  function LastLabel(P: Partition, q: State): Option<State>
    decreases |P|
  {
    if |P| == 0 then None
    else if q in P[|P| - 1] then Some(Label(P[|P| - 1]))
    else LastLabel(P[..|P| - 1], q)
  }

  /** A block whose first member is a declared state contributes a
      transition entry. */
  predicate HasEntry(d: Description, b: seq<State>) {
    |b| > 0 && b[0] in d.transitions
  }

  /** The targets of the first member of every entry block, and the start
      state, lie in some block, so no label is left undefined. */
  ghost predicate QuotientDefined(d: Description, P: Partition) {
    && LastLabel(P, d.start).Some?
    && forall k :: 0 <= k < |P| && HasEntry(d, P[k]) ==>
         LastLabel(P, d.transitions[P[k][0]].on0).Some? && LastLabel(P, d.transitions[P[k][0]].on1).Some?
  }

  /** The entry of block k: the labels of the blocks holding its first
      member's 0- and 1-targets. */
  function Entry(d: Description, P: Partition, k: nat): Targets
    requires k < |P| && HasEntry(d, P[k]) && QuotientDefined(d, P)
  {
    Targets(LastLabel(P, d.transitions[P[k][0]].on0).value, LastLabel(P, d.transitions[P[k][0]].on1).value)
  }

  /** The keys the first n blocks write into the table, in the order of
      their first writes. */
  function TableKeys(d: Description, P: Partition, n: nat): seq<State>
    requires n <= |P|
  {
    if n == 0 then []
    else
      var keys := TableKeys(d, P, n - 1);
      if HasEntry(d, P[n - 1]) && Label(P[n - 1]) !in keys then keys + [Label(P[n - 1])] else keys
  }

  /** The transition table written by the first n blocks; a later block with
      an equal label overwrites the earlier entry. */
  function Entries(d: Description, P: Partition, n: nat): map<State, Targets>
    requires n <= |P| && QuotientDefined(d, P)
  {
    if n == 0 then map[]
    else if HasEntry(d, P[n - 1]) then Entries(d, P, n - 1)[Label(P[n - 1]) := Entry(d, P, n - 1)]
    else Entries(d, P, n - 1)
  }

  /** The number of occurrences of leader in acc. */
  function Count(acc: seq<State>, leader: State): nat
    decreases |acc|
  {
    if |acc| == 0 then 0 else Count(acc[..|acc| - 1], leader) + (if acc[|acc| - 1] == leader then 1 else 0)
  }

  /** One copy of label for each occurrence of leader in acc. */
  function Pushes(acc: seq<State>, leader: State, name: State): seq<State> {
    seq(Count(acc, leader), _ => name)
  }

  /** The accept labels pushed by the first n blocks. */
  function AcceptLabels(d: Description, P: Partition, n: nat): seq<State>
    requires n <= |P|
  {
    if n == 0 then []
    else AcceptLabels(d, P, n - 1) + (if |P[n - 1]| > 0 then Pushes(d.acceptStates, P[n - 1][0], Label(P[n - 1])) else [])
  }

  /** The quotient description built from P. Its states are listed in the
      order their labels were first written into the table. */
  function Quotient(d: Description, P: Partition): Description
    requires QuotientDefined(d, P)
  {
    Description(
      TableKeys(d, P, |P|),
      Entries(d, P, |P|),
      LastLabel(P, d.start).value,
      AcceptLabels(d, P, |P|))
  }

  // ---------------------------------------------------------------------
  // The construction as the source performs it

  lemma EntriesKeys(d: Description, P: Partition, n: nat, x: State)
    requires n <= |P| && QuotientDefined(d, P)
    ensures x in Entries(d, P, n) <==> x in TableKeys(d, P, n)
  {
    if n > 0 {
      EntriesKeys(d, P, n - 1, x);
    }
  }

  lemma {:induction false} CountPositive(acc: seq<State>, leader: State)
    ensures Count(acc, leader) > 0 <==> leader in acc
    decreases |acc|
  {
    if |acc| > 0 {
      var init := acc[..|acc| - 1];
      assert acc == init + [acc[|acc| - 1]];
      CountPositive(init, leader);
    }
  }

  /** Some copy of label is pushed exactly when leader is accepting. */
  lemma PushesMember(acc: seq<State>, leader: State, name: State, x: State)
    ensures x in Pushes(acc, leader, name) <==> x == name && leader in acc
  {
    CountPositive(acc, leader);
    if Count(acc, leader) > 0 {
      assert Pushes(acc, leader, name)[0] == name;
    }
  }

  lemma PushesSnoc(acc: seq<State>, a: nat, leader: State, name: State)
    requires a < |acc|
    ensures Pushes(acc[..a + 1], leader, name) == Pushes(acc[..a], leader, name) + (if acc[a] == leader then [name] else [])
  {
    assert acc[..a + 1][..a] == acc[..a];
  }

  /** `equivalenceClassToDFA`: for every block, write its entry, push its
      label once per matching accept state, and take its label as start
      when it holds `start`. */
  method EquivalenceClassToDFA(d: Description, P: Partition) returns (r: Description)
    requires KeyOrder(d) && QuotientDefined(d, P)
    ensures r == Quotient(d, P)
  {
    var newStates: seq<State> := [];
    var newTransitions: map<State, Targets> := map[];
    var newStart: Option<State> := None;
    var newAcceptStates: seq<State> := [];
    for i := 0 to |P|
      invariant newStates == TableKeys(d, P, i)
      invariant newTransitions == Entries(d, P, i)
      invariant newStart == LastLabel(P[..i], d.start)
      invariant newAcceptStates == AcceptLabels(d, P, i)
    {
      var group := P[i];
      newStates, newTransitions := WriteEntry(d, P, i, newStates, newTransitions);
      newAcceptStates := PushAccepting(d.acceptStates, group, newAcceptStates);
      LastLabelSnoc(P, i, d.start);
      if d.start in group {
        newStart := Some(Label(group));
      }
    }
    assert P[..|P|] == P;
    r := Description(newStates, newTransitions, newStart.value, newAcceptStates);
  }

  /** The scan over the declared states for block i's first member, which
      writes the block's entry (adding its label to the key order when it
      is new). */
  method WriteEntry(d: Description, P: Partition, i: nat, states: seq<State>, transitions: map<State, Targets>)
    returns (states': seq<State>, transitions': map<State, Targets>)
    requires KeyOrder(d) && QuotientDefined(d, P) && i < |P|
    requires states == TableKeys(d, P, i) && transitions == Entries(d, P, i)
    ensures states' == TableKeys(d, P, i + 1) && transitions' == Entries(d, P, i + 1)
  {
    var group := P[i];
    var name := Label(group);
    states', transitions' := states, transitions;
    ghost var upTo := i;
    for j := 0 to |d.states|
      invariant upTo == if |group| > 0 && group[0] in d.states[..j] then i + 1 else i
      invariant states' == TableKeys(d, P, upTo) && transitions' == Entries(d, P, upTo)
    {
      var state := d.states[j];
      PrefixSnoc(d.states, j);
      if |group| > 0 && group[0] == state {
        assert state !in d.states[..j];
        assert upTo == i;
        var t0, t1 := TargetLabels(P, d.transitions[state]);
        EntryStep(d, P, i);
        if name !in transitions' {
          states' := states' + [name];
        }
        transitions' := transitions'[name := Targets(t0, t1)];
        upTo := i + 1;
      }
    }
    assert d.states[..|d.states|] == d.states;
    if HasEntry(d, group) {
      assert group[0] in d.states[..|d.states|];
    }
  }

  /** What an entry block adds to the key order and to the table. */
  lemma EntryStep(d: Description, P: Partition, i: nat)
    requires QuotientDefined(d, P) && i < |P| && HasEntry(d, P[i])
    ensures TableKeys(d, P, i + 1) ==
      if Label(P[i]) in Entries(d, P, i) then TableKeys(d, P, i) else TableKeys(d, P, i) + [Label(P[i])]
    ensures Entries(d, P, i + 1) == Entries(d, P, i)[Label(P[i]) := Entry(d, P, i)]
  {
    EntriesKeys(d, P, i, Label(P[i]));
  }

  /** The scan over `acceptStates` that pushes the group's label once for
      each occurrence of its first member. */
  method PushAccepting(acceptStates: seq<State>, group: seq<State>, pushed: seq<State>) returns (pushed': seq<State>)
    ensures pushed' == pushed + (if |group| > 0 then Pushes(acceptStates, group[0], Label(group)) else [])
  {
    pushed' := pushed;
    for a := 0 to |acceptStates|
      invariant pushed' == pushed + (if |group| > 0 then Pushes(acceptStates[..a], group[0], Label(group)) else [])
    {
      if |group| > 0 {
        PushesSnoc(acceptStates, a, group[0], Label(group));
      }
      if |group| > 0 && group[0] == acceptStates[a] {
        pushed' := pushed' + [Label(group)];
      }
    }
    assert acceptStates[..|acceptStates|] == acceptStates;
  }

  lemma LastLabelSnoc(P: Partition, i: nat, q: State)
    requires i < |P|
    ensures LastLabel(P[..i + 1], q) == if q in P[i] then Some(Label(P[i])) else LastLabel(P[..i], q)
  {
    assert P[..i + 1][..i] == P[..i];
  }

  /** The inner scan over all blocks for the labels of one state's targets. */
  method TargetLabels(P: Partition, t: Targets) returns (t0: State, t1: State)
    requires LastLabel(P, t.on0).Some? && LastLabel(P, t.on1).Some?
    ensures t0 == LastLabel(P, t.on0).value && t1 == LastLabel(P, t.on1).value
  {
    var l0: Option<State> := None;
    var l1: Option<State> := None;
    for g := 0 to |P|
      invariant l0 == LastLabel(P[..g], t.on0)
      invariant l1 == LastLabel(P[..g], t.on1)
    {
      assert P[..g + 1][..g] == P[..g];
      if t.on0 in P[g] {
        l0 := Some(Label(P[g]));
      }
      if t.on1 in P[g] {
        l1 := Some(Label(P[g]));
      }
    }
    assert P[..|P|] == P;
    t0, t1 := l0.value, l1.value;
  }

  // ---------------------------------------------------------------------
  // What the quotient is, for a proper partition

  /** A partition of the declared states into non-empty blocks with
      pairwise different labels. */
  ghost predicate Proper(d: Description, P: Partition) {
    && IsPartition(P, d.states)
    && NonEmptyBlocks(P)
    && LabelsDistinct(P)
  }

  /** No block is empty. */
  ghost predicate NonEmptyBlocks(P: Partition) {
    forall k :: 0 <= k < |P| ==> |P[k]| > 0
  }

  /** No two blocks share a label. */
  ghost predicate LabelsDistinct(P: Partition) {
    forall i, j :: 0 <= i < j < |P| ==> Label(P[i]) != Label(P[j])
  }

  /** q and r lie in a common block. */
  ghost predicate SameBlock(P: Partition, q: State, r: State) {
    exists j :: 0 <= j < |P| && q in P[j] && r in P[j]
  }

  /** Every member of a block sends each symbol into the same block as the
      block's first member does. */
  ghost predicate Stable(d: Description, P: Partition) {
    forall k, i :: 0 <= k < |P| && 0 <= i < |P[k]| ==> StableAt(d, P, k, i)
  }

  /** Member i of block k moves like the block's first member. */
  ghost predicate StableAt(d: Description, P: Partition, k: nat, i: nat)
    requires k < |P| && i < |P[k]|
  {
    && P[k][i] in d.transitions && P[k][0] in d.transitions
    && SameBlock(P, d.transitions[P[k][i]].on0, d.transitions[P[k][0]].on0)
    && SameBlock(P, d.transitions[P[k][i]].on1, d.transitions[P[k][0]].on1)
  }

  /** Every member of a block is accepting exactly when its first member is. */
  ghost predicate RespectsAcceptance(d: Description, P: Partition) {
    forall k, i :: 0 <= k < |P| && 0 <= i < |P[k]| ==> (P[k][i] in d.acceptStates <==> P[k][0] in d.acceptStates)
  }

  /** A state lying only in block k is labelled by block k. */
  lemma {:induction false} LastLabelOnly(P: Partition, q: State, k: nat)
    requires k < |P| && q in P[k] && forall j :: 0 <= j < |P| && j != k ==> q !in P[j]
    ensures LastLabel(P, q) == Some(Label(P[k]))
    decreases |P|
  {
    var n := |P| - 1;
    if k < n {
      assert P[..n][k] == P[k];
      LastLabelOnly(P[..n], q, k);
    }
  }

  /** In a partition, a member's label is that of its block. */
  lemma LastLabelInPartition(P: Partition, xs: seq<State>, q: State)
    requires IsPartition(P, xs) && q in xs
    ensures LastLabel(P, q) == Some(Label(P[BlockOf(P, q)]))
  {
    PartitionLiesOnce(P, xs, q);
    LastLabelOnly(P, q, BlockOf(P, q));
  }

  /** Over a partition of the states of a well-formed description, every
      label the construction needs is defined. */
  lemma PartitionQuotientDefined(d: Description, P: Partition)
    requires WellFormed(d) && IsPartition(P, d.states)
    ensures QuotientDefined(d, P)
  {
    LastLabelInPartition(P, d.states, d.start);
    forall k | 0 <= k < |P| && HasEntry(d, P[k])
      ensures LastLabel(P, d.transitions[P[k][0]].on0).Some? && LastLabel(P, d.transitions[P[k][0]].on1).Some?
    {
      var q := P[k][0];
      assert TargetsDeclared(d, q);
      LastLabelInPartition(P, d.states, d.transitions[q].on0);
      LastLabelInPartition(P, d.states, d.transitions[q].on1);
    }
  }

  lemma {:induction false} EntriesAt(d: Description, P: Partition, n: nat, k: nat)
    requires n <= |P| && k < n && QuotientDefined(d, P) && HasEntry(d, P[k])
    requires LabelsDistinct(P)
    ensures Label(P[k]) in Entries(d, P, n) && Entries(d, P, n)[Label(P[k])] == Entry(d, P, k)
    decreases n
  {
    if k < n - 1 {
      EntriesAt(d, P, n - 1, k);
    }
  }

  /** Among blocks with pairwise different labels, block k's label is
      pushed by the first n blocks exactly when k is one of them and its
      first member is accepting. */
  lemma {:induction false} AcceptLabelsAt(d: Description, P: Partition, n: nat, k: nat)
    requires n <= |P| && k < |P| && |P[k]| > 0
    requires forall j :: 0 <= j < |P| && j != k ==> Label(P[j]) != Label(P[k])
    ensures Label(P[k]) in AcceptLabels(d, P, n) <==> k < n && P[k][0] in d.acceptStates
    decreases n
  {
    if n > 0 {
      AcceptLabelsAt(d, P, n - 1, k);
      var x := Label(P[k]);
      var rest := AcceptLabels(d, P, n - 1);
      var last := if |P[n - 1]| > 0 then Pushes(d.acceptStates, P[n - 1][0], Label(P[n - 1])) else [];
      assert AcceptLabels(d, P, n) == rest + last;
      assert x in rest + last <==> x in rest || x in last;
      if |P[n - 1]| > 0 {
        PushesMember(d.acceptStates, P[n - 1][0], Label(P[n - 1]), x);
        if k == n - 1 {
          assert x in last <==> P[k][0] in d.acceptStates;
        } else {
          assert Label(P[n - 1]) != x;
          assert x !in last;
        }
      } else {
        assert k != n - 1 && last == [];
      }
    }
  }

  /** With every block an entry block and labels pairwise different, the
      keys are the blocks' labels in block order. */
  lemma {:induction false} TableKeysAll(d: Description, P: Partition, n: nat)
    requires n <= |P| && LabelsDistinct(P) && forall k :: 0 <= k < |P| ==> HasEntry(d, P[k])
    ensures TableKeys(d, P, n) == seq(n, k requires 0 <= k < n => Label(P[k]))
    decreases n
  {
    if n > 0 {
      TableKeysAll(d, P, n - 1);
      assert Label(P[n - 1]) !in TableKeys(d, P, n - 1);
    }
  }

  /** No key is written into the key order twice. */
  lemma {:induction false} TableKeysDistinct(d: Description, P: Partition, n: nat)
    requires n <= |P|
    ensures Distinct(TableKeys(d, P, n))
    decreases n
  {
    if n > 0 {
      TableKeysDistinct(d, P, n - 1);
    }
  }


  /** The label of the block of a partition that holds q. */
  ghost function BlockLabel(P: Partition, xs: seq<State>, q: State): State
    requires IsPartition(P, xs) && q in xs
  {
    Label(P[BlockOf(P, q)])
  }

  /** Every block of a proper partition writes an entry. */
  lemma ProperEntries(d: Description, P: Partition)
    requires WellFormed(d) && Proper(d, P)
    ensures forall k :: 0 <= k < |P| ==> HasEntry(d, P[k])
  {
    forall k | 0 <= k < |P| ensures HasEntry(d, P[k]) {
      assert P[k][0] in P[k];
    }
  }

  /** The quotient by a proper partition has one state per block, named by
      the block's label, in block order. */
  lemma QuotientStates(d: Description, P: Partition)
    requires WellFormed(d) && Proper(d, P)
    ensures QuotientDefined(d, P)
    ensures Quotient(d, P).states == seq(|P|, k requires 0 <= k < |P| => Label(P[k]))
    ensures KeyOrder(Quotient(d, P))
  {
    PartitionQuotientDefined(d, P);
    ProperEntries(d, P);
    TableKeysAll(d, P, |P|);
    QuotientKeyOrder(d, P);
  }

  /** The quotient starts in the block of `start`. */
  lemma QuotientStart(d: Description, P: Partition)
    requires WellFormed(d) && Proper(d, P)
    ensures QuotientDefined(d, P)
    ensures Quotient(d, P).start == BlockLabel(P, d.states, d.start)
  {
    PartitionQuotientDefined(d, P);
    LastLabelInPartition(P, d.states, d.start);
  }

  /** Block k's entry sends each symbol to the block of the corresponding
      target of the block's first member. */
  lemma QuotientTable(d: Description, P: Partition, k: nat)
    requires WellFormed(d) && Proper(d, P) && k < |P|
    ensures QuotientDefined(d, P)
    ensures P[k][0] in d.transitions
    ensures d.transitions[P[k][0]].on0 in d.states && d.transitions[P[k][0]].on1 in d.states
    ensures Label(P[k]) in Quotient(d, P).transitions
    ensures Quotient(d, P).transitions[Label(P[k])] ==
      Targets(BlockLabel(P, d.states, d.transitions[P[k][0]].on0), BlockLabel(P, d.states, d.transitions[P[k][0]].on1))
  {
    PartitionQuotientDefined(d, P);
    var q := P[k][0];
    assert q in P[k];
    assert TargetsDeclared(d, q);
    EntriesAt(d, P, |P|, k);
    LastLabelInPartition(P, d.states, d.transitions[q].on0);
    LastLabelInPartition(P, d.states, d.transitions[q].on1);
  }

  /** Block k is accepting in the quotient exactly when its first member is
      accepting in the original. */
  lemma QuotientAccepting(d: Description, P: Partition, k: nat)
    requires WellFormed(d) && Proper(d, P) && k < |P|
    ensures QuotientDefined(d, P)
    ensures Label(P[k]) in Quotient(d, P).acceptStates <==> P[k][0] in d.acceptStates
  {
    PartitionQuotientDefined(d, P);
    assert forall j :: 0 <= j < |P| && j != k ==> Label(P[j]) != Label(P[k]) by {
      assert LabelsDistinct(P);
    }
    AcceptLabelsAt(d, P, |P|, k);
  }

  /** Two states lying in a common block of a partition share BlockOf. */
  lemma SameBlockOf(P: Partition, xs: seq<State>, q: State, r: State)
    requires IsPartition(P, xs) && SameBlock(P, q, r)
    ensures BlockOf(P, q) == BlockOf(P, r)
  {
    var j :| 0 <= j < |P| && q in P[j] && r in P[j];
    PartitionLiesOnce(P, xs, q);
    PartitionLiesOnce(P, xs, r);
  }

  /** In a stable partition, q's target on c lies in the block the quotient
      moves q's block to on c. */
  lemma QuotientStep(d: Description, P: Partition, q: State, c: char)
    requires WellFormed(d) && Proper(d, P) && Stable(d, P)
    requires q in d.states && IsBit(c)
    ensures QuotientDefined(d, P)
    ensures Transition(d, q, c) in d.states
    ensures BlockLabel(P, d.states, q) in Quotient(d, P).transitions
    ensures Transition(Quotient(d, P), BlockLabel(P, d.states, q), c) == BlockLabel(P, d.states, Transition(d, q, c))
  {
    var k := BlockOf(P, q);
    var i := IndexOf(P[k], q);
    QuotientTable(d, P, k);
    assert TargetsDeclared(d, q);
    var leader := P[k][0];
    assert P[k][i] == q && StableAt(d, P, k, i);
    if c == '0' {
      SameBlockOf(P, d.states, d.transitions[q].on0, d.transitions[leader].on0);
    } else {
      SameBlockOf(P, d.states, d.transitions[q].on1, d.transitions[leader].on1);
    }
  }

  /** Walking the quotient from the label of q's block tracks the block of
      the state the original walk reaches. */
  lemma {:induction false} QuotientRun(d: Description, P: Partition, q: State, s: string)
    requires WellFormed(d) && Proper(d, P) && Stable(d, P)
    requires q in d.states && IsBinary(s)
    ensures QuotientDefined(d, P)
    ensures RunDefined(d, q, s) && Run(d, q, s) in d.states
    ensures RunDefined(Quotient(d, P), BlockLabel(P, d.states, q), s)
    ensures Run(Quotient(d, P), BlockLabel(P, d.states, q), s) == BlockLabel(P, d.states, Run(d, q, s))
    decreases |s|
  {
    PartitionQuotientDefined(d, P);
    if |s| > 0 {
      assert IsBinary(s[1..]) by {
        forall i | 0 <= i < |s[1..]| ensures IsBit(s[1..][i]) { assert s[1..][i] == s[i + 1]; }
      }
      QuotientStep(d, P, q, s[0]);
      QuotientRun(d, P, Transition(d, q, s[0]), s[1..]);
    }
  }

  /** The quotient by a proper, stable, acceptance-respecting partition
      accepts exactly the binary strings the original accepts. */
  lemma QuotientPreservesLanguage(d: Description, P: Partition, s: string)
    requires WellFormed(d) && Proper(d, P) && Stable(d, P) && RespectsAcceptance(d, P)
    requires IsBinary(s)
    ensures QuotientDefined(d, P)
    ensures RunDefined(d, d.start, s) && RunDefined(Quotient(d, P), Quotient(d, P).start, s)
    ensures Accepted(Quotient(d, P), s) == Accepted(d, s)
  {
    QuotientStart(d, P);
    QuotientRun(d, P, d.start, s);
    var r := Run(d, d.start, s);
    var k := BlockOf(P, r);
    var i := IndexOf(P[k], r);
    QuotientAccepting(d, P, k);
    assert P[k][i] in d.acceptStates <==> P[k][0] in d.acceptStates;
  }

  /** A partition that one more round reproduces is stable: members of a
      block share their signature, so their targets share blocks. */
  lemma RoundFixpointStable(d: Description, P: Partition)
    requires WellFormed(d) && RefineStep(d, P) == P
    ensures IsPartition(P, d.states) && NonEmptyBlocks(P)
    ensures Stable(d, P)
  {
    RefineStepPartition(d, P);
    forall k, i | 0 <= k < |P| && 0 <= i < |P[k]| ensures StableAt(d, P, k, i) {
      FixpointStableAt(d, P, k, i);
    }
  }

  lemma FixpointStableAt(d: Description, P: Partition, k: nat, i: nat)
    requires WellFormed(d) && RefineStep(d, P) == P && IsPartition(P, d.states)
    requires k < |P| && i < |P[k]|
    ensures StableAt(d, P, k, i)
  {
    var q, l := P[k][i], P[k][0];
    assert q in P[k] && l in P[k];
    PartitionLiesOnce(P, d.states, q);
    PartitionLiesOnce(P, d.states, l);
    RefineStepSameBlock(d, P, q, l);
    assert TargetsDeclared(d, q) && TargetsDeclared(d, l);
    var t, u := d.transitions[q], d.transitions[l];
    SignatureInPartition(P, d.states, t);
    SignatureInPartition(P, d.states, u);
    assert BlockOf(P, t.on0) == BlockOf(P, u.on0) && BlockOf(P, t.on1) == BlockOf(P, u.on1);
  }

  /** The quotient by a partition that one more round reproduces, whose
      blocks agree on acceptance and carry distinct labels, accepts exactly
      the binary strings the original accepts. */
  lemma FixpointPreservesLanguage(d: Description, P: Partition, s: string)
    requires WellFormed(d) && RefineStep(d, P) == P
    requires LabelsDistinct(P) && RespectsAcceptance(d, P) && IsBinary(s)
    ensures QuotientDefined(d, P)
    ensures RunDefined(d, d.start, s) && RunDefined(Quotient(d, P), Quotient(d, P).start, s)
    ensures Accepted(Quotient(d, P), s) == Accepted(d, s)
  {
    RoundFixpointStable(d, P);
    QuotientPreservesLanguage(d, P, s);
  }

  // ---------------------------------------------------------------------
  // minimize (dfa.ts:44-69)

  /** The machine `minimize` returns when the loop settles within `fuel`
      rounds. */
  function Minimized(d: Description, fuel: nat): Option<Description>
    requires WellFormed(d)
  {
    match FinalPartition(d, fuel)
    case None => None
    case Some(P) =>
      FinalPartitionShape(d, fuel);
      PartitionQuotientDefined(d, P);
      Some(Quotient(d, P))
  }

  /** `minimize`: refine until the block count stops changing, then build
      the quotient. */
  method Minimize(d: Description, fuel: nat) returns (r: Option<Description>)
    requires WellFormed(d)
    ensures r == Minimized(d, fuel)
    ensures r.Some? ==> KeyOrder(r.value)
  {
    var classes := MinimizePartition(d, fuel);
    match classes
    case None =>
      r := None;
    case Some(P) =>
      FinalPartitionShape(d, fuel);
      PartitionQuotientDefined(d, P);
      QuotientKeyOrder(d, P);
      var m := EquivalenceClassToDFA(d, P);
      r := Some(m);
  }

  /** When the loop's final partition is reproduced by one more round,
      agrees on acceptance and has distinct labels, the machine `minimize`
      returns accepts exactly the binary strings the original accepts. */
  lemma MinimizedPreservesLanguage(d: Description, fuel: nat, s: string)
    requires WellFormed(d) && FinalPartition(d, fuel).Some?
    requires RefineStep(d, FinalPartition(d, fuel).value) == FinalPartition(d, fuel).value
    requires LabelsDistinct(FinalPartition(d, fuel).value) && RespectsAcceptance(d, FinalPartition(d, fuel).value)
    requires IsBinary(s)
    ensures Minimized(d, fuel).Some?
    ensures RunDefined(d, d.start, s) && RunDefined(Minimized(d, fuel).value, Minimized(d, fuel).value.start, s)
    ensures Accepted(Minimized(d, fuel).value, s) == Accepted(d, s)
  {
    FixpointPreservesLanguage(d, FinalPartition(d, fuel).value, s);
  }

  /** Whatever the partition, the quotient lists each of its table's keys
      exactly once. */
  lemma QuotientKeyOrder(d: Description, P: Partition)
    requires QuotientDefined(d, P)
    ensures KeyOrder(Quotient(d, P))
  {
    var Q := Quotient(d, P);
    TableKeysDistinct(d, P, |P|);
    forall x ensures x in Q.transitions <==> x in Q.states {
      EntriesKeys(d, P, |P|, x);
    }
  }
}
