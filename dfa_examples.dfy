/** The machines of dfa-minimizer/src/dfa.spec.ts stated in the model, with
    lemmas giving their initial partitions, their signatures under it, every
    refinement round, the partition the loop settles on, the quotient and
    the language each machine accepts. Each machine is stated
    over arbitrary distinct state names, and one lemma per machine shows
    that the names used by the tests fit. */
module DfaExamples {
  import opened Seqs
  import opened Dfa
  import opened DfaPartition
  import opened DfaQuotient

  // ---------------------------------------------------------------------
  // Grouping a short list of keys, one element at a time

  /** An element with a key not seen before opens a group at the end. */
  lemma GroupNew<T, K>(xs: seq<T>, ks: seq<K>, q: T, b: K, keys: seq<K>, G: seq<seq<T>>,
                       xs': seq<T>, ks': seq<K>, keys': seq<K>, G': seq<seq<T>>)
    requires |xs| == |ks| && FirstSeen(ks) == keys && GroupBy(xs, ks) == G && b !in keys
    requires xs' == xs + [q] && ks' == ks + [b] && keys' == keys + [b] && G' == G + [[q]]
    ensures |xs'| == |ks'| && FirstSeen(ks') == keys' && GroupBy(xs', ks') == G'
  {
    GroupBySnoc(xs, ks, q, b);
  }

  /** An element with the k-th key seen joins group k. */
  lemma GroupOld<T, K>(xs: seq<T>, ks: seq<K>, q: T, k: nat, keys: seq<K>, G: seq<seq<T>>,
                       xs': seq<T>, ks': seq<K>, G': seq<seq<T>>)
    requires |xs| == |ks| && FirstSeen(ks) == keys && GroupBy(xs, ks) == G && k < |keys|
    requires xs' == xs + [q] && ks' == ks + [keys[k]] && |G| == |keys| && G' == G[k := G[k] + [q]]
    ensures |xs'| == |ks'| && FirstSeen(ks') == keys && GroupBy(xs', ks') == G'
  {
    GroupBySnoc(xs, ks, q, keys[k]);
    IndexOfDistinct(keys, k);
  }

  lemma GroupSame2<T, K>(a: T, b: T, u: K)
    ensures FirstSeen([u, u]) == [u] && GroupBy([a, b], [u, u]) == [[a, b]]
  {
    GroupNew([], [], a, u, [], [], [a], [u], [u], [[a]]);
    GroupOld([a], [u], b, 0, [u], [[a]], [a, b], [u, u], [[a, b]]);
  }

  lemma GroupDistinct2<T, K>(a: T, b: T, u: K, v: K)
    requires u != v
    ensures FirstSeen([u, v]) == [u, v] && GroupBy([a, b], [u, v]) == [[a], [b]]
  {
    GroupNew([], [], a, u, [], [], [a], [u], [u], [[a]]);
    GroupNew([a], [u], b, v, [u], [[a]], [a, b], [u, v], [u, v], [[a], [b]]);
  }

  lemma GroupDistinct3<T, K>(a: T, b: T, c: T, u: K, v: K, w: K)
    requires u != v && u != w && v != w
    ensures FirstSeen([u, v, w]) == [u, v, w] && GroupBy([a, b, c], [u, v, w]) == [[a], [b], [c]]
  {
    GroupDistinct2(a, b, u, v);
    GroupNew([a, b], [u, v], c, w, [u, v], [[a], [b]], [a, b, c], [u, v, w], [u, v, w], [[a], [b], [c]]);
  }

  lemma GroupSameFirst3<T, K>(a: T, b: T, c: T, u: K, v: K)
    requires u != v
    ensures GroupBy([a, b, c], [u, u, v]) == [[a, b], [c]]
  {
    GroupSame2(a, b, u);
    GroupNew([a, b], [u, u], c, v, [u], [[a, b]], [a, b, c], [u, u, v], [u, v], [[a, b], [c]]);
  }

  lemma GroupA4<T, K>(a: T, b: T, c: T, d: T, u: K, v: K)
    requires u != v
    ensures FirstSeen([u, u, u, v]) == [u, v] && GroupBy([a, b, c, d], [u, u, u, v]) == [[a, b, c], [d]]
  {
    GroupSame2(a, b, u);
    GroupOld([a, b], [u, u], c, 0, [u], [[a, b]], [a, b, c], [u, u, u], [[a, b, c]]);
    GroupNew([a, b, c], [u, u, u], d, v, [u], [[a, b, c]], [a, b, c, d], [u, u, u, v], [u, v], [[a, b, c], [d]]);
  }

  /** The grouping of the first round of startsWith010. */
  lemma GroupA6<T, K>(a: T, b: T, c: T, d: T, e: T, f: T, u: K, v: K, w: K)
    requires u != v && u != w && v != w
    ensures GroupBy([a, b, c, d, e, f], [u, u, u, v, u, w]) == [[a, b, c, e], [d], [f]]
  {
    GroupA4(a, b, c, d, u, v);
    assert [a, b, c] + [e] == [a, b, c, e];
    GroupOld([a, b, c, d], [u, u, u, v], e, 0, [u, v], [[a, b, c], [d]], [a, b, c, d, e], [u, u, u, v, u], [[a, b, c, e], [d]]);
    GroupNew([a, b, c, d, e], [u, u, u, v, u], f, w, [u, v], [[a, b, c, e], [d]],
             [a, b, c, d, e, f], [u, u, u, v, u, w], [u, v, w], [[a, b, c, e], [d], [f]]);
  }

  lemma GroupB4<T, K>(a: T, b: T, c: T, d: T, u: K, v: K, w: K)
    requires u != v && u != w && v != w
    ensures FirstSeen([u, v, u, w]) == [u, v, w] && GroupBy([a, b, c, d], [u, v, u, w]) == [[a, c], [b], [d]]
  {
    GroupDistinct2(a, b, u, v);
    assert [a] + [c] == [a, c];
    GroupOld([a, b], [u, v], c, 0, [u, v], [[a], [b]], [a, b, c], [u, v, u], [[a, c], [b]]);
    GroupNew([a, b, c], [u, v, u], d, w, [u, v], [[a, c], [b]], [a, b, c, d], [u, v, u, w], [u, v, w], [[a, c], [b], [d]]);
  }

  /** The grouping of the second round of startsWith010. */
  lemma GroupB6<T, K>(a: T, b: T, c: T, d: T, e: T, f: T, u: K, v: K, w: K, x: K)
    requires u != v && u != w && u != x && v != w && v != x && w != x
    ensures GroupBy([a, b, c, d, e, f], [u, v, u, w, u, x]) == [[a, c, e], [b], [d], [f]]
  {
    GroupB4(a, b, c, d, u, v, w);
    assert [a, c] + [e] == [a, c, e];
    GroupOld([a, b, c, d], [u, v, u, w], e, 0, [u, v, w], [[a, c], [b], [d]], [a, b, c, d, e], [u, v, u, w, u], [[a, c, e], [b], [d]]);
    GroupNew([a, b, c, d, e], [u, v, u, w, u], f, x, [u, v, w], [[a, c, e], [b], [d]],
             [a, b, c, d, e, f], [u, v, u, w, u, x], [u, v, w, x], [[a, c, e], [b], [d], [f]]);
  }

  lemma GroupC4<T, K>(a: T, b: T, c: T, d: T, u: K, v: K, w: K, x: K)
    requires u != v && u != w && u != x && v != w && v != x && w != x
    ensures FirstSeen([u, v, w, x]) == [u, v, w, x] && GroupBy([a, b, c, d], [u, v, w, x]) == [[a], [b], [c], [d]]
  {
    GroupDistinct3(a, b, c, u, v, w);
    GroupNew([a, b, c], [u, v, w], d, x, [u, v, w], [[a], [b], [c]], [a, b, c, d], [u, v, w, x], [u, v, w, x], [[a], [b], [c], [d]]);
  }

  /** The grouping of the last two rounds of startsWith010. */
  lemma GroupC6<T, K>(a: T, b: T, c: T, d: T, e: T, f: T, u: K, v: K, w: K, x: K, y: K)
    requires u != v && u != w && u != x && u != y && v != w && v != x && v != y && w != x && w != y && x != y
    ensures GroupBy([a, b, c, d, e, f], [u, v, w, x, w, y]) == [[a], [b], [c, e], [d], [f]]
  {
    GroupC4(a, b, c, d, u, v, w, x);
    assert [c] + [e] == [c, e];
    GroupOld([a, b, c, d], [u, v, w, x], e, 2, [u, v, w, x], [[a], [b], [c], [d]], [a, b, c, d, e], [u, v, w, x, w], [[a], [b], [c, e], [d]]);
    GroupNew([a, b, c, d, e], [u, v, w, x, w], f, y, [u, v, w, x], [[a], [b], [c, e], [d]],
             [a, b, c, d, e, f], [u, v, w, x, w, y], [u, v, w, x, y], [[a], [b], [c, e], [d], [f]]);
  }

  /** A round is the grouping of the declared states by any list that
      holds their signatures. */
  lemma RoundByKeys(d: Description, P: Partition, ks: seq<seq<nat>>)
    requires |ks| == |d.states| && forall i :: 0 <= i < |ks| ==> SigOf(d, P, d.states[i]) == ks[i]
    ensures RefineStep(d, P) == GroupBy(d.states, ks)
  {
    assert SigsOf(d, P, d.states) == ks;
  }

  /** A declared state whose targets each lie exactly once in P has the
      pair of their blocks as signature. */
  lemma SigOfTargets(d: Description, P: Partition, q: State, t0: State, t1: State, k0: nat, k1: nat)
    requires q in d.transitions && d.transitions[q] == Targets(t0, t1)
    requires LiesOnceIn(P, t0, k0) && LiesOnceIn(P, t1, k1)
    ensures SigOf(d, P, q) == [k0, k1]
  {
    SignatureOfTargets(P, d.transitions[q], k0, k1);
  }

  /** A one-state block is labelled by that state. */
  lemma SingleLabel(q: State)
    ensures Label([q]) == q
  {
    assert [q][1..] == [];
    assert q + "" == q;
  }

  /** When the loop's final partition P is a fixpoint of the round, agrees
      on acceptance and has distinct labels, `minimize` returns one state
      per block, listed as L lists the labels, and the language of the
      original. */
  lemma SettledMinimized(d: Description, fuel: nat, P: Partition, L: seq<State>)
    requires WellFormed(d) && FinalPartition(d, fuel) == Some(P)
    requires RefineStep(d, P) == P && LabelsDistinct(P) && RespectsAcceptance(d, P)
    requires |L| == |P| && forall k :: 0 <= k < |P| ==> L[k] == Label(P[k])
    ensures Minimized(d, fuel).Some? && Minimized(d, fuel).value.states == L
    ensures forall s :: IsBinary(s) ==>
      && RunDefined(d, d.start, s) && RunDefined(Minimized(d, fuel).value, Minimized(d, fuel).value.start, s)
      && Accepted(Minimized(d, fuel).value, s) == Accepted(d, s)
  {
    SettledStates(d, P, L);
    forall s | IsBinary(s)
      ensures RunDefined(d, d.start, s) && RunDefined(Minimized(d, fuel).value, Minimized(d, fuel).value.start, s)
      ensures Accepted(Minimized(d, fuel).value, s) == Accepted(d, s)
    {
      MinimizedPreservesLanguage(d, fuel, s);
    }
  }

  /** The quotient by a fixpoint of the round lists the labels in block
      order. */
  lemma SettledStates(d: Description, P: Partition, L: seq<State>)
    requires WellFormed(d) && RefineStep(d, P) == P && LabelsDistinct(P)
    requires |L| == |P| && forall k :: 0 <= k < |P| ==> L[k] == Label(P[k])
    ensures QuotientDefined(d, P) && Quotient(d, P).states == L
  {
    RoundFixpointStable(d, P);
    QuotientStates(d, P);
  }

  /** Walking from a state that moves to itself on both symbols stays
      there. */
  lemma {:induction false} Absorbing(d: Description, q: State, w: string)
    requires q in d.transitions && d.transitions[q] == Targets(q, q) && IsBinary(w)
    ensures RunDefined(d, q, w) && Run(d, q, w) == q
    decreases |w|
  {
    if |w| > 0 {
      Absorbing(d, q, w[1..]);
    }
  }

  // ---------------------------------------------------------------------
  // startsWith0 (dfa.spec.ts:15-39)

  ghost predicate StartsWith0Table(d: Description, s: State, a: State, b: State) {
    && s != a && s != b && a != b
    && d.states == [s, a, b]
    && d.transitions.Keys == {s, a, b}
    && d.transitions[s] == Targets(a, b) && d.transitions[a] == Targets(a, a) && d.transitions[b] == Targets(b, b)
    && d.start == s && d.acceptStates == [a]
  }

  function StartsWith0(): Description {
    Description(["S", "A", "B"],
      map["S" := Targets("A", "B"), "A" := Targets("A", "A"), "B" := Targets("B", "B")],
      "S", ["A"])
  }

  lemma StartsWith0Names()
    ensures StartsWith0Table(StartsWith0(), "S", "A", "B")
  {
  }

  /** The strings the tests list as accepted (dfa.spec.ts:34). */
  lemma StartsWith0Accepts()
    ensures RunDefined(StartsWith0(), "S", "0") && Accepted(StartsWith0(), "0")
    ensures RunDefined(StartsWith0(), "S", "01") && Accepted(StartsWith0(), "01")
    ensures RunDefined(StartsWith0(), "S", "00000") && Accepted(StartsWith0(), "00000")
    ensures RunDefined(StartsWith0(), "S", "0111111") && Accepted(StartsWith0(), "0111111")
  {
  }

  /** The strings the tests list as rejected (dfa.spec.ts:35). */
  lemma StartsWith0Rejects()
    ensures RunDefined(StartsWith0(), "S", "") && !Accepted(StartsWith0(), "")
    ensures RunDefined(StartsWith0(), "S", "10") && !Accepted(StartsWith0(), "10")
    ensures RunDefined(StartsWith0(), "S", "10001010") && !Accepted(StartsWith0(), "10001010")
    ensures RunDefined(StartsWith0(), "S", "111111") && !Accepted(StartsWith0(), "111111")
    ensures RunDefined(StartsWith0(), "S", "101111") && !Accepted(StartsWith0(), "101111")
  {
  }

  /** startsWith0 accepts exactly the binary strings that start with 0. */
  lemma StartsWith0Language(d: Description, s: State, a: State, b: State, w: string)
    requires StartsWith0Table(d, s, a, b) && IsBinary(w)
    ensures RunDefined(d, d.start, w)
    ensures Accepted(d, w) <==> |w| > 0 && w[0] == '0'
  {
    if |w| > 0 {
      Absorbing(d, Transition(d, s, w[0]), w[1..]);
    }
  }

  lemma StartsWith0Initial(d: Description, s: State, a: State, b: State)
    requires StartsWith0Table(d, s, a, b)
    ensures InitialPartition(d) == [[a], [s, b]]
  {
    assert [s, a, b][..2] == [s, a] && [s, a][..1] == [s] && [s][..0] == [];
    assert Rejecting([s], [a]) == [s];
    assert Rejecting([s, a], [a]) == [s];
    assert Rejecting([s, a, b], [a]) == [s, b];
  }

  /** The behaviours under the initial partition. */
  lemma StartsWith0Behavior(d: Description, s: State, a: State, b: State)
    requires StartsWith0Table(d, s, a, b)
    ensures SigOf(d, [[a], [s, b]], s) == [0, 1]
    ensures SigOf(d, [[a], [s, b]], a) == [0, 0]
    ensures SigOf(d, [[a], [s, b]], b) == [1, 1]
  {
    var P := [[a], [s, b]];
    assert LiesOnceIn(P, a, 0) && LiesOnceIn(P, b, 1);
    SigOfTargets(d, P, s, a, b, 0, 1);
    SigOfTargets(d, P, a, a, a, 0, 0);
    SigOfTargets(d, P, b, b, b, 1, 1);
  }

  lemma StartsWith0Round1(d: Description, s: State, a: State, b: State)
    requires StartsWith0Table(d, s, a, b)
    ensures RefineStep(d, [[a], [s, b]]) == [[s], [a], [b]]
  {
    StartsWith0Behavior(d, s, a, b);
    var u: seq<nat>, v: seq<nat>, w: seq<nat> := [0, 1], [0, 0], [1, 1];
    RoundByKeys(d, [[a], [s, b]], [u, v, w]);
    GroupDistinct3(s, a, b, u, v, w);
  }

  lemma StartsWith0Round2(d: Description, s: State, a: State, b: State)
    requires StartsWith0Table(d, s, a, b)
    ensures RefineStep(d, [[s], [a], [b]]) == [[s], [a], [b]]
  {
    var P := [[s], [a], [b]];
    assert LiesOnceIn(P, a, 1) && LiesOnceIn(P, b, 2);
    SigOfTargets(d, P, s, a, b, 1, 2);
    SigOfTargets(d, P, a, a, a, 1, 1);
    SigOfTargets(d, P, b, b, b, 2, 2);
    var u: seq<nat>, v: seq<nat>, w: seq<nat> := [1, 2], [1, 1], [2, 2];
    RoundByKeys(d, P, [u, v, w]);
    GroupDistinct3(s, a, b, u, v, w);
  }

  /** The loop settles after two rounds on three singleton blocks. */
  lemma StartsWith0Final(d: Description, s: State, a: State, b: State)
    requires StartsWith0Table(d, s, a, b)
    ensures FinalPartition(d, 2) == Some([[s], [a], [b]])
  {
    StartsWith0Initial(d, s, a, b);
    StartsWith0Round1(d, s, a, b);
    StartsWith0Round2(d, s, a, b);
    var P0, P1 := [[a], [s, b]], [[s], [a], [b]];
    assert Refinement(d, P1, P1, 0) == Some(P1);
    assert Refinement(d, P0, P1, 1) == Some(P1);
  }

  lemma StartsWith0WellFormed(d: Description, s: State, a: State, b: State)
    requires StartsWith0Table(d, s, a, b)
    ensures WellFormed(d)
  {
    forall q ensures TargetsDeclared(d, q) {
    }
  }

  /** `minimize` on the test machine keeps its three states, and the machine it returns
      accepts the same binary strings. */
  lemma StartsWith0Minimized(d: Description, s: State, a: State, b: State)
    requires StartsWith0Table(d, s, a, b)
    ensures WellFormed(d) && Minimized(d, 2).Some?
    ensures Minimized(d, 2).value.states == [s, a, b]
    ensures forall w :: IsBinary(w) ==>
      && RunDefined(d, d.start, w) && RunDefined(Minimized(d, 2).value, Minimized(d, 2).value.start, w)
      && Accepted(Minimized(d, 2).value, w) == Accepted(d, w)
  {
    var P := [[s], [a], [b]];
    var L := [s, a, b];
    SingleLabel(s);
    SingleLabel(a);
    SingleLabel(b);
    assert forall k :: 0 <= k < |P| ==> L[k] == Label(P[k]);
    assert LabelsDistinct(P) && RespectsAcceptance(d, P);
    StartsWith0WellFormed(d, s, a, b);
    StartsWith0Final(d, s, a, b);
    StartsWith0Round2(d, s, a, b);
    SettledMinimized(d, 2, P, L);
  }

  // ---------------------------------------------------------------------
  // divisibleBy3 (dfa.spec.ts:40-64)

  ghost predicate DivisibleBy3Table(d: Description, r0: State, r1: State, r2: State) {
    && r0 != r1 && r0 != r2 && r1 != r2
    && d.states == [r0, r1, r2]
    && d.transitions.Keys == {r0, r1, r2}
    && d.transitions[r0] == Targets(r0, r1) && d.transitions[r1] == Targets(r2, r0) && d.transitions[r2] == Targets(r1, r2)
    && d.start == r0 && d.acceptStates == [r0]
  }

  function DivisibleBy3(): Description {
    Description(["r0", "r1", "r2"],
      map["r0" := Targets("r0", "r1"), "r1" := Targets("r2", "r0"), "r2" := Targets("r1", "r2")],
      "r0", ["r0"])
  }

  lemma DivisibleBy3Names()
    ensures DivisibleBy3Table(DivisibleBy3(), "r0", "r1", "r2")
  {
  }

  /** The strings the tests list as accepted (dfa.spec.ts:59). */
  lemma DivisibleBy3Accepts()
    ensures RunDefined(DivisibleBy3(), "r0", "") && Accepted(DivisibleBy3(), "")
    ensures RunDefined(DivisibleBy3(), "r0", "0") && Accepted(DivisibleBy3(), "0")
    ensures RunDefined(DivisibleBy3(), "r0", "11") && Accepted(DivisibleBy3(), "11")
    ensures RunDefined(DivisibleBy3(), "r0", "00000") && Accepted(DivisibleBy3(), "00000")
    ensures RunDefined(DivisibleBy3(), "r0", "110000") && Accepted(DivisibleBy3(), "110000")
    ensures RunDefined(DivisibleBy3(), "r0", "101111111101") && Accepted(DivisibleBy3(), "101111111101")
  {
  }

  /** The strings the tests list as rejected (dfa.spec.ts:60). */
  lemma DivisibleBy3Rejects()
    ensures RunDefined(DivisibleBy3(), "r0", "10") && !Accepted(DivisibleBy3(), "10")
    ensures RunDefined(DivisibleBy3(), "r0", "1010") && !Accepted(DivisibleBy3(), "1010")
    ensures RunDefined(DivisibleBy3(), "r0", "100000") && !Accepted(DivisibleBy3(), "100000")
    ensures RunDefined(DivisibleBy3(), "r0", "1011111") && !Accepted(DivisibleBy3(), "1011111")
  {
  }

  function Bit(c: char): nat {
    if c == '1' then 1 else 0
  }

  /** The number written by the digits acc followed by the binary digits of
      w, most significant first. */
  function ValueFrom(acc: nat, w: string): nat
    decreases |w|
  {
    if |w| == 0 then acc else ValueFrom(2 * acc + Bit(w[0]), w[1..])
  }

  /** The number a binary string denotes. */
  function Value(w: string): nat {
    ValueFrom(0, w)
  }

  /** The state standing for the remainder k. */
  function Residue(r0: State, r1: State, r2: State, k: nat): State {
    if k == 0 then r0 else if k == 1 then r1 else r2
  }

  /** From the state of remainder n mod 3, a digit leads to the remainder of
      2n + digit. */
  lemma DivisibleBy3Move(d: Description, r0: State, r1: State, r2: State, n: nat, c: char)
    requires DivisibleBy3Table(d, r0, r1, r2) && IsBit(c)
    ensures Residue(r0, r1, r2, n % 3) in d.transitions
    ensures Transition(d, Residue(r0, r1, r2, n % 3), c) == Residue(r0, r1, r2, (2 * n + Bit(c)) % 3)
  {
  }

  /** Reading w from the state of remainder acc mod 3 ends in the state of
      the remainder of acc followed by w. */
  lemma {:induction false} DivisibleBy3Run(d: Description, r0: State, r1: State, r2: State, acc: nat, w: string)
    requires DivisibleBy3Table(d, r0, r1, r2) && IsBinary(w)
    ensures RunDefined(d, Residue(r0, r1, r2, acc % 3), w)
    ensures Run(d, Residue(r0, r1, r2, acc % 3), w) == Residue(r0, r1, r2, ValueFrom(acc, w) % 3)
    decreases |w|
  {
    if |w| > 0 {
      DivisibleBy3Move(d, r0, r1, r2, acc, w[0]);
      DivisibleBy3Run(d, r0, r1, r2, 2 * acc + Bit(w[0]), w[1..]);
    }
  }

  /** divisibleBy3 accepts exactly the binary strings whose value is a
      multiple of 3. */
  lemma DivisibleBy3Language(d: Description, r0: State, r1: State, r2: State, w: string)
    requires DivisibleBy3Table(d, r0, r1, r2) && IsBinary(w)
    ensures RunDefined(d, d.start, w)
    ensures Accepted(d, w) <==> Value(w) % 3 == 0
  {
    DivisibleBy3Run(d, r0, r1, r2, 0, w);
  }

  lemma DivisibleBy3Initial(d: Description, r0: State, r1: State, r2: State)
    requires DivisibleBy3Table(d, r0, r1, r2)
    ensures InitialPartition(d) == [[r0], [r1, r2]]
  {
    assert [r0, r1, r2][..2] == [r0, r1] && [r0, r1][..1] == [r0] && [r0][..0] == [];
    assert Rejecting([r0], [r0]) == [];
    assert Rejecting([r0, r1], [r0]) == [r1];
    assert Rejecting([r0, r1, r2], [r0]) == [r1, r2];
  }

  /** The behaviours under the initial partition. */
  lemma DivisibleBy3Behavior(d: Description, r0: State, r1: State, r2: State)
    requires DivisibleBy3Table(d, r0, r1, r2)
    ensures SigOf(d, [[r0], [r1, r2]], r0) == [0, 1]
    ensures SigOf(d, [[r0], [r1, r2]], r1) == [1, 0]
    ensures SigOf(d, [[r0], [r1, r2]], r2) == [1, 1]
  {
    var P := [[r0], [r1, r2]];
    assert LiesOnceIn(P, r0, 0) && LiesOnceIn(P, r1, 1) && LiesOnceIn(P, r2, 1);
    SigOfTargets(d, P, r0, r0, r1, 0, 1);
    SigOfTargets(d, P, r1, r2, r0, 1, 0);
    SigOfTargets(d, P, r2, r1, r2, 1, 1);
  }

  lemma DivisibleBy3Round1(d: Description, r0: State, r1: State, r2: State)
    requires DivisibleBy3Table(d, r0, r1, r2)
    ensures RefineStep(d, [[r0], [r1, r2]]) == [[r0], [r1], [r2]]
  {
    DivisibleBy3Behavior(d, r0, r1, r2);
    var u: seq<nat>, v: seq<nat>, w: seq<nat> := [0, 1], [1, 0], [1, 1];
    RoundByKeys(d, [[r0], [r1, r2]], [u, v, w]);
    GroupDistinct3(r0, r1, r2, u, v, w);
  }

  lemma DivisibleBy3Round2(d: Description, r0: State, r1: State, r2: State)
    requires DivisibleBy3Table(d, r0, r1, r2)
    ensures RefineStep(d, [[r0], [r1], [r2]]) == [[r0], [r1], [r2]]
  {
    var P := [[r0], [r1], [r2]];
    assert LiesOnceIn(P, r0, 0) && LiesOnceIn(P, r1, 1) && LiesOnceIn(P, r2, 2);
    SigOfTargets(d, P, r0, r0, r1, 0, 1);
    SigOfTargets(d, P, r1, r2, r0, 2, 0);
    SigOfTargets(d, P, r2, r1, r2, 1, 2);
    var u: seq<nat>, v: seq<nat>, w: seq<nat> := [0, 1], [2, 0], [1, 2];
    RoundByKeys(d, P, [u, v, w]);
    GroupDistinct3(r0, r1, r2, u, v, w);
  }

  /** The loop settles after two rounds on three singleton blocks. */
  lemma DivisibleBy3Final(d: Description, r0: State, r1: State, r2: State)
    requires DivisibleBy3Table(d, r0, r1, r2)
    ensures FinalPartition(d, 2) == Some([[r0], [r1], [r2]])
  {
    DivisibleBy3Initial(d, r0, r1, r2);
    DivisibleBy3Round1(d, r0, r1, r2);
    DivisibleBy3Round2(d, r0, r1, r2);
    var P0, P1 := [[r0], [r1, r2]], [[r0], [r1], [r2]];
    assert Refinement(d, P1, P1, 0) == Some(P1);
    assert Refinement(d, P0, P1, 1) == Some(P1);
  }

  lemma DivisibleBy3WellFormed(d: Description, r0: State, r1: State, r2: State)
    requires DivisibleBy3Table(d, r0, r1, r2)
    ensures WellFormed(d)
  {
    forall q ensures TargetsDeclared(d, q) {
    }
  }

  /** `minimize` on the test machine keeps its three states, and the machine it returns
      accepts the same binary strings. */
  lemma DivisibleBy3Minimized(d: Description, r0: State, r1: State, r2: State)
    requires DivisibleBy3Table(d, r0, r1, r2)
    ensures WellFormed(d) && Minimized(d, 2).Some?
    ensures Minimized(d, 2).value.states == [r0, r1, r2]
    ensures forall w :: IsBinary(w) ==>
      && RunDefined(d, d.start, w) && RunDefined(Minimized(d, 2).value, Minimized(d, 2).value.start, w)
      && Accepted(Minimized(d, 2).value, w) == Accepted(d, w)
  {
    var P := [[r0], [r1], [r2]];
    var L := [r0, r1, r2];
    SingleLabel(r0);
    SingleLabel(r1);
    SingleLabel(r2);
    assert forall k :: 0 <= k < |P| ==> L[k] == Label(P[k]);
    assert LabelsDistinct(P) && RespectsAcceptance(d, P);
    DivisibleBy3WellFormed(d, r0, r1, r2);
    DivisibleBy3Final(d, r0, r1, r2);
    DivisibleBy3Round2(d, r0, r1, r2);
    SettledMinimized(d, 2, P, L);
  }

  // ---------------------------------------------------------------------
  // startsWith010Unminimized (dfa.spec.ts:65-101)

  /** Six distinct single-character names, wired as in the test. */
  ghost predicate StartsWith010Table(m: Description, a: State, b: State, c: State, d: State, e: State, f: State) {
    && |a| == 1 && |b| == 1 && |c| == 1 && |d| == 1 && |e| == 1 && |f| == 1
    && a != b && a != c && a != d && a != e && a != f
    && b != c && b != d && b != e && b != f
    && c != d && c != e && c != f
    && d != e && d != f
    && e != f
    && m.states == [a, b, c, d, e, f]
    && m.transitions.Keys == {a, b, c, d, e, f}
    && m.transitions[a] == Targets(b, c) && m.transitions[b] == Targets(c, d) && m.transitions[c] == Targets(c, c)
    && m.transitions[d] == Targets(f, e) && m.transitions[e] == Targets(e, e) && m.transitions[f] == Targets(f, f)
    && m.start == a && m.acceptStates == [f]
  }

  function StartsWith010(): Description {
    Description(["A", "B", "C", "D", "E", "F"],
      map["A" := Targets("B", "C"), "B" := Targets("C", "D"), "C" := Targets("C", "C"),
          "D" := Targets("F", "E"), "E" := Targets("E", "E"), "F" := Targets("F", "F")],
      "A", ["F"])
  }

  lemma StartsWith010Names()
    ensures StartsWith010Table(StartsWith010(), "A", "B", "C", "D", "E", "F")
  {
  }

  /** The strings the tests list as accepted (dfa.spec.ts:96). */
  lemma StartsWith010Accepts()
    ensures RunDefined(StartsWith010(), "A", "010") && Accepted(StartsWith010(), "010")
    ensures RunDefined(StartsWith010(), "A", "01010010") && Accepted(StartsWith010(), "01010010")
    ensures RunDefined(StartsWith010(), "A", "01000100") && Accepted(StartsWith010(), "01000100")
    ensures RunDefined(StartsWith010(), "A", "01011111") && Accepted(StartsWith010(), "01011111")
  {
  }

  /** The strings the tests list as rejected (dfa.spec.ts:97). */
  lemma StartsWith010Rejects()
    ensures RunDefined(StartsWith010(), "A", "") && !Accepted(StartsWith010(), "")
    ensures RunDefined(StartsWith010(), "A", "1") && !Accepted(StartsWith010(), "1")
    ensures RunDefined(StartsWith010(), "A", "011") && !Accepted(StartsWith010(), "011")
    ensures RunDefined(StartsWith010(), "A", "1111111") && !Accepted(StartsWith010(), "1111111")
  {
  }

  /** From D the walk ends in F exactly when the next symbol is 0. */
  lemma StartsWith010FromD(m: Description, a: State, b: State, c: State, d: State, e: State, f: State, w: string)
    requires StartsWith010Table(m, a, b, c, d, e, f) && IsBinary(w)
    ensures RunDefined(m, d, w)
    ensures Run(m, d, w) == f <==> |w| > 0 && w[0] == '0'
  {
    if |w| > 0 {
      if w[0] == '0' {
        Absorbing(m, f, w[1..]);
      } else {
        Absorbing(m, e, w[1..]);
      }
    }
  }

  /** From B the walk ends in F exactly when the input starts with 10. */
  lemma StartsWith010FromB(m: Description, a: State, b: State, c: State, d: State, e: State, f: State, w: string)
    requires StartsWith010Table(m, a, b, c, d, e, f) && IsBinary(w)
    ensures RunDefined(m, b, w)
    ensures Run(m, b, w) == f <==> |w| > 1 && w[0] == '1' && w[1] == '0'
  {
    if |w| > 0 {
      if w[0] == '0' {
        Absorbing(m, c, w[1..]);
      } else {
        StartsWith010FromD(m, a, b, c, d, e, f, w[1..]);
      }
    }
  }

  /** startsWith010Unminimized accepts exactly the binary strings that
      start with 010. */
  lemma StartsWith010Language(m: Description, a: State, b: State, c: State, d: State, e: State, f: State, w: string)
    requires StartsWith010Table(m, a, b, c, d, e, f) && IsBinary(w)
    ensures RunDefined(m, m.start, w)
    ensures Accepted(m, w) <==> |w| >= 3 && w[..3] == "010"
  {
    if |w| > 0 {
      if w[0] == '0' {
        StartsWith010FromB(m, a, b, c, d, e, f, w[1..]);
      } else {
        Absorbing(m, c, w[1..]);
      }
    }
    if |w| >= 3 {
      assert w[..3] == [w[0], w[1], w[2]];
    }
  }

  lemma StartsWith010Initial(m: Description, a: State, b: State, c: State, d: State, e: State, f: State)
    requires StartsWith010Table(m, a, b, c, d, e, f)
    ensures InitialPartition(m) == [[f], [a, b, c, d, e]]
  {
    var xs := [a, b, c, d, e, f];
    assert xs[..5] == [a, b, c, d, e] && xs[..5][..4] == [a, b, c, d] && xs[..5][..4][..3] == [a, b, c];
    assert [a, b, c][..2] == [a, b] && [a, b][..1] == [a] && [a][..0] == [];
    assert Rejecting([a], [f]) == [a];
    assert Rejecting([a, b], [f]) == [a, b];
    assert Rejecting([a, b, c], [f]) == [a, b, c];
    assert Rejecting([a, b, c, d], [f]) == [a, b, c, d];
    assert Rejecting([a, b, c, d, e], [f]) == [a, b, c, d, e];
    assert Rejecting(xs, [f]) == [a, b, c, d, e];
  }

  /** The behaviours under the initial partition. */
  lemma StartsWith010Behavior(m: Description, a: State, b: State, c: State, d: State, e: State, f: State)
    requires StartsWith010Table(m, a, b, c, d, e, f)
    ensures SigOf(m, [[f], [a, b, c, d, e]], a) == [1, 1]
    ensures SigOf(m, [[f], [a, b, c, d, e]], b) == [1, 1]
    ensures SigOf(m, [[f], [a, b, c, d, e]], c) == [1, 1]
    ensures SigOf(m, [[f], [a, b, c, d, e]], d) == [0, 1]
    ensures SigOf(m, [[f], [a, b, c, d, e]], e) == [1, 1]
    ensures SigOf(m, [[f], [a, b, c, d, e]], f) == [0, 0]
  {
    var P := [[f], [a, b, c, d, e]];
    assert LiesOnceIn(P, f, 0) && LiesOnceIn(P, b, 1) && LiesOnceIn(P, c, 1);
    assert LiesOnceIn(P, d, 1) && LiesOnceIn(P, e, 1);
    SigOfTargets(m, P, a, b, c, 1, 1);
    SigOfTargets(m, P, b, c, d, 1, 1);
    SigOfTargets(m, P, c, c, c, 1, 1);
    SigOfTargets(m, P, d, f, e, 0, 1);
    SigOfTargets(m, P, e, e, e, 1, 1);
    SigOfTargets(m, P, f, f, f, 0, 0);
  }

  lemma StartsWith010Round1(m: Description, a: State, b: State, c: State, d: State, e: State, f: State)
    requires StartsWith010Table(m, a, b, c, d, e, f)
    ensures RefineStep(m, [[f], [a, b, c, d, e]]) == [[a, b, c, e], [d], [f]]
  {
    StartsWith010Behavior(m, a, b, c, d, e, f);
    var u: seq<nat>, v: seq<nat>, w: seq<nat> := [1, 1], [0, 1], [0, 0];
    RoundByKeys(m, [[f], [a, b, c, d, e]], [u, u, u, v, u, w]);
    GroupA6(a, b, c, d, e, f, u, v, w);
  }

  lemma StartsWith010Sigs2(m: Description, a: State, b: State, c: State, d: State, e: State, f: State)
    requires StartsWith010Table(m, a, b, c, d, e, f)
    ensures SigOf(m, [[a, b, c, e], [d], [f]], a) == [0, 0]
    ensures SigOf(m, [[a, b, c, e], [d], [f]], b) == [0, 1]
    ensures SigOf(m, [[a, b, c, e], [d], [f]], c) == [0, 0]
    ensures SigOf(m, [[a, b, c, e], [d], [f]], d) == [2, 0]
    ensures SigOf(m, [[a, b, c, e], [d], [f]], e) == [0, 0]
    ensures SigOf(m, [[a, b, c, e], [d], [f]], f) == [2, 2]
  {
    var P := [[a, b, c, e], [d], [f]];
    assert LiesOnceIn(P, b, 0) && LiesOnceIn(P, c, 0) && LiesOnceIn(P, e, 0);
    assert LiesOnceIn(P, d, 1) && LiesOnceIn(P, f, 2);
    SigOfTargets(m, P, a, b, c, 0, 0);
    SigOfTargets(m, P, b, c, d, 0, 1);
    SigOfTargets(m, P, c, c, c, 0, 0);
    SigOfTargets(m, P, d, f, e, 2, 0);
    SigOfTargets(m, P, e, e, e, 0, 0);
    SigOfTargets(m, P, f, f, f, 2, 2);
  }

  lemma StartsWith010Round2(m: Description, a: State, b: State, c: State, d: State, e: State, f: State)
    requires StartsWith010Table(m, a, b, c, d, e, f)
    ensures RefineStep(m, [[a, b, c, e], [d], [f]]) == [[a, c, e], [b], [d], [f]]
  {
    var P := [[a, b, c, e], [d], [f]];
    StartsWith010Sigs2(m, a, b, c, d, e, f);
    var u: seq<nat>, v: seq<nat>, w: seq<nat>, x: seq<nat> := [0, 0], [0, 1], [2, 0], [2, 2];
    RoundByKeys(m, P, [u, v, u, w, u, x]);
    GroupB6(a, b, c, d, e, f, u, v, w, x);
  }

  lemma StartsWith010Sigs3(m: Description, a: State, b: State, c: State, d: State, e: State, f: State)
    requires StartsWith010Table(m, a, b, c, d, e, f)
    ensures SigOf(m, [[a, c, e], [b], [d], [f]], a) == [1, 0]
    ensures SigOf(m, [[a, c, e], [b], [d], [f]], b) == [0, 2]
    ensures SigOf(m, [[a, c, e], [b], [d], [f]], c) == [0, 0]
    ensures SigOf(m, [[a, c, e], [b], [d], [f]], d) == [3, 0]
    ensures SigOf(m, [[a, c, e], [b], [d], [f]], e) == [0, 0]
    ensures SigOf(m, [[a, c, e], [b], [d], [f]], f) == [3, 3]
  {
    var P := [[a, c, e], [b], [d], [f]];
    assert LiesOnceIn(P, c, 0) && LiesOnceIn(P, e, 0) && LiesOnceIn(P, b, 1);
    assert LiesOnceIn(P, d, 2) && LiesOnceIn(P, f, 3);
    SigOfTargets(m, P, a, b, c, 1, 0);
    SigOfTargets(m, P, b, c, d, 0, 2);
    SigOfTargets(m, P, c, c, c, 0, 0);
    SigOfTargets(m, P, d, f, e, 3, 0);
    SigOfTargets(m, P, e, e, e, 0, 0);
    SigOfTargets(m, P, f, f, f, 3, 3);
  }

  lemma StartsWith010Round3(m: Description, a: State, b: State, c: State, d: State, e: State, f: State)
    requires StartsWith010Table(m, a, b, c, d, e, f)
    ensures RefineStep(m, [[a, c, e], [b], [d], [f]]) == [[a], [b], [c, e], [d], [f]]
  {
    var P := [[a, c, e], [b], [d], [f]];
    StartsWith010Sigs3(m, a, b, c, d, e, f);
    var u: seq<nat>, v: seq<nat>, w: seq<nat>, x: seq<nat>, y: seq<nat> := [1, 0], [0, 2], [0, 0], [3, 0], [3, 3];
    RoundByKeys(m, P, [u, v, w, x, w, y]);
    GroupC6(a, b, c, d, e, f, u, v, w, x, y);
  }

  lemma StartsWith010Sigs4(m: Description, a: State, b: State, c: State, d: State, e: State, f: State)
    requires StartsWith010Table(m, a, b, c, d, e, f)
    ensures SigOf(m, [[a], [b], [c, e], [d], [f]], a) == [1, 2]
    ensures SigOf(m, [[a], [b], [c, e], [d], [f]], b) == [2, 3]
    ensures SigOf(m, [[a], [b], [c, e], [d], [f]], c) == [2, 2]
    ensures SigOf(m, [[a], [b], [c, e], [d], [f]], d) == [4, 2]
    ensures SigOf(m, [[a], [b], [c, e], [d], [f]], e) == [2, 2]
    ensures SigOf(m, [[a], [b], [c, e], [d], [f]], f) == [4, 4]
  {
    var P := [[a], [b], [c, e], [d], [f]];
    assert LiesOnceIn(P, b, 1) && LiesOnceIn(P, c, 2) && LiesOnceIn(P, e, 2);
    assert LiesOnceIn(P, d, 3) && LiesOnceIn(P, f, 4);
    SigOfTargets(m, P, a, b, c, 1, 2);
    SigOfTargets(m, P, b, c, d, 2, 3);
    SigOfTargets(m, P, c, c, c, 2, 2);
    SigOfTargets(m, P, d, f, e, 4, 2);
    SigOfTargets(m, P, e, e, e, 2, 2);
    SigOfTargets(m, P, f, f, f, 4, 4);
  }

  lemma StartsWith010Round4(m: Description, a: State, b: State, c: State, d: State, e: State, f: State)
    requires StartsWith010Table(m, a, b, c, d, e, f)
    ensures RefineStep(m, [[a], [b], [c, e], [d], [f]]) == [[a], [b], [c, e], [d], [f]]
  {
    var P := [[a], [b], [c, e], [d], [f]];
    StartsWith010Sigs4(m, a, b, c, d, e, f);
    var u: seq<nat>, v: seq<nat>, w: seq<nat>, x: seq<nat>, y: seq<nat> := [1, 2], [2, 3], [2, 2], [4, 2], [4, 4];
    RoundByKeys(m, P, [u, v, w, x, w, y]);
    GroupC6(a, b, c, d, e, f, u, v, w, x, y);
  }

  /** The loop settles after four rounds, merging only C and E. */
  lemma StartsWith010Final(m: Description, a: State, b: State, c: State, d: State, e: State, f: State)
    requires StartsWith010Table(m, a, b, c, d, e, f)
    ensures FinalPartition(m, 4) == Some([[a], [b], [c, e], [d], [f]])
  {
    StartsWith010Initial(m, a, b, c, d, e, f);
    StartsWith010Round1(m, a, b, c, d, e, f);
    StartsWith010Round2(m, a, b, c, d, e, f);
    StartsWith010Round3(m, a, b, c, d, e, f);
    StartsWith010Round4(m, a, b, c, d, e, f);
    var P0, P1, P2, P3 := [[f], [a, b, c, d, e]], [[a, b, c, e], [d], [f]], [[a, c, e], [b], [d], [f]], [[a], [b], [c, e], [d], [f]];
    assert Refinement(m, P3, P3, 0) == Some(P3);
    assert Refinement(m, P2, P3, 1) == Some(P3);
    assert Refinement(m, P1, P2, 2) == Some(P3);
    assert Refinement(m, P0, P1, 3) == Some(P3);
  }

  lemma StartsWith010WellFormed(m: Description, a: State, b: State, c: State, d: State, e: State, f: State)
    requires StartsWith010Table(m, a, b, c, d, e, f)
    ensures WellFormed(m)
  {
    forall q ensures TargetsDeclared(m, q) {
    }
  }

  /** The final blocks are labelled by their members' names run together,
      the labels differ, and no block mixes accepting and rejecting states. */
  lemma StartsWith010Labels(m: Description, a: State, b: State, c: State, d: State, e: State, f: State)
    requires StartsWith010Table(m, a, b, c, d, e, f)
    ensures Label([a]) == a && Label([b]) == b && Label([c, e]) == c + e && Label([d]) == d && Label([f]) == f
    ensures LabelsDistinct([[a], [b], [c, e], [d], [f]])
    ensures RespectsAcceptance(m, [[a], [b], [c, e], [d], [f]])
  {
    SingleLabel(a);
    SingleLabel(b);
    SingleLabel(c);
    SingleLabel(d);
    SingleLabel(e);
    SingleLabel(f);
    assert [c, e][1..] == [e];
    assert |c + e| == 2;
  }

  /** `minimize` on the test machine yields five states, C and E merged into
      one state named CE, and the same language. */
  lemma StartsWith010Minimized(m: Description, a: State, b: State, c: State, d: State, e: State, f: State)
    requires StartsWith010Table(m, a, b, c, d, e, f)
    ensures WellFormed(m) && Minimized(m, 4).Some?
    ensures Minimized(m, 4).value.states == [a, b, c + e, d, f]
    ensures forall s :: IsBinary(s) ==>
      && RunDefined(m, m.start, s) && RunDefined(Minimized(m, 4).value, Minimized(m, 4).value.start, s)
      && Accepted(Minimized(m, 4).value, s) == Accepted(m, s)
  {
    var P := [[a], [b], [c, e], [d], [f]];
    var L := [a, b, c + e, d, f];
    StartsWith010Labels(m, a, b, c, d, e, f);
    assert forall k :: 0 <= k < |P| ==> L[k] == Label(P[k]);
    StartsWith010WellFormed(m, a, b, c, d, e, f);
    StartsWith010Final(m, a, b, c, d, e, f);
    StartsWith010Round4(m, a, b, c, d, e, f);
    SettledMinimized(m, 4, P, L);
  }
}
