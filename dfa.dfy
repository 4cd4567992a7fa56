/** The deterministic machine of dfa-minimizer/src/dfa.ts: its description,
    the transition lookup and the acceptance walk. */
module Dfa {
  import opened Seqs

  type State = string

  /** The successors one state declares: on '0' and on '1'. */
  datatype Targets = Targets(on0: State, on1: State)

  /** A DFA description. `states` lists the keys of `transitions` in
      declaration order, the order in which the source enumerates them. */
  datatype Description = Description(
    states: seq<State>,
    transitions: map<State, Targets>,
    start: State,
    acceptStates: seq<State>)

  /** `states` lists every key of `transitions`, each exactly once. */
  ghost predicate KeyOrder(d: Description) {
    && Distinct(d.states)
    && (forall q :: q in d.states ==> q in d.transitions)
    && (forall q :: q in d.transitions ==> q in d.states)
  }

  /** If q is declared, so are both of its targets. */
  predicate TargetsDeclared(d: Description, q: State) {
    q in d.transitions ==> d.transitions[q].on0 in d.transitions && d.transitions[q].on1 in d.transitions
  }

  /** Every target is declared (the transition function is total over the
      declared states). */
  ghost predicate Closed(d: Description) {
    forall q :: TargetsDeclared(d, q)
  }

  /** The description invariants callers are responsible for. */
  ghost predicate WellFormed(d: Description) {
    KeyOrder(d) && Closed(d) && d.start in d.transitions
  }

  predicate IsBit(c: char) {
    c == '0' || c == '1'
  }

  predicate IsBinary(s: string) {
    forall i :: 0 <= i < |s| ==> IsBit(s[i])
  }

  /** The table lookup `transitions[state][symbol]`; an undeclared state or a
      symbol other than '0' and '1' is outside its domain. */
  function Transition(d: Description, q: State, c: char): State
    requires q in d.transitions && IsBit(c)
  {
    if c == '0' then d.transitions[q].on0 else d.transitions[q].on1
  }

  /** Walking s from q never looks up an undeclared state or a non-bit. */
  predicate RunDefined(d: Description, q: State, s: string)
    decreases |s|
  {
    |s| == 0 || (q in d.transitions && IsBit(s[0]) && RunDefined(d, Transition(d, q, s[0]), s[1..]))
  }

  /** The state reached from q after reading s. */
  function Run(d: Description, q: State, s: string): State
    requires RunDefined(d, q, s)
    decreases |s|
  {
    if |s| == 0 then q else Run(d, Transition(d, q, s[0]), s[1..])
  }

  /** The language of the description. */
  function Accepted(d: Description, s: string): bool
    requires RunDefined(d, d.start, s)
  {
    Run(d, d.start, s) in d.acceptStates
  }

  /** `accepts`: walk the input from `start`, then test membership. */
  method Accepts(d: Description, s: string) returns (accepted: bool)
    requires RunDefined(d, d.start, s)
    ensures accepted == Accepted(d, s)
  {
    var state := d.start;
    for i := 0 to |s|
      invariant RunDefined(d, state, s[i..])
      invariant Run(d, state, s[i..]) == Run(d, d.start, s)
    {
      assert s[i..][1..] == s[i + 1..];
      state := Transition(d, state, s[i]);
    }
    assert s[|s|..] == [];
    accepted := state in d.acceptStates;
  }

  /** On a well-formed description every binary string can be walked. */
  lemma {:induction false} RunDefinedOnBinary(d: Description, q: State, s: string)
    requires Closed(d) && q in d.transitions && IsBinary(s)
    ensures RunDefined(d, q, s)
    decreases |s|
  {
    if |s| > 0 {
      assert IsBinary(s[1..]) by {
        forall i | 0 <= i < |s[1..]| ensures IsBit(s[1..][i]) { assert s[1..][i] == s[i + 1]; }
      }
      assert IsBit(s[0]) && TargetsDeclared(d, q);
      RunDefinedOnBinary(d, Transition(d, q, s[0]), s[1..]);
    }
  }

  /** Reading s then t is reading s + t. */
  lemma {:induction false} RunAppend(d: Description, q: State, s: string, t: string)
    requires RunDefined(d, q, s + t)
    ensures RunDefined(d, q, s)
    ensures RunDefined(d, Run(d, q, s), t)
    ensures Run(d, q, s + t) == Run(d, Run(d, q, s), t)
    decreases |s|
  {
    if |s| == 0 {
      assert s + t == t;
    } else {
      assert (s + t)[0] == s[0];
      assert (s + t)[1..] == s[1..] + t;
      RunAppend(d, Transition(d, q, s[0]), s[1..], t);
    }
  }

  /** The walk is a left fold of Transition: the last symbol is applied to
      the state reached on the rest. */
  lemma RunSnoc(d: Description, q: State, s: string, c: char)
    requires RunDefined(d, q, s + [c])
    ensures RunDefined(d, q, s)
    ensures Run(d, q, s) in d.transitions && IsBit(c)
    ensures Run(d, q, s + [c]) == Transition(d, Run(d, q, s), c)
  {
    RunAppend(d, q, s, [c]);
  }

  /** The empty input is accepted exactly when `start` is an accept state. */
  lemma AcceptedEmpty(d: Description)
    ensures Accepted(d, []) <==> d.start in d.acceptStates
  {
  }
}
