/** The non-deterministic acceptor of nfa-simulator/src/nfa.ts: a table from
    states to the successor lists declared for the symbols "lambda", "0"
    and "1", simulated on a frontier of states that each step widens by one
    level of lambda moves and then maps through the next input symbol. */
module Nfa {
  type State = string

  /** A key of a state's entry: "lambda", or the one-character string of
      an input symbol. */
  type Symbol = string

  const Lambda: Symbol := "lambda"

  /** `NFADescription`. A state without an entry, or an entry without a
      symbol, has no successors on it. */
  datatype Description = Description(transitions: map<State, map<Symbol, seq<State>>>, start: State, acceptStates: seq<State>)

  /** `transition`: the declared successor list, or the empty list when the
      state or the symbol is not declared. */
  function Transition(d: Description, q: State, sym: Symbol): seq<State> {
    if q in d.transitions && sym in d.transitions[q] then d.transitions[q][sym] else []
  }

  /** Every declared successor list is returned as declared, and every
      undeclared state or symbol has none. */
  lemma TransitionLookup(d: Description)
    ensures forall q, sym :: q in d.transitions && sym in d.transitions[q] ==> Transition(d, q, sym) == d.transitions[q][sym]
    ensures forall q, sym :: q !in d.transitions ==> Transition(d, q, sym) == []
    ensures forall q, sym :: q in d.transitions && sym !in d.transitions[q] ==> Transition(d, q, sym) == []
  {
  }

  /** `flatMap` of `transition` over a frontier, in frontier order. */
  function Successors(d: Description, xs: seq<State>, sym: Symbol): seq<State>
    decreases |xs|
  {
    if |xs| == 0 then [] else Transition(d, xs[0], sym) + Successors(d, xs[1..], sym)
  }

  /** The frontier followed by the lambda successors of its members: one
      level of lambda moves. */
  function Expand(d: Description, xs: seq<State>): seq<State> {
    xs + Successors(d, xs, Lambda)
  }

  /** `acceptStates.some(state => states.includes(state))`. */
  predicate Meets(accept: seq<State>, xs: seq<State>) {
    exists q :: q in accept && q in xs
  }

  /** `accepts(s, states)`: widen the frontier by one lambda level; on empty
      input test it against the accept states, otherwise move it through
      the first symbol and read the rest. */
  function AcceptsFrom(d: Description, s: string, xs: seq<State>): bool
    decreases |s|
  {
    var states := Expand(d, xs);
    if |s| == 0 then Meets(d.acceptStates, states)
    else AcceptsFrom(d, s[1..], Successors(d, states, [s[0]]))
  }

  /** `accepts(s)`, with the default frontier `[start]`. */
  function Accepts(d: Description, s: string): bool {
    AcceptsFrom(d, s, [d.start])
  }

  // ---------------------------------------------------------------------
  // The frontier as a set

  /** A state is a successor of the frontier exactly when it is a successor
      of one of its members. */
  lemma {:induction false} SuccessorsMember(d: Description, xs: seq<State>, sym: Symbol, r: State)
    ensures r in Successors(d, xs, sym) <==> exists x :: x in xs && r in Transition(d, x, sym)
    decreases |xs|
  {
    if |xs| > 0 {
      SuccessorsMember(d, xs[1..], sym, r);
      assert forall x :: x in xs <==> x == xs[0] || x in xs[1..];
    }
  }

  /** The widened frontier holds the frontier and the lambda successors of
      its members, and nothing else. */
  lemma ExpandMember(d: Description, xs: seq<State>, r: State)
    ensures r in Expand(d, xs) <==> r in xs || exists x :: x in xs && r in Transition(d, x, Lambda)
  {
    SuccessorsMember(d, xs, Lambda, r);
  }

  /** Two frontiers holding the same states. */
  ghost predicate SameStates(xs: seq<State>, ys: seq<State>) {
    forall q :: q in xs <==> q in ys
  }

  lemma SuccessorsSameStates(d: Description, xs: seq<State>, ys: seq<State>, sym: Symbol)
    requires SameStates(xs, ys)
    ensures SameStates(Successors(d, xs, sym), Successors(d, ys, sym))
  {
    forall r ensures r in Successors(d, xs, sym) <==> r in Successors(d, ys, sym) {
      SuccessorsMember(d, xs, sym, r);
      SuccessorsMember(d, ys, sym, r);
    }
  }

  lemma ExpandSameStates(d: Description, xs: seq<State>, ys: seq<State>)
    requires SameStates(xs, ys)
    ensures SameStates(Expand(d, xs), Expand(d, ys))
  {
    forall r ensures r in Expand(d, xs) <==> r in Expand(d, ys) {
      ExpandMember(d, xs, r);
      ExpandMember(d, ys, r);
    }
  }

  /** Acceptance depends only on which states the frontier holds, not on
      their order or on duplicates. */
  lemma {:induction false} AcceptsFromSameStates(d: Description, s: string, xs: seq<State>, ys: seq<State>)
    requires SameStates(xs, ys)
    ensures AcceptsFrom(d, s, xs) == AcceptsFrom(d, s, ys)
    decreases |s|
  {
    ExpandSameStates(d, xs, ys);
    if |s| > 0 {
      SuccessorsSameStates(d, Expand(d, xs), Expand(d, ys), [s[0]]);
      AcceptsFromSameStates(d, s[1..], Successors(d, Expand(d, xs), [s[0]]), Successors(d, Expand(d, ys), [s[0]]));
    }
  }

  /** An empty frontier rejects every input. */
  lemma {:induction false} EmptyFrontierRejects(d: Description, s: string)
    ensures !AcceptsFrom(d, s, [])
    decreases |s|
  {
    assert Expand(d, []) == [];
    if |s| > 0 {
      EmptyFrontierRejects(d, s[1..]);
    }
  }

  /** The empty input is accepted exactly when `start` or one of its direct
      lambda successors is an accept state. */
  lemma AcceptsEmpty(d: Description)
    ensures Accepts(d, "") <==>
      d.start in d.acceptStates || exists q :: q in Transition(d, d.start, Lambda) && q in d.acceptStates
  {
    assert [d.start][1..] == [];
    var t := Transition(d, d.start, Lambda);
    assert Successors(d, [d.start], Lambda) == t + [];
    assert t + [] == t;
  }

  // ---------------------------------------------------------------------
  // The same acceptance, told by paths

  /** One step of a path: at most one lambda move from q, then a move on
      the symbol c to r. */
  ghost predicate StepTo(d: Description, q: State, c: char, r: State) {
    exists p :: p in Expand(d, [q]) && r in Transition(d, p, [c])
  }

  /** r is the end of a path from q that reads s one step at a time. */
  ghost predicate Reaches(d: Description, q: State, s: string, r: State)
    decreases |s|
  {
    if |s| == 0 then r == q else exists m :: StepTo(d, q, s[0], m) && Reaches(d, m, s[1..], r)
  }

  /** A path may end in r when r, or a state one lambda move from r, is an
      accept state. */
  ghost predicate Ends(d: Description, r: State) {
    Meets(d.acceptStates, Expand(d, [r]))
  }

  /** The language the simulation is meant to recognise, with lambda moves
      limited to one before each symbol and one at the end. */
  ghost predicate PathAccepts(d: Description, q: State, s: string) {
    exists r :: Reaches(d, q, s, r) && Ends(d, r)
  }

  lemma ExpandSingle(d: Description, x: State, p: State)
    ensures p in Expand(d, [x]) <==> p == x || p in Transition(d, x, Lambda)
  {
    ExpandMember(d, [x], p);
  }

  /** The frontier moves to a state exactly when some member takes a path
      step to it. */
  lemma StepFrontier(d: Description, xs: seq<State>, c: char, m: State)
    ensures m in Successors(d, Expand(d, xs), [c]) <==> exists x :: x in xs && StepTo(d, x, c, m)
  {
    SuccessorsMember(d, Expand(d, xs), [c], m);
    if m in Successors(d, Expand(d, xs), [c]) {
      var p :| p in Expand(d, xs) && m in Transition(d, p, [c]);
      ExpandMember(d, xs, p);
      if p in xs {
        ExpandSingle(d, p, p);
        assert StepTo(d, p, c, m);
      } else {
        var x :| x in xs && p in Transition(d, x, Lambda);
        ExpandSingle(d, x, p);
        assert StepTo(d, x, c, m);
      }
    }
    if exists x :: x in xs && StepTo(d, x, c, m) {
      var x :| x in xs && StepTo(d, x, c, m);
      var p :| p in Expand(d, [x]) && m in Transition(d, p, [c]);
      ExpandSingle(d, x, p);
      ExpandMember(d, xs, p);
    }
  }

  /** On empty input the frontier accepts exactly when one of its members
      may end a path. */
  lemma MeetsFrontier(d: Description, xs: seq<State>)
    ensures Meets(d.acceptStates, Expand(d, xs)) <==> exists x :: x in xs && Ends(d, x)
  {
    if Meets(d.acceptStates, Expand(d, xs)) {
      var q :| q in d.acceptStates && q in Expand(d, xs);
      ExpandMember(d, xs, q);
      if q in xs {
        ExpandSingle(d, q, q);
        assert Ends(d, q);
      } else {
        var x :| x in xs && q in Transition(d, x, Lambda);
        ExpandSingle(d, x, q);
        assert Ends(d, x);
      }
    }
    if exists x :: x in xs && Ends(d, x) {
      var x :| x in xs && Ends(d, x);
      var q :| q in d.acceptStates && q in Expand(d, [x]);
      ExpandSingle(d, x, q);
      ExpandMember(d, xs, q);
    }
  }

  /** The simulation from a frontier accepts s exactly when a path from one
      of its members reads s and may end. */
  lemma {:induction false} AcceptsFromPaths(d: Description, s: string, xs: seq<State>)
    ensures AcceptsFrom(d, s, xs) <==> exists x :: x in xs && PathAccepts(d, x, s)
    decreases |s|
  {
    if |s| == 0 {
      MeetsFrontier(d, xs);
      forall x ensures PathAccepts(d, x, s) <==> Ends(d, x) {
        if Ends(d, x) {
          assert Reaches(d, x, s, x);
        }
      }
    } else {
      var c := s[0];
      var next := Successors(d, Expand(d, xs), [c]);
      AcceptsFromPaths(d, s[1..], next);
      if AcceptsFrom(d, s, xs) {
        var m :| m in next && PathAccepts(d, m, s[1..]);
        var r :| Reaches(d, m, s[1..], r) && Ends(d, r);
        StepFrontier(d, xs, c, m);
        var x :| x in xs && StepTo(d, x, c, m);
        assert Reaches(d, x, s, r);
      }
      if exists x :: x in xs && PathAccepts(d, x, s) {
        var x :| x in xs && PathAccepts(d, x, s);
        var r :| Reaches(d, x, s, r) && Ends(d, r);
        var m :| StepTo(d, x, c, m) && Reaches(d, m, s[1..], r);
        StepFrontier(d, xs, c, m);
        assert PathAccepts(d, m, s[1..]);
      }
    }
  }

  /** `accepts(s)` holds exactly when a path from `start` reads s and may
      end. */
  lemma AcceptsPaths(d: Description, s: string)
    ensures Accepts(d, s) <==> PathAccepts(d, d.start, s)
  {
    AcceptsFromPaths(d, s, [d.start]);
  }
}
