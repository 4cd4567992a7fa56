/** The simulation of nfa-simulator/src/nfa.ts with the frontier widened by
    the full lambda closure instead of one level of lambda moves. The
    simulation as written misses states two or more lambda moves away; the
    closure here repeats the one-level widening until it adds nothing,
    which happens within as many rounds as there are lambda targets. */
module NfaClosure {
  import opened Nfa

  /** Every state of xs is in ys. */
  predicate Within(xs: seq<State>, ys: seq<State>) {
    forall q :: q in xs ==> q in ys
  }

  /** Repeat the one-level widening until it adds no state, for at most
      `fuel` rounds. */
  function Closure(d: Description, xs: seq<State>, fuel: nat): seq<State>
    decreases fuel
  {
    var wider := Expand(d, xs);
    if Within(wider, xs) || fuel == 0 then xs else Closure(d, wider, fuel - 1)
  }

  /** Every state some lambda move leads to. */
  function LambdaTargets(d: Description): set<State> {
    set q, t | q in d.transitions.Keys && t in Transition(d, q, Lambda) :: t
  }

  /** The states of a list. */
  ghost function Members(xs: seq<State>): set<State> {
    set q | q in xs
  }

  /** A number of rounds that always suffices for the frontier xs. */
  ghost function Rounds(d: Description, xs: seq<State>): nat {
    |LambdaTargets(d) - Members(xs)|
  }

  /** The full lambda closure of a frontier. */
  function Close(d: Description, xs: seq<State>): seq<State> {
    Closure(d, xs, |LambdaTargets(d)|)
  }

  /** The simulation with the full closure in place of one level. */
  function ClosedAcceptsFrom(d: Description, s: string, xs: seq<State>): bool
    decreases |s|
  {
    var states := Close(d, xs);
    if |s| == 0 then Meets(d.acceptStates, states)
    else ClosedAcceptsFrom(d, s[1..], Successors(d, states, [s[0]]))
  }

  function ClosedAccepts(d: Description, s: string): bool {
    ClosedAcceptsFrom(d, s, [d.start])
  }

  /** r is at most n lambda moves from q. */
  ghost predicate LambdaReaches(d: Description, q: State, r: State, n: nat)
    decreases n
  {
    r == q || (n > 0 && exists p :: p in Transition(d, q, Lambda) && LambdaReaches(d, p, r, n - 1))
  }

  // ---------------------------------------------------------------------
  // The closure is reached, and holds exactly the lambda-reachable states

  /** A state the widening adds is a lambda target. */
  lemma ExpandNew(d: Description, xs: seq<State>, q: State)
    requires q in Expand(d, xs) && q !in xs
    ensures q in LambdaTargets(d)
  {
    ExpandMember(d, xs, q);
    var x :| x in xs && q in Transition(d, x, Lambda);
    assert x in d.transitions.Keys;
  }

  /** A round that adds a state leaves fewer lambda targets outside the
      frontier. */
  lemma RoundsDecrease(d: Description, xs: seq<State>)
    requires !Within(Expand(d, xs), xs)
    ensures Rounds(d, Expand(d, xs)) < Rounds(d, xs)
  {
    var q :| q in Expand(d, xs) && q !in xs;
    ExpandNew(d, xs, q);
    var L := LambdaTargets(d);
    var A, B := L - Members(Expand(d, xs)), L - Members(xs);
    assert A <= B - {q};
    assert |A| <= |B - {q}| by {
      assert B - {q} == A + ((B - {q}) - A);
    }
  }

  /** The widening as a function value. */
  function WidenOf(d: Description): seq<State> -> seq<State> {
    xs => Expand(d, xs)
  }

  /** Repeated widening by an arbitrary function, so that the argument for
      reaching a fixpoint is made once, without unfolding a widening. */
  function Iterate(widen: seq<State> -> seq<State>, xs: seq<State>, fuel: nat): seq<State>
    decreases fuel
  {
    var wider := widen(xs);
    if Within(wider, xs) || fuel == 0 then xs else Iterate(widen, wider, fuel - 1)
  }

  lemma {:induction false} ClosureIsIterate(d: Description, xs: seq<State>, fuel: nat)
    ensures Closure(d, xs, fuel) == Iterate(WidenOf(d), xs, fuel)
    decreases fuel
  {
    var wider := Expand(d, xs);
    if !(Within(wider, xs) || fuel == 0) {
      ClosureIsIterate(d, wider, fuel - 1);
    }
  }

  /** A widening that, until it adds nothing, lowers a measure bounded by
      the fuel, reaches a fixpoint within that fuel. */
  lemma {:induction false} IterateClosed(widen: seq<State> -> seq<State>, measure: seq<State> -> nat, xs: seq<State>, fuel: nat)
    requires forall ys :: !Within(widen(ys), ys) ==> measure(widen(ys)) < measure(ys)
    requires fuel >= measure(xs)
    ensures Within(widen(Iterate(widen, xs, fuel)), Iterate(widen, xs, fuel))
    decreases fuel
  {
    if !Within(widen(xs), xs) {
      IterateClosed(widen, measure, widen(xs), fuel - 1);
    }
  }

  /** With enough rounds, the closure is closed under lambda moves. */
  lemma ClosureClosed(d: Description, xs: seq<State>, fuel: nat)
    requires fuel >= Rounds(d, xs)
    ensures Within(Expand(d, Closure(d, xs, fuel)), Closure(d, xs, fuel))
  {
    forall ys | !Within(WidenOf(d)(ys), ys) ensures Rounds(d, WidenOf(d)(ys)) < Rounds(d, ys) {
      RoundsDecrease(d, ys);
    }
    ClosureIsIterate(d, xs, fuel);
    IterateClosed(WidenOf(d), ys => Rounds(d, ys), xs, fuel);
    assert WidenOf(d)(Closure(d, xs, fuel)) == Expand(d, Closure(d, xs, fuel));
  }

  /** Every state of the closure is lambda-reachable from the frontier. */
  lemma {:induction false} ClosureSound(d: Description, xs: seq<State>, fuel: nat, r: State)
    requires r in Closure(d, xs, fuel)
    ensures exists x, n: nat :: x in xs && LambdaReaches(d, x, r, n)
    decreases fuel
  {
    var wider := Expand(d, xs);
    if Within(wider, xs) || fuel == 0 {
      assert LambdaReaches(d, r, r, 0);
    } else {
      ClosureSound(d, wider, fuel - 1, r);
      var y, n: nat :| y in wider && LambdaReaches(d, y, r, n);
      ExpandMember(d, xs, y);
      if y !in xs {
        var x :| x in xs && y in Transition(d, x, Lambda);
        assert LambdaReaches(d, x, r, n + 1);
      }
    }
  }

  /** The closure keeps the frontier. */
  lemma {:induction false} ClosureGrows(d: Description, xs: seq<State>, fuel: nat)
    ensures Within(xs, Closure(d, xs, fuel))
    decreases fuel
  {
    var wider := Expand(d, xs);
    if !(Within(wider, xs) || fuel == 0) {
      ClosureGrows(d, wider, fuel - 1);
    }
  }

  /** A frontier closed under lambda moves holds every state lambda-reachable
      from its members. */
  lemma {:induction false} ClosedKeeps(d: Description, C: seq<State>, q: State, r: State, n: nat)
    requires Within(Expand(d, C), C) && q in C && LambdaReaches(d, q, r, n)
    ensures r in C
    decreases n
  {
    if r != q {
      var p :| p in Transition(d, q, Lambda) && LambdaReaches(d, p, r, n - 1);
      ExpandMember(d, C, p);
      ClosedKeeps(d, C, p, r, n - 1);
    }
  }

  /** The full closure holds exactly the states some number of lambda moves
      from a member of the frontier. */
  lemma CloseMember(d: Description, xs: seq<State>, r: State)
    ensures r in Close(d, xs) <==> exists x, n: nat :: x in xs && LambdaReaches(d, x, r, n)
  {
    var fuel := |LambdaTargets(d)|;
    assert Close(d, xs) == Closure(d, xs, fuel);
    assert fuel >= Rounds(d, xs) by {
      assert LambdaTargets(d) - Members(xs) <= LambdaTargets(d);
      assert LambdaTargets(d) == (LambdaTargets(d) - Members(xs)) + (LambdaTargets(d) * Members(xs));
    }
    if r in Close(d, xs) {
      ClosureSound(d, xs, fuel, r);
    }
    if exists x, n: nat :: x in xs && LambdaReaches(d, x, r, n) {
      var x, n: nat :| x in xs && LambdaReaches(d, x, r, n);
      ClosureClosed(d, xs, fuel);
      ClosureGrows(d, xs, fuel);
      ClosedKeeps(d, Close(d, xs), x, r, n);
    }
  }

  /** With the full closure, the empty input is accepted exactly when some
      accept state is any number of lambda moves from `start`. */
  lemma ClosedAcceptsEmpty(d: Description)
    ensures ClosedAccepts(d, "") <==> exists r, n: nat :: r in d.acceptStates && LambdaReaches(d, d.start, r, n)
  {
    if ClosedAccepts(d, "") {
      var r :| r in d.acceptStates && r in Close(d, [d.start]);
      CloseMember(d, [d.start], r);
    }
    if exists r, n: nat :: r in d.acceptStates && LambdaReaches(d, d.start, r, n) {
      var r, n: nat :| r in d.acceptStates && LambdaReaches(d, d.start, r, n);
      assert exists x, m: nat :: x in [d.start] && LambdaReaches(d, x, r, m) by {
        assert d.start in [d.start] && LambdaReaches(d, d.start, r, n);
      }
      CloseMember(d, [d.start], r);
    }
  }

  // ---------------------------------------------------------------------
  // The closed simulation told by paths with any number of lambda moves

  /** One step of a path: any number of lambda moves from q, then a move on
      the symbol c to r. */
  ghost predicate ClosedStepTo(d: Description, q: State, c: char, r: State) {
    exists p, n: nat :: LambdaReaches(d, q, p, n) && r in Transition(d, p, [c])
  }

  ghost predicate ClosedReaches(d: Description, q: State, s: string, r: State)
    decreases |s|
  {
    if |s| == 0 then r == q else exists m :: ClosedStepTo(d, q, s[0], m) && ClosedReaches(d, m, s[1..], r)
  }

  /** A path may end in r when some accept state is any number of lambda
      moves from r. */
  ghost predicate ClosedEnds(d: Description, r: State) {
    exists p, n: nat :: p in d.acceptStates && LambdaReaches(d, r, p, n)
  }

  /** The language of the machine read with full lambda closure. */
  ghost predicate ClosedPathAccepts(d: Description, q: State, s: string) {
    exists r :: ClosedReaches(d, q, s, r) && ClosedEnds(d, r)
  }

  lemma ClosedStepFrontier(d: Description, xs: seq<State>, c: char, m: State)
    ensures m in Successors(d, Close(d, xs), [c]) <==> exists x :: x in xs && ClosedStepTo(d, x, c, m)
  {
    SuccessorsMember(d, Close(d, xs), [c], m);
    if m in Successors(d, Close(d, xs), [c]) {
      var p :| p in Close(d, xs) && m in Transition(d, p, [c]);
      CloseMember(d, xs, p);
      var x, n: nat :| x in xs && LambdaReaches(d, x, p, n);
      assert ClosedStepTo(d, x, c, m);
    }
    if exists x :: x in xs && ClosedStepTo(d, x, c, m) {
      var x :| x in xs && ClosedStepTo(d, x, c, m);
      var p, n: nat :| LambdaReaches(d, x, p, n) && m in Transition(d, p, [c]);
      CloseMember(d, xs, p);
      assert exists y, k: nat :: y in xs && LambdaReaches(d, y, p, k) by {
        assert x in xs && LambdaReaches(d, x, p, n);
      }
      assert p in Close(d, xs);
    }
  }

  lemma ClosedMeetsFrontier(d: Description, xs: seq<State>)
    ensures Meets(d.acceptStates, Close(d, xs)) <==> exists x :: x in xs && ClosedEnds(d, x)
  {
    if Meets(d.acceptStates, Close(d, xs)) {
      var q :| q in d.acceptStates && q in Close(d, xs);
      CloseMember(d, xs, q);
      var x, n: nat :| x in xs && LambdaReaches(d, x, q, n);
      assert ClosedEnds(d, x);
    }
    if exists x :: x in xs && ClosedEnds(d, x) {
      var x :| x in xs && ClosedEnds(d, x);
      var q, n: nat :| q in d.acceptStates && LambdaReaches(d, x, q, n);
      CloseMember(d, xs, q);
      assert exists y, k: nat :: y in xs && LambdaReaches(d, y, q, k) by {
        assert x in xs && LambdaReaches(d, x, q, n);
      }
      assert q in Close(d, xs);
    }
  }

  /** The closed simulation from a frontier accepts s exactly when a path
      with any number of lambda moves reads s from one of its members and
      may end. */
  lemma {:induction false} ClosedAcceptsFromPaths(d: Description, s: string, xs: seq<State>)
    ensures ClosedAcceptsFrom(d, s, xs) <==> exists x :: x in xs && ClosedPathAccepts(d, x, s)
    decreases |s|
  {
    if |s| == 0 {
      ClosedMeetsFrontier(d, xs);
      forall x ensures ClosedPathAccepts(d, x, s) <==> ClosedEnds(d, x) {
        if ClosedEnds(d, x) {
          assert ClosedReaches(d, x, s, x);
        }
      }
    } else {
      var c := s[0];
      var next := Successors(d, Close(d, xs), [c]);
      ClosedAcceptsFromPaths(d, s[1..], next);
      if ClosedAcceptsFrom(d, s, xs) {
        var m :| m in next && ClosedPathAccepts(d, m, s[1..]);
        var r :| ClosedReaches(d, m, s[1..], r) && ClosedEnds(d, r);
        ClosedStepFrontier(d, xs, c, m);
        var x :| x in xs && ClosedStepTo(d, x, c, m);
        assert ClosedReaches(d, x, s, r);
      }
      if exists x :: x in xs && ClosedPathAccepts(d, x, s) {
        var x :| x in xs && ClosedPathAccepts(d, x, s);
        var r :| ClosedReaches(d, x, s, r) && ClosedEnds(d, r);
        var m :| ClosedStepTo(d, x, c, m) && ClosedReaches(d, m, s[1..], r);
        ClosedStepFrontier(d, xs, c, m);
        assert ClosedPathAccepts(d, m, s[1..]);
      }
    }
  }

  /** The closed `accepts(s)` holds exactly when a path with any number of
      lambda moves reads s from `start` and may end. */
  lemma ClosedAcceptsPaths(d: Description, s: string)
    ensures ClosedAccepts(d, s) <==> ClosedPathAccepts(d, d.start, s)
  {
    ClosedAcceptsFromPaths(d, s, [d.start]);
  }

  /** At most one lambda move is some number of lambda moves. */
  lemma OneLambda(d: Description, q: State, p: State)
    requires p in Expand(d, [q])
    ensures LambdaReaches(d, q, p, 1)
  {
    ExpandSingle(d, q, p);
    if p != q {
      assert LambdaReaches(d, p, p, 0);
    }
  }

  lemma {:induction false} ReachesClosed(d: Description, q: State, s: string, r: State)
    requires Reaches(d, q, s, r)
    ensures ClosedReaches(d, q, s, r)
    decreases |s|
  {
    if |s| > 0 {
      var m :| StepTo(d, q, s[0], m) && Reaches(d, m, s[1..], r);
      var p :| p in Expand(d, [q]) && m in Transition(d, p, [s[0]]);
      OneLambda(d, q, p);
      assert ClosedStepTo(d, q, s[0], m);
      ReachesClosed(d, m, s[1..], r);
    }
  }

  /** The simulation as written never accepts a string that the closed one
      rejects: it only misses lambda moves. */
  lemma AcceptsUnderClosed(d: Description, s: string)
    ensures Accepts(d, s) ==> ClosedAccepts(d, s)
  {
    AcceptsPaths(d, s);
    ClosedAcceptsPaths(d, s);
    if Accepts(d, s) {
      var r :| Reaches(d, d.start, s, r) && Ends(d, r);
      ReachesClosed(d, d.start, s, r);
      var q :| q in d.acceptStates && q in Expand(d, [r]);
      OneLambda(d, r, q);
      assert ClosedEnds(d, r);
    }
  }

  // ---------------------------------------------------------------------
  // A chain of two lambda moves

  /** a moves by lambda to b and b to c; only c is accepting. */
  ghost predicate ChainTable(d: Description, a: State, b: State, c: State) {
    && a != c && b != c
    && d.transitions.Keys == {a, b}
    && d.transitions[a].Keys == {Lambda} && d.transitions[a][Lambda] == [b]
    && d.transitions[b].Keys == {Lambda} && d.transitions[b][Lambda] == [c]
    && d.start == a && d.acceptStates == [c]
  }

  function Chain(): Description {
    Description(map["A" := map[Lambda := ["B"]], "B" := map[Lambda := ["C"]]], "A", ["C"])
  }

  lemma ChainNames()
    ensures ChainTable(Chain(), "A", "B", "C")
  {
  }

  /** As written, the simulation rejects the empty input on the chain,
      although the accept state c is two lambda moves from the start. */
  lemma ChainRejectsEmpty(d: Description, a: State, b: State, c: State)
    requires ChainTable(d, a, b, c)
    ensures !Accepts(d, "")
    ensures LambdaReaches(d, a, c, 2)
  {
    AcceptsEmpty(d);
    assert Transition(d, a, Lambda) == [b];
    assert LambdaReaches(d, b, c, 1) by {
      assert c in Transition(d, b, Lambda) && LambdaReaches(d, c, c, 0);
    }
    assert b in Transition(d, a, Lambda);
  }

  /** With the full closure, the chain accepts the empty input. */
  lemma ChainClosedAcceptsEmpty(d: Description, a: State, b: State, c: State)
    requires ChainTable(d, a, b, c)
    ensures ClosedAccepts(d, "")
  {
    ChainRejectsEmpty(d, a, b, c);
    ClosedAcceptsEmpty(d);
    assert c in d.acceptStates && LambdaReaches(d, d.start, c, 2);
  }
}
