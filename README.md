# Finite automata: DFA minimizer and NFA simulator

This project models the two automaton engines of the repository in Dafny
and proves properties of them.

**The DFA engine (`dfa-minimizer/src/dfa.ts`, modules `Dfa`, `DfaPartition`,
`DfaQuotient`).** A description has four parts:

- a table from state names to their `0`- and `1`-targets;
- the declared states, listed in the order the table enumerates its keys;
- a start state;
- a list of accept states.

`accepts` walks the input from the start. `minimize` works in two stages:

1. It splits the declared states into the accept states and the rest. It
   then repeats a refinement round until the number of blocks stops
   changing. A round groups the states by their *behaviour*: the list of
   indices of the blocks that hold the state's two targets. Groups appear
   in first-seen order.
2. It builds the quotient machine. Each block is named by its members'
   names joined together.

Every loop of `dfa.ts` is a Dafny method with its own loop invariants. Each
method is proved equal to a declarative function of its inputs. The
properties are lemmas about those functions:

- what the initial partition and a round are;
- that the loop exits right after the first round that keeps the block count;
- what the quotient's table, start and accept states are;
- that the quotient by a stable, acceptance-respecting partition accepts
  exactly the language of the original.

**The corrected refinement (module `DfaCorrected`).** This is the
refinement `minimize` evidently intends. Its behaviour starts with the
state's own block, and its initial partition drops empty blocks. The module
proves three things about it:

- the loop stops within as many rounds as there are states;
- it stops on a stable partition;
- with distinct labels, the minimized machine accepts the same language.

**Minimality (module `DfaMinimal`).** Two declared states share a block of
the corrected loop's final partition exactly when no binary string tells
them apart. A machine whose states are pairwise distinguishable therefore
keeps one state per block.

**The NFA simulator (`nfa-simulator/src/nfa.ts`, module `Nfa`).** A
description maps states to successor lists for the symbols `lambda`, `0` and
`1`. The simulation keeps a frontier of states. Each step first adds the
lambda successors of the frontier's members, one level only. It then maps
the frontier through the next input character. On empty input the frontier
is tested against the accept states. The model follows that recursion
exactly and proves two things about it:

- acceptance depends only on the set of states in the frontier;
- acceptance equals a path semantics in which each step allows at most one
  lambda move.

**The closed simulation (module `NfaClosure`).** This is the simulation with
full lambda closure: lambda moves taken to a fixpoint before each symbol and
at the end. The module proves
that the closed frontier holds exactly the states some number of lambda
moves reach. It also proves that the simulation as written accepts only
strings the closed one accepts.

**The test machines.** The modules `DfaExamples` and `NfaExamples` state the
test machines of `dfa.spec.ts` and `nfa.spec.ts` and prove the expected
results listed in those files. `DfaFindings` and `NfaClosure` hold the
machines that show where the code differs from its evident intent (see
Findings).

Where the code departs from what it evidently intends, the model follows the
code:

- The initial partition keeps its second block even when it is empty. It
  keeps its first block (`acceptStates` as given) even when it is empty.
- The loop stops when two consecutive partitions have the same number of
  blocks. It does not check whether they are the same partition.
- A state's behaviour does not include its own block.
- The simulator adds one level of lambda successors per step, not the
  lambda closure.

## Model

| member | source | states |
|---|---|---|
| Dfa.Transition | dfa-minimizer/src/dfa.ts:22-28 | Definition: the target the table declares for a declared state on `0` or `1`. The walk over it is `Run`; `Dfa.Accepts` and `DfaQuotient.QuotientStep` state its properties. |
| Dfa.Accepts | dfa-minimizer/src/dfa.ts:30-42 | The loop that reassigns `state` once per symbol returns `Accepted(d, s)`. That is, it walks from `start` and then tests membership in `acceptStates`. |
| Dfa.RunSnoc | dfa-minimizer/src/dfa.ts:35-39 | The walk is a left fold of `Transition`. Reading one more symbol applies `Transition` to the state reached so far. |
| Dfa.RunAppend | dfa-minimizer/src/dfa.ts:35-39 | Reading `s + t` from q is reading `t` from the state `s` reaches. |
| Dfa.RunDefinedOnBinary | dfa-minimizer/src/dfa.ts:22-28 | In a description whose declared states all have declared targets, no binary string ever looks up an undeclared state. |
| Dfa.AcceptedEmpty | dfa-minimizer/src/dfa.ts:35-41 | The empty input is accepted exactly when `start` is an accept state. |
| DfaPartition.InitialEquivalenceClass | dfa-minimizer/src/dfa.ts:71-87 | The loop that pushes into block 1 returns the two-block `InitialPartition`. |
| DfaPartition.InitialPartitionShape | dfa-minimizer/src/dfa.ts:76-84 | There are exactly two blocks, and block 0 is `acceptStates` as given. Block 1 holds exactly the declared states not in `acceptStates`, in declaration order. If `acceptStates` is duplicate-free and declared, the two blocks partition the declared states. |
| DfaPartition.RejectingMember | dfa-minimizer/src/dfa.ts:80-84 | A state is pushed into block 1 if and only if it is declared and not an accept state. |
| DfaPartition.FindStateBehavior | dfa-minimizer/src/dfa.ts:89-104 | The three nested loops return `Signature(P, t)`. This lists the index of every block occurrence of the 0-target, then of the 1-target. |
| DfaPartition.OccurrencesOnce | dfa-minimizer/src/dfa.ts:95-101 | A target occurring exactly once in the partition, in block k, contributes exactly `[k]`. |
| DfaPartition.SignatureOfTargets | dfa-minimizer/src/dfa.ts:89-104 | If each target lies exactly once in the partition, the behaviour is exactly the two indices of their blocks, each within the partition. |
| DfaPartition.SignatureInPartition | dfa-minimizer/src/dfa.ts:89-104 | In a partition of the declared states, the behaviour is the pair of the targets' blocks. |
| DfaPartition.RefineRound | dfa-minimizer/src/dfa.ts:53-66 | The `for` loop over the table's entries, with its pushes into `newEquivalenceClass` and `behaviorOfNewClass`, returns `RefineStep(d, P)`. |
| DfaPartition.RefineStepPartition | dfa-minimizer/src/dfa.ts:53-66 | A round puts every declared state in exactly one block. Every block is non-empty and in declaration order. There are at most as many blocks as states. |
| DfaPartition.RefineStepSameBlock | dfa-minimizer/src/dfa.ts:56-63 | Two declared states share a block of the next round if and only if their behaviours are equal. |
| DfaPartition.RefineStepFirstSeen | dfa-minimizer/src/dfa.ts:57-63 | Blocks appear in the order their behaviours are first seen. A block's first state is the first declared state with that behaviour, and the first states of the blocks come in declaration order. |
| DfaPartition.MinimizePartition | dfa-minimizer/src/dfa.ts:49-67 | The `while` loop returns `FinalPartition(d, fuel)`, or `None` when the fuel runs out before the loop exits. |
| DfaPartition.FinalPartitionExit | dfa-minimizer/src/dfa.ts:49-67 | The loop runs at least one round. With `Rounds(d, n)` the partition after n rounds, it returns `Rounds(d, n)` for the first round n (within the fuel) whose output has as many blocks as its input, `Rounds(d, n - 1)`. |
| DfaPartition.RefinementFuel | dfa-minimizer/src/dfa.ts:51-67 | Once the loop has exited, more fuel does not change its result. |
| DfaPartition.FinalPartitionShape | dfa-minimizer/src/dfa.ts:51-67 | The partition the loop hands on partitions the declared states into non-empty blocks in declaration order. |
| DfaQuotient.EquivalenceClassToDFA | dfa-minimizer/src/dfa.ts:106-151 | The nested loops return `Quotient(d, P)`. The table is keyed in first-write order, with last write winning. One accept label is pushed per matching accept state. The start is the label of the last block holding `start`. |
| DfaQuotient.WriteEntry | dfa-minimizer/src/dfa.ts:119-133 | The scan for a block's first member adds its entry to the table. Its label is added to the key order when the label is new. |
| DfaQuotient.TargetLabels | dfa-minimizer/src/dfa.ts:123-130 | The scan over all blocks yields the labels of the last blocks holding the two targets. |
| DfaQuotient.PushAccepting | dfa-minimizer/src/dfa.ts:134-138 | The block's label is pushed once for each occurrence of its first member in `acceptStates`. |
| DfaQuotient.LastLabelInPartition | dfa-minimizer/src/dfa.ts:123-130 | In a partition, the last block holding a state is its only block. |
| DfaQuotient.QuotientKeyOrder | dfa-minimizer/src/dfa.ts:131 | The quotient's listed states are exactly its table's keys, each once. |
| DfaQuotient.QuotientStates | dfa-minimizer/src/dfa.ts:118-133 | For a partition with non-empty blocks and distinct labels, the quotient has one state per block, in block order, named by the block's label. |
| DfaQuotient.QuotientTable | dfa-minimizer/src/dfa.ts:119-131 | Block k's entry maps each symbol to the label of the block holding the first member's target on that symbol. |
| DfaQuotient.QuotientStart | dfa-minimizer/src/dfa.ts:139-141 | The quotient starts in the label of the block holding `start`. |
| DfaQuotient.QuotientAccepting | dfa-minimizer/src/dfa.ts:134-138 | A block's label is an accept state if and only if the block's first member is one. |
| DfaQuotient.QuotientStep | dfa-minimizer/src/dfa.ts:118-141 | For a stable partition, moving a state's block label on a symbol gives the block label of the state's target. |
| DfaQuotient.QuotientRun | dfa-minimizer/src/dfa.ts:118-141 | For a stable partition, the quotient's walk from a block label ends in the block label of the original walk's end. |
| DfaQuotient.QuotientPreservesLanguage | dfa-minimizer/src/dfa.ts:106-151 | For a stable, acceptance-respecting partition with distinct labels, the quotient accepts a binary string if and only if the original does. |
| DfaQuotient.RoundFixpointStable | dfa-minimizer/src/dfa.ts:53-66 | A partition a round leaves unchanged partitions the states into non-empty, stable blocks. |
| DfaQuotient.FixpointPreservesLanguage | dfa-minimizer/src/dfa.ts:44-69 | The quotient by a round's fixpoint accepts the original language, if its labels are distinct and it respects acceptance. |
| DfaQuotient.Minimize | dfa-minimizer/src/dfa.ts:44-69 | `minimize` returns `Minimized(d, fuel)`. The result's listed states are its table's keys. |
| DfaQuotient.MinimizedPreservesLanguage | dfa-minimizer/src/dfa.ts:44-69 | When the loop stops on a fixpoint that respects acceptance and has distinct labels, the minimized machine accepts the original language. |
| DfaCorrected.InitialGood | dfa-minimizer/src/dfa.ts:71-87 | The corrected initial partition holds each declared state exactly once. Its blocks are non-empty and each wholly accepting or wholly rejecting. It is empty only for a machine without states. |
| DfaCorrected.StepRefines | dfa-minimizer/src/dfa.ts:53-66 | The corrected round only splits blocks. It yields a partition whose blocks agree on their targets' previous blocks. |
| DfaCorrected.StepSameBlock | dfa-minimizer/src/dfa.ts:56-63 | Under the corrected round, two states share a block if and only if they shared one before and their targets did too. |
| DfaCorrected.StepGood | dfa-minimizer/src/dfa.ts:53-66 | The corrected round keeps a good partition good. It never lowers the block count and never exceeds the number of states. |
| DfaCorrected.EqualCountStable | dfa-minimizer/src/dfa.ts:51 | With the corrected round, an unchanged block count means the new partition is stable, so the loop's stopping rule is sound. |
| DfaCorrected.CorrectedFinalGood | dfa-minimizer/src/dfa.ts:49-67 | The corrected loop only exits on a good, stable partition. |
| DfaCorrected.CorrectedStops | dfa-minimizer/src/dfa.ts:49-67 | The corrected loop always exits within as many rounds as there are states. |
| DfaCorrected.CorrectedPreservesLanguage | dfa-minimizer/src/dfa.ts:44-69 | With distinct labels, the corrected `minimize` accepts exactly the original machine's binary strings. |
| DfaMinimal.SameBlockSameRuns | dfa-minimizer/src/dfa.ts:49-67 | Two states sharing a block of a stable, acceptance-respecting partition accept the same binary strings. |
| DfaMinimal.SeparatedStep | dfa-minimizer/src/dfa.ts:53-66 | A corrected round splits two states only when some binary string tells them apart, given that the previous partition did the same. |
| DfaMinimal.SeparatedFinal | dfa-minimizer/src/dfa.ts:49-67 | States in different blocks of the corrected loop's final partition are told apart by some binary string. |
| DfaMinimal.CorrectedFinalBlocks | dfa-minimizer/src/dfa.ts:44-69 | Two declared states share a block of the corrected final partition if and only if no binary string tells them apart. |
| DfaMinimal.CorrectedFinalSingletons | dfa-minimizer/src/dfa.ts:44-69 | If the declared states are pairwise distinguishable, every block of the corrected final partition holds exactly one state. |
| DfaExamples.StartsWith0Accepts | dfa-minimizer/src/dfa.spec.ts:34 | startsWith0 accepts the four listed strings. |
| DfaExamples.StartsWith0Rejects | dfa-minimizer/src/dfa.spec.ts:35 | startsWith0 rejects the five listed strings, `''` among them. |
| DfaExamples.StartsWith0Language | dfa-minimizer/src/dfa.spec.ts:15-33 | On every binary string the walk is defined, and the machine accepts exactly the strings that start with 0. |
| DfaExamples.StartsWith0Initial | dfa-minimizer/src/dfa.spec.ts:36 | Its initial partition is `[[A], [S, B]]`. |
| DfaExamples.StartsWith0Behavior | dfa-minimizer/src/dfa.spec.ts:38 | Its behaviours under that partition are `01`, `00`, `11`. |
| DfaExamples.StartsWith0Final | dfa-minimizer/src/dfa.spec.ts:37 | The loop exits with `[[S], [A], [B]]`. |
| DfaExamples.StartsWith0Minimized | dfa-minimizer/src/dfa.spec.ts:15-39 | `minimize` returns three states S, A, B with the original language. |
| DfaExamples.DivisibleBy3Accepts | dfa-minimizer/src/dfa.spec.ts:59 | divisibleBy3 accepts the six listed strings, `''` among them. |
| DfaExamples.DivisibleBy3Rejects | dfa-minimizer/src/dfa.spec.ts:60 | divisibleBy3 rejects the four listed strings. |
| DfaExamples.DivisibleBy3Language | dfa-minimizer/src/dfa.spec.ts:40-58 | On every binary string the walk is defined, and the machine accepts exactly the strings whose binary value is a multiple of 3 (`Value`, most significant digit first; `''` has value 0). |
| DfaExamples.DivisibleBy3Initial | dfa-minimizer/src/dfa.spec.ts:61 | Its initial partition is `[[r0], [r1, r2]]`. |
| DfaExamples.DivisibleBy3Behavior | dfa-minimizer/src/dfa.spec.ts:63 | Its behaviours under that partition are `01`, `10`, `11`. |
| DfaExamples.DivisibleBy3Final | dfa-minimizer/src/dfa.spec.ts:62 | The loop exits with `[[r0], [r1], [r2]]`. |
| DfaExamples.DivisibleBy3Minimized | dfa-minimizer/src/dfa.spec.ts:40-64 | `minimize` returns three states r0, r1, r2 with the original language. |
| DfaExamples.StartsWith010Accepts | dfa-minimizer/src/dfa.spec.ts:96 | startsWith010Unminimized accepts the four listed strings. |
| DfaExamples.StartsWith010Rejects | dfa-minimizer/src/dfa.spec.ts:97 | It rejects the four listed strings. |
| DfaExamples.StartsWith010Language | dfa-minimizer/src/dfa.spec.ts:65-95 | On every binary string the walk is defined, and the machine accepts exactly the strings that start with 010. |
| DfaExamples.StartsWith010Initial | dfa-minimizer/src/dfa.spec.ts:98 | Its initial partition is `[[F], [A, B, C, D, E]]`. |
| DfaExamples.StartsWith010Behavior | dfa-minimizer/src/dfa.spec.ts:100 | Its behaviours under that partition are `11`, `11`, `11`, `01`, `11`, `00`. |
| DfaExamples.StartsWith010Final | dfa-minimizer/src/dfa.spec.ts:99 | After four rounds the loop exits with `[[A], [B], [C, E], [D], [F]]`. |
| DfaExamples.StartsWith010Labels | dfa-minimizer/src/dfa.spec.ts:99 | The final blocks are labelled A, B, CE, D, F. The labels differ, and no block mixes accepting and rejecting states. |
| DfaExamples.StartsWith010Minimized | dfa-minimizer/src/dfa.spec.ts:65-101 | `minimize` returns five states A, B, CE, D, F with the original language. |
| DfaFindings.OwnBlockFinal | dfa-minimizer/src/dfa.ts:89-104 | On F→F, X→F with F accepting, the loop merges F and X into one block. |
| DfaFindings.OwnBlockLanguageChanged | dfa-minimizer/src/dfa.ts:44-69 | On that machine, `minimize` returns a machine that accepts `''`, which the original rejects. |
| DfaFindings.OwnBlockCorrected | dfa-minimizer/src/dfa.ts:44-69 | On the same machine, the corrected `minimize` keeps F and X apart and accepts exactly the original language. |
| DfaFindings.SameCountFinal | dfa-minimizer/src/dfa.ts:51 | On A,B→B, C→A with A accepting, the loop exits after one round on `[[A, B], [C]]`, a partition the next round would change. |
| DfaFindings.SameCountLanguageChanged | dfa-minimizer/src/dfa.ts:44-69 | On that machine, `minimize` returns a machine that accepts `'0'`, which the original rejects. |
| Nfa.Transition | nfa-simulator/src/nfa.ts:23-29 | Definition: the successor list the table declares for the state and symbol, or `[]` when either is undeclared. `Nfa.TransitionLookup` states the three cases. |
| Nfa.Successors | nfa-simulator/src/nfa.ts:37 | Definition: the `flatMap` of `Transition` over the frontier, in frontier order. `Nfa.SuccessorsMember` characterises its members. |
| Nfa.Expand | nfa-simulator/src/nfa.ts:36 | Definition: the frontier followed by its members' lambda successors. `Nfa.ExpandMember` characterises its members. |
| Nfa.AcceptsFrom | nfa-simulator/src/nfa.ts:31-40 | Definition: the recursion of `accepts(s, states)`, widening by one lambda level, then testing the accept states on empty input or moving through the first character. `Nfa.AcceptsFromPaths` relates it to path semantics. |
| Nfa.Accepts | nfa-simulator/src/nfa.ts:31 | Definition: `AcceptsFrom` with the default frontier `[start]`. `Nfa.AcceptsPaths` relates it to path semantics. |
| Nfa.TransitionLookup | nfa-simulator/src/nfa.ts:23-29 | A declared successor list is returned as declared. A state without an entry, or an entry without the symbol, yields `[]`. |
| Nfa.SuccessorsMember | nfa-simulator/src/nfa.ts:37 | A state is in the mapped frontier if and only if it is a successor of some member. |
| Nfa.ExpandMember | nfa-simulator/src/nfa.ts:36 | The widened frontier holds exactly the frontier and its members' direct lambda successors. |
| Nfa.AcceptsFromSameStates | nfa-simulator/src/nfa.ts:36-39 | Two frontiers holding the same states accept the same strings, whatever their order or duplicates. |
| Nfa.EmptyFrontierRejects | nfa-simulator/src/nfa.ts:36-39 | An empty frontier rejects every input. |
| Nfa.AcceptsEmpty | nfa-simulator/src/nfa.ts:31-39 | `''` is accepted if and only if `start`, or one of its direct lambda successors, is an accept state. |
| Nfa.AcceptsFromPaths | nfa-simulator/src/nfa.ts:31-40 | A frontier accepts s if and only if some member has an accepting path reading s, with at most one lambda move before each symbol and at the end. |
| Nfa.AcceptsPaths | nfa-simulator/src/nfa.ts:31-40 | `accepts(s)` holds if and only if such a path from `start` reads s. |
| NfaClosure.ClosureClosed | nfa-simulator/src/nfa.ts:36 | Repeating the one-level widening as many times as there are lambda targets reaches a frontier that widening no longer grows. |
| NfaClosure.CloseMember | nfa-simulator/src/nfa.ts:36 | The closed frontier holds exactly the states some number of lambda moves reach from a member. |
| NfaClosure.ClosedAcceptsEmpty | nfa-simulator/src/nfa.ts:36-39 | The closed simulation accepts `''` if and only if some number of lambda moves leads from `start` to an accept state. |
| NfaClosure.ClosedAcceptsPaths | nfa-simulator/src/nfa.ts:31-40 | The closed simulation accepts s if and only if a path from `start` reads s, with any number of lambda moves between symbols. |
| NfaClosure.AcceptsUnderClosed | nfa-simulator/src/nfa.ts:36 | Every string the simulation as written accepts is accepted by the closed one. |
| NfaClosure.ChainRejectsEmpty | nfa-simulator/src/nfa.ts:36 | On A -lambda-> B -lambda-> C with C accepting, `accepts('')` is false although two lambda moves reach C. |
| NfaClosure.ChainClosedAcceptsEmpty | nfa-simulator/src/nfa.ts:36 | On the same machine the closed simulation accepts `''`. |
| NfaExamples.SquaresAccepts | nfa-simulator/src/nfa.spec.ts:109 | perfectSquaresLessThan12 accepts the seven listed strings. |
| NfaExamples.SquaresRejects | nfa-simulator/src/nfa.spec.ts:110 | perfectSquaresLessThan12 rejects the nine listed strings. |
| NfaExamples.UniversalAccepts | nfa-simulator/src/nfa.spec.ts:132 | universalStartsEndsWith0 accepts the seven listed strings. |
| NfaExamples.UniversalRejects | nfa-simulator/src/nfa.spec.ts:133 | universalStartsEndsWith0 rejects the six listed strings. |

## Left out

- Dfa.Transition: an undeclared state or a symbol other than `0`/`1` makes the source return `undefined` or throw. These cases are preconditions (`q in d.transitions`, `IsBit(c)`), not modelled errors.
- Dfa.Accepts and DfaQuotient.QuotientPreservesLanguage: they require every step of the walk to be defined (`RunDefined`, or a binary input on a well-formed machine). The source's behaviour on an undefined step is not modelled.
- The table's key order is the explicit `states` sequence, here and in the quotient (its first-write order). JavaScript lists integer-like keys first, and `Object.entries` walks the `{0, 1}` pair. Neither is modelled.
- Behaviours are `seq<nat>`, not the decimal digit strings the source builds. The two agree with fewer than ten blocks.
- DfaPartition.MinimizePartition and DfaQuotient.Minimize: the `while` loop is given explicit fuel and returns `None` when the fuel runs out. The source's non-termination is not modelled. With the round as written, termination is not evident; for the corrected round it is proved (DfaCorrected.CorrectedStops).
- DfaQuotient.QuotientPreservesLanguage, DfaQuotient.MinimizedPreservesLanguage and DfaCorrected.CorrectedPreservesLanguage: they require pairwise different block labels. Joined names can collide (`A`+`BC` and `AB`+`C`), and the quotient then overwrites entries. `Quotient` models the collision, but the language results exclude it.
- DfaQuotient.Minimize: minimizing an already minimal machine need not give one state per block. With the round as written, the minimal F/X machine of DfaFindings collapses to `[[F, X]]` (DfaFindings.OwnBlockFinal). For the corrected round, one block per state is proved when the states are pairwise distinguishable (DfaMinimal.CorrectedFinalSingletons).
- DfaQuotient.EquivalenceClassToDFA and DfaQuotient.Minimize: they require `QuotientDefined`, and `Minimize` requires `WellFormed`. The source's constructor checks nothing. A partition missing `start` or a target makes the source write `undefined` (dfa.ts:121-131, 139-141). Those `undefined` labels are not modelled. The call at dfa.ts:68 and the test machines meet the requirements.
- DfaCorrected.CorrectedMinimized: minimizing its result again is not proved to keep the language or the number of states. That would need the quotient to be well formed, its labels distinct and its states pairwise distinguishable. DfaMinimal.CorrectedFinalBlocks gives the last part for the original machine's states only.
- The `minimize` test compares a machine object with a partition, so it cannot pass as written. DfaExamples checks the loop's final partition (`FinalPartition`) against the listed partitions instead.
- The ava test harness, the constructor tests and the `console.log` calls are not modelled.
- The NFA reads a string as a sequence of `char`. JavaScript's UTF-16 code units and prototype keys of the transition object (`constructor`, `__proto__`) are not modelled.
- The NFA computes `charAt(0)` and its successors on empty input too, and then ignores them. The model never computes them.
- Only the two test machines that use lambda moves are stated as examples in the NFA model (NfaExamples). startsWith0, divisibleBy3 and StartsEndsWith010 of `nfa.spec.ts` are not.

## Findings

| source | as written | input that shows it | evidently intended | confidence | as-written member | corrected member |
|---|---|---|---|---|---|---|
| dfa-minimizer/src/dfa.ts:89-104 | A state's behaviour lists only its targets' blocks, not its own block, so a round can merge an accepting state with a rejecting one. | States F, X. Both move to F on both symbols. Start X, accept F. The loop yields `[[F, X]]`, and the minimized machine accepts `''`. | Moore refinement: the behaviour starts with the state's own block, so rounds only split blocks and keep the language. | high; not executed | DfaFindings.OwnBlockLanguageChanged | DfaFindings.OwnBlockCorrected, DfaCorrected.CorrectedPreservesLanguage |
| dfa-minimizer/src/dfa.ts:51 | The loop stops when the block count is unchanged. With the round as written, a round can merge two blocks and split another, so it can stop on a partition that is not a fixpoint. | States A, B, C. A and B move to B, C moves to A. Start A, accept A. The loop stops on `[[A, B], [C]]`, and the minimized machine accepts `'0'`. | Stop on a stable partition. With the own-block behaviour an unchanged count implies stability, and the loop stops within as many rounds as there are states. | high; not executed | DfaFindings.SameCountLanguageChanged | DfaCorrected.EqualCountStable, DfaCorrected.CorrectedStops |
| nfa-simulator/src/nfa.ts:36 | Each step adds one level of lambda successors, so a state reached only by two lambda moves in a row is missed. | A -lambda-> B -lambda-> C, start A, accept C: `accepts('')` is false. | The lambda closure before each symbol and at the end. | medium; not executed | NfaClosure.ChainRejectsEmpty | NfaClosure.ChainClosedAcceptsEmpty, NfaClosure.ClosedAcceptsPaths |
