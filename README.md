# FSM helper, modelled in Dafny

The repository is a single JavaScript class, `FSM` (src/fsm.js). It holds one
active state and looks up event transitions in a two-level configuration table
(`states[state].transitions[event]`). It keeps a linear undo/redo history in
two stacks. The states `changeState` accepts are a fixed list of four:
`normal`, `busy`, `hungry` and `sleeping`. That list does not depend on the
configuration. The machine always starts in `normal`.

The project has two modules:

- `FsmModel` (fsm_model.dfy) is the value model. It has the configuration
  (`Config`: the initial field, the state keys in enumeration order, and the
  transition table), the machine's state as a value (`History`: active state,
  undo stack, redo stack), and one function per operation that returns a
  `Step` (success flag and new state). It also has `Call`/`Run` for sessions of
  calls, and the lemmas that relate several calls: the allowed-state invariant
  over any session, undo/redo round trips, and the redo asymmetry.
- `Fsm` (fsm.dfy) is the class `FSM`. Its fields `current`, `undoStates` and
  `redoStates` are updated in place. Each method's `ensures` gives the new
  fields explicitly and ties `Snapshot()` to the matching `FsmModel` function.
  Every method keeps `Valid()`, the allowed-state invariant. Five client methods
  replay an example session on a small configuration.

Exceptions thrown by the source become `ok == false`. A failed call changes
nothing, except `trigger`, which, like the source, has already emptied the
redo stack. An absent configuration is `None` in `FSM.Create`.

Two facts about the code shape the configuration the model accepts:

- A `null` configuration passes the check at src/fsm.js:7 and throws at
  src/fsm.js:11. The model has no `null` configuration; see below.
- src/fsm.js:65 reads `transitions[event]` unguarded, so a configured state
  without a `transitions` object makes `getStates(event)` throw. The
  constructor and `FSM.Create` therefore require `Config.WellFormed()`: each
  key listed once, and the listed keys are exactly the states of the table,
  each with its transitions. `FSM.Valid()` keeps that fact.

## Model

| member | source | states |
|---|---|---|
| Fsm.FSM.constructor | src/fsm.js:6-15 | for a well-formed configuration, a new machine is in "normal" with both stacks empty, whatever initial state the configuration declares; the invariant holds |
| Fsm.FSM.Create | src/fsm.js:6-9 | construction fails exactly when no configuration is given; otherwise the machine is fresh, in "normal", with empty stacks |
| Fsm.FSM.GetState | src/fsm.js:21-23 | returns the active state, which is always one of the four allowed states |
| Fsm.FSM.ChangeState | src/fsm.js:29-37 | succeeds iff the target is one of the four allowed states (the configuration plays no part); on success the old state is pushed on undo, redo is emptied and the target is active, even if it equals the old state; on failure nothing changes |
| Fsm.FSM.Trigger | src/fsm.js:43-46 | redo is empty afterwards even when the call fails; succeeds iff the active state's transitions give an allowed destination for the event, and then equals `changeState` of it; on failure the active state and undo are unchanged |
| Fsm.FSM.Reset | src/fsm.js:51-53 | is `changeState("normal")` and always succeeds |
| Fsm.FSM.GetStates | src/fsm.js:61-66 | with no event, the four allowed states in fixed order; with an event, a subsequence of the configured keys, without repeats, holding exactly the states whose transitions define that event |
| Fsm.FSM.Undo | src/fsm.js:73-80 | true iff undo is non-empty; then the old state is pushed on redo and the top of undo is popped into the active state; false leaves everything unchanged |
| Fsm.FSM.Redo | src/fsm.js:87-94 | true iff redo is non-empty; then the top of redo is popped into the active state; undo is unchanged either way; false leaves everything unchanged |
| Fsm.FSM.ClearHistory | src/fsm.js:99-102 | both stacks become empty and the active state is kept |
| FsmModel.Config.Destination | src/fsm.js:45 | the two-level lookup finds a destination exactly when both the state and the event have entries, and it is one of that state's transition targets |
| FsmModel.Start | src/fsm.js:10-14 | the constructed state is "normal" with both stacks empty, and satisfies the allowed-state invariant |
| FsmModel.ChangeState | src/fsm.js:29-37 | succeeds iff the target is allowed; on success the target is active, the old state is pushed on undo and redo is empty; on failure nothing changes; the invariant is kept |
| FsmModel.Trigger | src/fsm.js:43-46 | redo is empty afterwards in every case; succeeds iff the lookup gives an allowed destination; on failure the active state and undo are unchanged; the invariant is kept |
| FsmModel.Reset | src/fsm.js:51-53 | always succeeds, making "normal" active with the old state pushed on undo and redo empty |
| FsmModel.Undo | src/fsm.js:73-80 | true iff undo is non-empty; then undo shrinks by one and the old active state is pushed on redo; false changes nothing; the invariant is kept |
| FsmModel.Redo | src/fsm.js:87-94 | true iff redo is non-empty; undo is never changed; on success the top of redo becomes active and redo shrinks by one; false changes nothing; the invariant is kept |
| FsmModel.ClearHistory | src/fsm.js:99-102 | both stacks become empty and the active state is kept; the invariant is kept |
| FsmModel.DestinationListedByGetStates | src/fsm.js:45-65 | on a well-formed configuration, `trigger(e)` finds a destination from a state exactly when `getStates(e)` lists that state |
| FsmModel.StatesWithTransition | src/fsm.js:65 | the filter result is a subsequence of the keys, contains exactly the keys with a destination for the event, and has no repeats when the keys have none |
| FsmModel.StatesWithTransitionExact | src/fsm.js:65 | on a configuration whose key list matches its table, the result lists each state with a transition for the event exactly once |
| FsmModel.ExampleGetStates | src/fsm.js:61-66 | in the example configuration, `getStates("work")` is ["normal"], `getStates("rest")` is ["busy"], and an unknown event gives [] |
| FsmModel.ApplyPreservesValid | src/fsm.js:29-102 | every operation keeps the active state and both stacks within the four allowed states, whatever the transitions point to |
| FsmModel.RunPreservesValid | src/fsm.js:29-102 | the allowed-state invariant holds after any session of calls, failed calls included |
| FsmModel.SessionsFromStartAreValid | src/fsm.js:6-14 | every session started from a freshly constructed machine keeps the allowed-state invariant |
| FsmModel.ChangeStateThenUndo | src/fsm.js:29-79 | `changeState(s)` then `undo()` returns true, restores the prior state and undo stack, and leaves [s] as redo |
| FsmModel.UndoThenRedo | src/fsm.js:73-93 | `undo()` then `redo()` returns true and restores the undone state and the redo stack; the undo stack stays one shorter |
| FsmModel.ClearHistoryThenUndoRedo | src/fsm.js:73-102 | right after `clearHistory()`, both `undo()` and `redo()` return false and change nothing, and the active state is kept |
| FsmModel.SuccessfulChangeBlocksRedo | src/fsm.js:29-53 | after a successful `changeState`, `trigger` or `reset`, `redo()` returns false |
| FsmModel.TriggerIsChangeState | src/fsm.js:43-46 | `trigger(e)` succeeds iff the looked-up destination exists and is allowed; it is then `changeState` of it, and otherwise only the redo stack has been emptied |
| FsmModel.UndoKeepsTimeline | src/fsm.js:73-80 | `undo()` keeps the sequence undo + [active] + reversed redo and moves the active position one step back |
| FsmModel.RedoDropsCurrent | src/fsm.js:87-93 | `redo()` keeps undo and removes the state it leaves from that sequence, so that state cannot be undone back to |
| FsmModel.ChangesThenUndos | src/fsm.js:29-79 | n successful `changeState` calls followed by n `undo()` calls restore the starting state and undo stack; redo then holds the targets in reverse |
| FsmModel.UndosThenRedos | src/fsm.js:73-93 | k undos followed by k redos restore the active state and the redo stack, and the undo stack loses its top k entries |

## Left out

- `module.exports` (src/fsm.js:105) only exports the class and has no behaviour.
- The source keeps the active state in the caller's configuration object
  (`config.initial`), so the caller sees it change. The model keeps it in a
  field of its own, `current`, and the stored `Config` is never written.
- Errors are not told apart. All of them are one failure outcome: the
  missing configuration, the rejected state, and the TypeError when the
  active state has no entry in `states`.
- `null` or non-object configurations, states without a `transitions` object,
  and destinations that are not strings are not modelled. The constructor
  requires a well-formed `Config`, so the TypeError such configurations raise
  in the source has no counterpart. The "not undefined" test of src/fsm.js:65
  is modelled as the key being present.
- Property names inherited by JavaScript objects (an event named
  `constructor` finds a function on every transitions object) are not
  modelled. Lookups see only the table's own entries.
- Key order is taken as given in `Config.stateKeys`. JavaScript's rule that
  integer-like keys are enumerated first is not modelled.
- `getStates()` returns the internal array by reference. The model returns
  only its value.
