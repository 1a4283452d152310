/** A value model of the FSM helper (src/fsm.js): the configuration it reads,
    the state it keeps between calls, one function per public operation, and
    the properties that relate sequences of calls. The class in fsm.dfy is
    proved to follow these functions call by call. */
module FsmModel {

  /** The fixed list that `changeState` validates against and that `getStates()`
      returns, in this order. It does not depend on the configuration. */
  const AllowedStates: seq<string> := ["normal", "busy", "hungry", "sleeping"]

  /** The state every machine starts in, whatever its configuration declares. */
  const StartState: string := "normal"

  predicate IsAllowed(s: string) {
    s in AllowedStates
  }

  datatype Option<T> = None | Some(value: T)

  /** A configuration object: its `initial` field (which the source's
      constructor overwrites and the model ignores), the keys of its `states` object in enumeration order, and
      each state's `transitions` table from event name to destination. */
  datatype Config = Config(initial: string, stateKeys: seq<string>, transitions: map<string, map<string, string>>)
  {
    /** The key list and the table describe the same object: each key once,
        and exactly the keys of the table. */
    predicate WellFormed() {
      && Distinct(stateKeys)
      && (forall k :: k in stateKeys ==> k in transitions)
      && (forall k :: k in transitions ==> k in stateKeys)
    }

    /** The lookup `config.states[from].transitions[event]`; None when either
        the state or the event has no entry. */
    function Destination(from: string, event: string): (r: Option<string>)
      ensures r.Some? <==> from in transitions && event in transitions[from]
      ensures r.Some? ==> r.value in transitions[from].Values
    {
      if from in transitions && event in transitions[from] then Some(transitions[from][event]) else None
    }
  }

  /** What a machine holds between calls: the active state and the two
      history stacks, each with its most recent entry last. */
  datatype History = History(current: string, undo: seq<string>, redo: seq<string>)
  {
    /** The active state and every state either stack can bring back is one
        of the four allowed states. */
    predicate Valid() {
      && IsAllowed(current)
      && (forall s :: s in undo ==> IsAllowed(s))
      && (forall s :: s in redo ==> IsAllowed(s))
    }
  }

  /** The outcome of one call: `ok` is the boolean that `undo` and `redo`
      return, and for the other operations whether the call returned rather
      than threw; `after` is the state once the call is over. */
  datatype Step = Step(ok: bool, after: History)

  /** The state of a freshly constructed machine. */
  function Start(): (r: History)
    ensures r.Valid()
    ensures r.current == StartState && r.undo == [] && r.redo == []
  {
    History(StartState, [], [])
  }

  /** `changeState(target)`: rejected before anything changes unless the
      target is allowed; otherwise the old state is pushed on the undo stack,
      the redo stack is emptied and the target becomes the active state. */
  function ChangeState(h: History, target: string): (r: Step)
    ensures r.ok <==> IsAllowed(target)
    ensures r.ok ==> r.after.current == target && r.after.undo == h.undo + [h.current] && r.after.redo == []
    ensures !r.ok ==> r.after == h
    ensures h.Valid() ==> r.after.Valid()
  {
    if IsAllowed(target) then Step(true, History(target, h.undo + [h.current], []))
    else Step(false, h)
  }

  /** `trigger(event)`: the redo stack is emptied first, then the destination
      is looked up from the active state and handed to `changeState`. A
      missing lookup fails with the redo stack already emptied. */
  function Trigger(c: Config, h: History, event: string): (r: Step)
    ensures r.after.redo == []
    ensures r.ok <==> c.Destination(h.current, event).Some? && IsAllowed(c.Destination(h.current, event).value)
    ensures !r.ok ==> r.after.current == h.current && r.after.undo == h.undo
    ensures h.Valid() ==> r.after.Valid()
  {
    var cleared := h.(redo := []);
    match c.Destination(h.current, event)
    case None => Step(false, cleared)
    case Some(target) => ChangeState(cleared, target)
  }

  /** `reset()`: a `changeState` to the start state. */
  function Reset(h: History): (r: Step)
    ensures r.ok
    ensures r.after.current == StartState && r.after.undo == h.undo + [h.current] && r.after.redo == []
  {
    ChangeState(h, StartState)
  }

  /** `undo()`: pushes the active state on the redo stack and pops the undo
      stack into the active state; false and no change when there is nothing
      to undo. */
  function Undo(h: History): (r: Step)
    ensures r.ok <==> |h.undo| != 0
    ensures r.ok ==> |r.after.undo| + 1 == |h.undo| && r.after.redo == h.redo + [h.current]
    ensures !r.ok ==> r.after == h
    ensures h.Valid() ==> r.after.Valid()
  {
    if |h.undo| != 0 then
      Step(true, History(h.undo[|h.undo| - 1], h.undo[..|h.undo| - 1], h.redo + [h.current]))
    else
      Step(false, h)
  }

  /** `redo()`: pops the redo stack into the active state without pushing the
      state it leaves on the undo stack; false and no change when there is
      nothing to redo. */
  function Redo(h: History): (r: Step)
    ensures r.ok <==> |h.redo| != 0
    ensures r.after.undo == h.undo
    ensures r.ok ==> |r.after.redo| + 1 == |h.redo| && r.after.current == h.redo[|h.redo| - 1]
    ensures !r.ok ==> r.after == h
    ensures h.Valid() ==> r.after.Valid()
  {
    if |h.redo| != 0 then
      Step(true, h.(current := h.redo[|h.redo| - 1], redo := h.redo[..|h.redo| - 1]))
    else
      Step(false, h)
  }

  /** `clearHistory()`: empties both stacks. */
  function ClearHistory(h: History): (r: History)
    ensures r.current == h.current && r.undo == [] && r.redo == []
    ensures h.Valid() ==> r.Valid()
  {
    h.(undo := [], redo := [])
  }

  predicate Distinct(s: seq<string>) {
    forall i, j :: 0 <= i < j < |s| ==> s[i] != s[j]
  }

  /** `a` is `b` with some elements left out, the rest kept in order. */
  predicate IsSubsequence(a: seq<string>, b: seq<string>)
    decreases |b|
  {
    if a == [] then true
    else if b == [] then false
    else if a[0] == b[0] then IsSubsequence(a[1..], b[1..])
    else IsSubsequence(a, b[1..])
  }

  /** The filter behind `getStates(event)`: the keys, in order, whose
      transitions table has a destination for `event`. */
  function StatesWithTransition(c: Config, keys: seq<string>, event: string): (r: seq<string>)
    ensures IsSubsequence(r, keys)
    ensures forall k :: k in r <==> k in keys && c.Destination(k, event).Some?
    ensures Distinct(keys) ==> Distinct(r)
  {
    if keys == [] then []
    else
      var rest := StatesWithTransition(c, keys[1..], event);
      if c.Destination(keys[0], event).Some? then [keys[0]] + rest else rest
  }

  /** On a well-formed configuration `getStates(event)` lists every state
      whose transitions mention `event`, each exactly once. */
  lemma StatesWithTransitionExact(c: Config, event: string)
    requires c.WellFormed()
    ensures var r := StatesWithTransition(c, c.stateKeys, event);
      && Distinct(r)
      && forall k :: k in r <==> k in c.transitions && event in c.transitions[k]
  {
  }

  /** On a well-formed configuration, `trigger(event)` finds a destination
      from a state exactly when `getStates(event)` lists that state. */
  lemma DestinationListedByGetStates(c: Config, from: string, event: string)
    requires c.WellFormed()
    ensures c.Destination(from, event).Some? <==> from in StatesWithTransition(c, c.stateKeys, event)
  {
  }

  /** The public operations, as a caller issues them. */
  datatype Call =
    | ChangeStateCall(target: string)
    | TriggerCall(event: string)
    | ResetCall
    | UndoCall
    | RedoCall
    | ClearHistoryCall

  function Apply(c: Config, h: History, call: Call): Step {
    match call
    case ChangeStateCall(target) => ChangeState(h, target)
    case TriggerCall(event) => Trigger(c, h, event)
    case ResetCall => Reset(h)
    case UndoCall => Undo(h)
    case RedoCall => Redo(h)
    case ClearHistoryCall => Step(true, ClearHistory(h))
  }

  /** The state after a session of calls, a failed call leaving whatever it
      had already changed (the caller catches the error and goes on). */
  function Run(c: Config, h: History, calls: seq<Call>): History
    decreases |calls|
  {
    if calls == [] then h else Run(c, Apply(c, h, calls[0]).after, calls[1..])
  }

  function Repeat(call: Call, n: nat): (r: seq<Call>) {
    if n == 0 then [] else [call] + Repeat(call, n - 1)
  }

  function ChangeCalls(targets: seq<string>): (r: seq<Call>) {
    if targets == [] then [] else [ChangeStateCall(targets[0])] + ChangeCalls(targets[1..])
  }

  function Reversed(s: seq<string>): (r: seq<string>) {
    if s == [] then [] else Reversed(s[1..]) + [s[0]]
  }

  /** The whole line of states the two stacks record, oldest first, with the
      active state at position |undo|: undo walks back along it, redo forward. */
  function Timeline(h: History): seq<string> {
    h.undo + [h.current] + Reversed(h.redo)
  }

  lemma {:induction false} RepeatSnoc(call: Call, n: nat)
    ensures Repeat(call, n + 1) == Repeat(call, n) + [call]
  {
    if n > 0 {
      RepeatSnoc(call, n - 1);
    }
  }

  lemma {:induction false} ReversedSnoc(s: seq<string>, x: string)
    ensures Reversed(s + [x]) == [x] + Reversed(s)
  {
    if s != [] {
      assert (s + [x])[1..] == s[1..] + [x];
      ReversedSnoc(s[1..], x);
    }
  }

  /** Running two sessions back to back is running their concatenation. */
  lemma {:induction false} RunAppend(c: Config, h: History, a: seq<Call>, b: seq<Call>)
    ensures Run(c, h, a + b) == Run(c, Run(c, h, a), b)
    decreases |a|
  {
    if a == [] {
      assert a + b == b;
    } else {
      assert (a + b)[1..] == a[1..] + b;
      RunAppend(c, Apply(c, h, a[0]).after, a[1..], b);
    }
  }

  /** Every operation keeps the active state and both stacks within the
      allowed states, whatever the configuration's transitions point to. */
  lemma ApplyPreservesValid(c: Config, h: History, call: Call)
    requires h.Valid()
    ensures Apply(c, h, call).after.Valid()
  {
  }

  /** The allowed-set invariant holds after any session started from a
      freshly constructed machine, failed calls included. */
  lemma {:induction false} RunPreservesValid(c: Config, h: History, calls: seq<Call>)
    requires h.Valid()
    ensures Run(c, h, calls).Valid()
    decreases |calls|
  {
    if calls != [] {
      ApplyPreservesValid(c, h, calls[0]);
      RunPreservesValid(c, Apply(c, h, calls[0]).after, calls[1..]);
    }
  }

  lemma SessionsFromStartAreValid(c: Config, calls: seq<Call>)
    ensures Run(c, Start(), calls).Valid()
  {
    RunPreservesValid(c, Start(), calls);
  }

  /** `changeState(s)` followed by `undo()` brings back the prior state and
      undo stack, leaving `s` as the only redo entry. */
  lemma ChangeStateThenUndo(h: History, s: string)
    requires IsAllowed(s)
    ensures Undo(ChangeState(h, s).after) == Step(true, History(h.current, h.undo, [s]))
  {
  }

  /** `undo()` followed by `redo()` brings back the undone state and the redo
      stack, but the undo stack stays one entry shorter. */
  lemma UndoThenRedo(h: History)
    requires |h.undo| != 0
    ensures Redo(Undo(h).after) == Step(true, History(h.current, h.undo[..|h.undo| - 1], h.redo))
  {
  }

  /** After `clearHistory()` neither `undo()` nor `redo()` can do anything. */
  lemma ClearHistoryThenUndoRedo(h: History)
    ensures ClearHistory(h).current == h.current
    ensures Undo(ClearHistory(h)) == Step(false, ClearHistory(h))
    ensures Redo(ClearHistory(h)) == Step(false, ClearHistory(h))
  {
  }

  /** A call that goes through `changeState` and succeeds leaves nothing to
      redo. */
  lemma SuccessfulChangeBlocksRedo(c: Config, h: History, call: Call)
    requires call.ChangeStateCall? || call.TriggerCall? || call.ResetCall?
    requires Apply(c, h, call).ok
    ensures !Redo(Apply(c, h, call).after).ok
  {
  }

  /** `trigger(e)` succeeds exactly when the looked-up destination is an
      allowed state, and then it is `changeState` of that destination; when it
      fails only the redo stack has changed. */
  lemma TriggerIsChangeState(c: Config, h: History, event: string)
    ensures var d := c.Destination(h.current, event);
      && (Trigger(c, h, event).ok <==> d.Some? && IsAllowed(d.value))
      && (Trigger(c, h, event).ok ==> Trigger(c, h, event) == ChangeState(h, d.value))
      && (!Trigger(c, h, event).ok ==> Trigger(c, h, event).after == h.(redo := []))
  {
  }

  /** `undo()` only moves the active position back along the timeline. */
  lemma UndoKeepsTimeline(h: History)
    ensures Timeline(Undo(h).after) == Timeline(h)
    ensures Undo(h).ok ==> |Undo(h).after.undo| == |h.undo| - 1
  {
    if |h.undo| != 0 {
      ReversedSnoc(h.redo, h.current);
      assert h.undo[..|h.undo| - 1] + [h.undo[|h.undo| - 1]] == h.undo;
    }
  }

  /** `redo()` moves forward along the timeline but drops the state it
      leaves: the undo stack does not grow, so that state cannot be undone
      back to. */
  lemma RedoDropsCurrent(h: History)
    requires |h.redo| != 0
    ensures Redo(h).after.undo == h.undo
    ensures Timeline(Redo(h).after) == Timeline(h)[..|h.undo|] + Timeline(h)[|h.undo| + 1..]
  {
    var top := h.redo[|h.redo| - 1];
    var below := h.redo[..|h.redo| - 1];
    assert h.redo == below + [top];
    ReversedSnoc(below, top);
    assert Timeline(h) == h.undo + [h.current] + ([top] + Reversed(below));
  }

  /** Splits a session around its first and its last call. */
  lemma {:induction false} RunFirstAndLast(c: Config, h: History, first: Call, middle: seq<Call>, last: Call)
    ensures Run(c, h, [first] + (middle + [last]))
         == Apply(c, Run(c, Apply(c, h, first).after, middle), last).after
  {
    var calls := [first] + (middle + [last]);
    assert calls[0] == first && calls[1..] == middle + [last];
    RunAppend(c, Apply(c, h, first).after, middle, [last]);
    var r := Run(c, Apply(c, h, first).after, middle);
    assert Run(c, r, [last]) == Run(c, Apply(c, r, last).after, []);
  }

  lemma {:induction false} ChangesThenUndosSplit(targets: seq<string>)
    requires targets != []
    ensures ChangeCalls(targets) + Repeat(UndoCall, |targets|)
         == [ChangeStateCall(targets[0])] + ((ChangeCalls(targets[1..]) + Repeat(UndoCall, |targets| - 1)) + [UndoCall])
  {
    var first, changes := ChangeStateCall(targets[0]), ChangeCalls(targets[1..]);
    var undos := Repeat(UndoCall, |targets| - 1);
    assert ChangeCalls(targets) == [first] + changes;
    RepeatSnoc(UndoCall, |targets| - 1);
    Regroup([first], changes, undos, [UndoCall]);
  }

  lemma {:induction false} Regroup(a: seq<Call>, b: seq<Call>, c: seq<Call>, d: seq<Call>)
    ensures (a + b) + (c + d) == a + ((b + c) + d)
  {
  }

  /** A run of successful `changeState` calls followed by as many `undo()`
      calls returns to the starting state and undo stack; the redo stack then
      holds the targets, most recent at the bottom. */
  lemma {:induction false} ChangesThenUndos(c: Config, h: History, targets: seq<string>)
    requires forall t :: t in targets ==> IsAllowed(t)
    ensures var r := Run(c, h, ChangeCalls(targets) + Repeat(UndoCall, |targets|));
      && r.current == h.current
      && r.undo == h.undo
      && r.redo == if targets == [] then h.redo else Reversed(targets)
    decreases |targets|
  {
    if targets == [] {
      assert ChangeCalls(targets) + Repeat(UndoCall, 0) == [];
    } else {
      var rest := targets[1..];
      var h1 := ChangeState(h, targets[0]).after;
      var middle := ChangeCalls(rest) + Repeat(UndoCall, |rest|);
      ChangesThenUndosSplit(targets);
      RunFirstAndLast(c, h, ChangeStateCall(targets[0]), middle, UndoCall);
      ChangesThenUndos(c, h1, rest);
      var r1 := Run(c, h1, middle);
      assert r1.undo == h.undo + [h.current] && r1.redo == Reversed(rest);
      assert Undo(r1).after == History(h.current, h.undo, Reversed(rest) + [targets[0]]);
    }
  }

  /** `k` undos followed by `k` redos return to the starting state and redo
      stack, but the undo stack has lost its top `k` entries. */
  lemma {:induction false} UndosThenRedos(c: Config, h: History, k: nat)
    requires k <= |h.undo|
    ensures Run(c, h, Repeat(UndoCall, k) + Repeat(RedoCall, k))
         == History(h.current, h.undo[..|h.undo| - k], h.redo)
    decreases k
  {
    if k == 0 {
      assert Repeat(UndoCall, 0) + Repeat(RedoCall, 0) == [];
    } else {
      var h1 := Undo(h).after;
      var middle := Repeat(UndoCall, k - 1) + Repeat(RedoCall, k - 1);
      RepeatSnoc(RedoCall, k - 1);
      var calls := Repeat(UndoCall, k) + Repeat(RedoCall, k);
      assert calls == [UndoCall] + (middle + [RedoCall]);
      assert calls[1..] == middle + [RedoCall];
      RunAppend(c, h1, middle, [RedoCall]);
      UndosThenRedos(c, h1, k - 1);
    }
  }

  /** An example configuration: "normal" --work--> "busy" and
      "busy" --rest--> "normal". */
  function ExampleConfig(): (c: Config)
    ensures c.WellFormed()
  {
    Config("normal", ["normal", "busy"],
           map["normal" := map["work" := "busy"], "busy" := map["rest" := "normal"]])
  }

  /** In the example, only "normal" has a "work" transition and only "busy" a
      "rest" one; no state has a "sleep" transition. */
  lemma ExampleGetStates()
    ensures StatesWithTransition(ExampleConfig(), ExampleConfig().stateKeys, "work") == ["normal"]
    ensures StatesWithTransition(ExampleConfig(), ExampleConfig().stateKeys, "rest") == ["busy"]
    ensures StatesWithTransition(ExampleConfig(), ExampleConfig().stateKeys, "sleep") == []
  {
  }
}
