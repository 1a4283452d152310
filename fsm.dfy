/** The FSM class of src/fsm.js: an object holding the active state and the
    undo and redo stacks, updated in place by its methods. Each method is
    proved to do what the matching FsmModel function describes, and to keep
    the allowed-state invariant. */
module Fsm {
  import opened FsmModel

  class FSM {
    /** The configuration the machine was built from; only its transitions
        are read after construction. */
    const config: Config
    /** The active state (the source keeps it in the configuration's
        `initial` field). */
    var current: string
    /** States to go back to, most recent last. */
    var undoStates: seq<string>
    /** States undone, most recent last. */
    var redoStates: seq<string>

    /** The machine's state as a value. */
    function Snapshot(): History
      reads this
    {
      History(current, undoStates, redoStates)
    }

    /** The configuration is a JavaScript object (each key once, every key
        with its transitions), and the allowed-state invariant holds. */
    ghost predicate Valid()
      reads this
    {
      config.WellFormed() && Snapshot().Valid()
    }

    /** Builds a machine that starts in "normal" with empty histories,
        whatever initial state the configuration declares. */
    constructor (config: Config)
      requires config.WellFormed()
      ensures this.config == config
      ensures Valid()
      ensures Snapshot() == Start()
    {
      this.config := config;
      current := StartState;
      undoStates := [];
      redoStates := [];
    }

    /** `new FSM(config)`: fails when no configuration is given. */
    static method Create(config: Option<Config>) returns (r: Option<FSM>)
      requires config.Some? ==> config.value.WellFormed()
      ensures r.None? <==> config.None?
      ensures r.Some? ==> fresh(r.value) && r.value.Valid() && r.value.config == config.value
      ensures r.Some? ==> r.value.current == StartState && r.value.undoStates == [] && r.value.redoStates == []
    {
      if config.None? {
        return None;
      }
      var machine := new FSM(config.value);
      r := Some(machine);
    }

    /** `getState()`: the active state, always one of the allowed four. */
    function GetState(): (s: string)
      reads this
      requires Valid()
      ensures s == current
      ensures IsAllowed(s)
    {
      current
    }

    /** `changeState(state)`: an unknown state is rejected before anything
        changes; otherwise the old state goes on the undo stack, the redo
        stack is emptied and `state` becomes active, even when it is the
        active state already. */
    method ChangeState(state: string) returns (ok: bool)
      requires Valid()
      modifies this
      ensures Valid()
      ensures Step(ok, Snapshot()) == FsmModel.ChangeState(old(Snapshot()), state)
      ensures ok <==> IsAllowed(state)
      ensures ok ==> current == state && undoStates == old(undoStates) + [old(current)] && redoStates == []
      ensures !ok ==> current == old(current) && undoStates == old(undoStates) && redoStates == old(redoStates)
    {
      if !IsAllowed(state) {
        return false;
      }
      undoStates := undoStates + [current];
      redoStates := [];
      current := state;
      ok := true;
    }

    /** `trigger(event)`: empties the redo stack, then changes to the
        destination the active state's transitions give for `event`. With no
        destination, or one outside the allowed states, it fails and only the
        redo stack has changed. */
    method Trigger(event: string) returns (ok: bool)
      requires Valid()
      modifies this
      ensures Valid()
      ensures Step(ok, Snapshot()) == FsmModel.Trigger(config, old(Snapshot()), event)
      ensures redoStates == []
      ensures var d := config.Destination(old(current), event);
        && (ok <==> d.Some? && IsAllowed(d.value))
        && (ok ==> current == d.value && undoStates == old(undoStates) + [old(current)])
        && (!ok ==> current == old(current) && undoStates == old(undoStates))
    {
      redoStates := [];
      var destination := config.Destination(current, event);
      if destination.None? {
        return false;
      }
      ok := ChangeState(destination.value);
    }

    /** `reset()`: `changeState("normal")`, which always succeeds. */
    method Reset()
      requires Valid()
      modifies this
      ensures Valid()
      ensures Step(true, Snapshot()) == FsmModel.Reset(old(Snapshot()))
      ensures current == StartState && undoStates == old(undoStates) + [old(current)] && redoStates == []
    {
      var ok := ChangeState(StartState);
    }

    /** `getStates(event)`: with no event, the four allowed states in their
        fixed order; with one, the configured states, in key order, whose
        transitions give a destination for it. */
    function GetStates(event: Option<string>): (r: seq<string>)
      reads this
      requires Valid()
      ensures event.None? ==> r == AllowedStates
      ensures event.Some? ==> IsSubsequence(r, config.stateKeys) && Distinct(r)
      ensures event.Some? ==>
        forall k :: k in r <==> k in config.transitions && event.value in config.transitions[k]
    {
      match event
      case None => AllowedStates
      case Some(e) => StatesWithTransition(config, config.stateKeys, e)
    }

    /** `undo()`: with something to undo, the active state goes on the redo
        stack and the top of the undo stack becomes active; otherwise false
        and nothing changes. */
    method Undo() returns (ok: bool)
      requires Valid()
      modifies this
      ensures Valid()
      ensures Step(ok, Snapshot()) == FsmModel.Undo(old(Snapshot()))
      ensures ok <==> |old(undoStates)| != 0
      ensures ok ==>
        && current == old(undoStates)[|old(undoStates)| - 1]
        && undoStates == old(undoStates)[..|old(undoStates)| - 1]
        && redoStates == old(redoStates) + [old(current)]
      ensures !ok ==> current == old(current) && undoStates == old(undoStates) && redoStates == old(redoStates)
    {
      if |undoStates| != 0 {
        redoStates := redoStates + [current];
        current := undoStates[|undoStates| - 1];
        undoStates := undoStates[..|undoStates| - 1];
        return true;
      }
      return false;
    }

    /** `redo()`: with something to redo, the top of the redo stack becomes
        active; the state it leaves is not pushed on the undo stack. Otherwise
        false and nothing changes. */
    method Redo() returns (ok: bool)
      requires Valid()
      modifies this
      ensures Valid()
      ensures Step(ok, Snapshot()) == FsmModel.Redo(old(Snapshot()))
      ensures ok <==> |old(redoStates)| != 0
      ensures undoStates == old(undoStates)
      ensures ok ==>
        && current == old(redoStates)[|old(redoStates)| - 1]
        && redoStates == old(redoStates)[..|old(redoStates)| - 1]
      ensures !ok ==> current == old(current) && redoStates == old(redoStates)
    {
      if |redoStates| != 0 {
        current := redoStates[|redoStates| - 1];
        redoStates := redoStates[..|redoStates| - 1];
        return true;
      }
      return false;
    }

    /** `clearHistory()`: empties both stacks and keeps the active state. */
    method ClearHistory()
      requires Valid()
      modifies this
      ensures Valid()
      ensures Snapshot() == FsmModel.ClearHistory(old(Snapshot()))
      ensures current == old(current) && undoStates == [] && redoStates == []
    {
      undoStates := [];
      redoStates := [];
    }
  }

  /** An example trigger session: the configuration's own initial state
      is ignored, and a trigger with no transition fails after emptying the
      redo stack. */
  method ExampleTriggers()
  {
    var machine := new FSM(ExampleConfig().(initial := "sleeping"));
    assert machine.GetState() == "normal";
    var ok := machine.Trigger("work");
    assert ok && machine.GetState() == "busy";
    ok := machine.Trigger("rest");
    assert ok && machine.GetState() == "normal";
    ok := machine.Trigger("rest");
    assert !ok && machine.GetState() == "normal" && machine.redoStates == [];
  }

  /** An example undo/redo session: a new change discards what could be
      redone. */
  method ExampleUndoRedo()
  {
    var machine := new FSM(ExampleConfig());
    var ok := machine.ChangeState("busy");
    ok := machine.Undo();
    assert ok && machine.GetState() == "normal";
    ok := machine.ChangeState("hungry");
    ok := machine.Redo();
    assert !ok && machine.GetState() == "hungry";
  }

  /** A state outside the allowed four is rejected, even one the
      configuration could name. */
  method ExampleRejectedState()
  {
    var machine := new FSM(ExampleConfig());
    var ok := machine.ChangeState("angry");
    assert !ok && machine.GetState() == "normal" && machine.undoStates == [];
  }

  /** After `clearHistory()` neither `undo()` nor `redo()` does anything. */
  method ExampleClearHistory()
  {
    var machine := new FSM(ExampleConfig());
    var ok := machine.ChangeState("busy");
    ok := machine.Undo();
    machine.ClearHistory();
    ok := machine.Undo();
    assert !ok;
    ok := machine.Redo();
    assert !ok && machine.GetState() == "normal";
  }

  /** The `getStates` queries on the example configuration. */
  method ExampleQueries()
  {
    var machine := new FSM(ExampleConfig());
    ExampleGetStates();
    assert machine.GetStates(Some("work")) == ["normal"];
    assert machine.GetStates(None) == ["normal", "busy", "hungry", "sleeping"];
  }
}
