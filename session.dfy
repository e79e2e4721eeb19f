/**
 * The module-level `command_string` and the signal handlers that touch it,
 * from the popup until the decision whether to exec. The exec itself
 * (`shlex.split` and `os.execvp`) is represented by the command it would
 * be handed.
 */
module Session {
  import opened Wrappers

  /** A signal that reaches one of the handlers connected in `make_menu` or on the popup. */
  datatype Event =
    | Activate(command: string)  // a leaf's `activate`: `set_command(widget, command)`
    | Cancel                     // the menu's `cancel`: `Gtk.main_quit`
    | Deactivate                 // the menu's `deactivate`: `Gtk.main_quit`

  /** Python's truthiness of `command_string`: neither `None` nor the empty string. */
  predicate Truthy(commandString: Option<string>) {
    commandString.Some? && commandString.value != ""
  }

  /** `command_string` after one handler has run. */
  function Step(commandString: Option<string>, e: Event): Option<string> {
    match e
    case Activate(command) => Some(command)
    case _ => commandString
  }

  /** `command_string` after the handlers for `events` ran, starting from its initial `None`. */
  function Replay(events: seq<Event>): Option<string> {
    if events == [] then None else Step(Replay(events[..|events| - 1]), events[|events| - 1])
  }

  /** The module state the handlers share: `command_string` and whether the main loop was told to stop. */
  class Selection {
    var commandString: Option<string>
    var quitRequested: bool

    /** `command_string = None` at import time; the main loop has not been told to stop. */
    constructor ()
      ensures commandString == None && !quitRequested
    {
      commandString := None;
      quitRequested := false;
    }

    /** `set_command`: record the leaf's command and quit the main loop. */
    method SetCommand(command: string)
      modifies this
      ensures commandString == Some(command) && quitRequested
    {
      commandString := Some(command);
      quitRequested := true;
    }

    /** The `cancel` and `deactivate` handlers: quit the main loop, selection untouched. */
    method MainQuit()
      modifies this
      ensures commandString == old(commandString) && quitRequested
    {
      quitRequested := true;
    }

    /** Dispatch one signal to its handler. */
    method Handle(e: Event)
      modifies this
      ensures commandString == Step(old(commandString), e) && quitRequested
    {
      match e {
        case Activate(command) => SetCommand(command);
        case Cancel => MainQuit();
        case Deactivate => MainQuit();
      }
    }

    /** The guard `if command_string:`: the command to exec, if any. */
    method ExecTarget() returns (target: Option<string>)
      ensures target.Some? <==> Truthy(commandString)
      ensures target.Some? ==> target == commandString
    {
      if commandString.Some? && commandString.value != "" {
        target := commandString;
      } else {
        target := None;
      }
    }
  }

  /**
   * The menu branch after `make_menu`: the handlers run for the signals
   * emitted before `Gtk.main()` returns, then the exec guard decides.
   * `quit` reports whether any handler told the main loop to stop.
   */
  method RunSession(events: seq<Event>) returns (target: Option<string>, quit: bool)
    ensures target.Some? <==> Truthy(Replay(events))
    ensures target.Some? ==> target == Replay(events)
    ensures target.Some? ==> target.value != "" && Activate(target.value) in events
    ensures quit <==> events != []
  {
    var selection := new Selection();
    var i := 0;
    while i < |events|
      invariant 0 <= i <= |events|
      invariant selection.commandString == Replay(events[..i])
      invariant selection.quitRequested <==> i > 0
    {
      selection.Handle(events[i]);
      assert events[..i + 1][..i] == events[..i];
      i := i + 1;
    }
    assert events[..i] == events;
    target := selection.ExecTarget();
    quit := selection.quitRequested;
    if target.Some? {
      NoExecWithoutSelection(events);
    }
  }

  /** `command_string` stays `None` exactly when no leaf was activated. */
  lemma {:induction false} ReplayNone(events: seq<Event>)
    ensures Replay(events) == None <==> forall i :: 0 <= i < |events| ==> !events[i].Activate?
    decreases |events|
  {
    if events != [] {
      var init := events[..|events| - 1];
      ReplayNone(init);
      assert forall i :: 0 <= i < |init| ==> init[i] == events[i];
    }
  }

  /** Otherwise it holds the command of the last activated leaf. */
  lemma {:induction false} ReplayLastActivation(events: seq<Event>, i: nat)
    requires i < |events| && events[i].Activate?
    requires forall j :: i < j < |events| ==> !events[j].Activate?
    ensures Replay(events) == Some(events[i].command)
    decreases |events|
  {
    if i < |events| - 1 {
      var init := events[..|events| - 1];
      ReplayLastActivation(init, i);
    }
  }

  /**
   * Nothing is executed unless a leaf with a non-empty command was activated,
   * and what is executed is such a leaf's command.
   */
  lemma {:induction false} NoExecWithoutSelection(events: seq<Event>)
    requires Truthy(Replay(events))
    ensures Replay(events).value != ""
    ensures Activate(Replay(events).value) in events
    decreases |events|
  {
    var init, last := events[..|events| - 1], events[|events| - 1];
    if !last.Activate? {
      NoExecWithoutSelection(init);
      assert Activate(Replay(init).value) in init;
    }
  }

  /** Cancelling or deactivating the menu, in any number, executes nothing. */
  lemma CancelExecutesNothing(events: seq<Event>)
    requires forall i :: 0 <= i < |events| ==> events[i] == Cancel || events[i] == Deactivate
    ensures !Truthy(Replay(events))
  {
    ReplayNone(events);
  }
}
