/**
 * The toolbar's mode switching: `set_mode` temporarily selects a mode and
 * remembers, once, the mode to return to; `unset_mode` returns to it.
 *
 * The state is the edit-subset mode currently in force together with the
 * optional backup. Triggering a mode's action is modelled as assigning that
 * mode, which is all the action's slot does. A raised exception does not
 * undo what happened before it, so every call yields the state after it
 * together with the error it raised, if any.
 */
module ModeSwitch {
  import opened Options
  import opened EditModes

  /** The current combination mode and the mode saved by the first `set_mode`. */
  datatype Switch = Switch(current: Mode, backup: Option<Mode>)

  /**
   * The argument of `set_mode`: a string label, one of the registered mode
   * variants, or any other non-string value (which has no action).
   */
  datatype ModeArg = Named(name: string) | Variant(mode: Mode) | Unregistered

  /** The two KeyErrors `set_mode` can raise. */
  datatype KeyError = UnrecognizedMode(name: string) | MissingAction

  /** The state after a call and the error it raised, if any. */
  datatype Outcome = Outcome(state: Switch, raised: Option<KeyError>)

  /** The mode the next `unset_mode` leaves in force. */
  function RestorePoint(s: Switch): Mode {
    s.backup.GetOr(s.current)
  }

  /**
   * The toolbar after construction: the session's mode is triggered and no
   * backup is held, so an `unset_mode` before any `set_mode` changes nothing.
   */
  function Init(sessionMode: Mode): (s: Switch)
    ensures s.current == sessionMode && RestorePoint(s) == sessionMode
    ensures UnsetMode(s) == s
  {
    Trigger(Switch(sessionMode, None), sessionMode)
  }

  /** Triggering the action of `m`: its slot assigns `m` to the edit-subset mode. */
  function Trigger(s: Switch, m: Mode): (r: Switch)
    ensures r.current == m && r.backup == s.backup
  {
    s.(current := Actions[ActionIndex(m)].mode)
  }

  /** `backup or current`: keep a held backup, else save the current mode. */
  function SaveBackup(s: Switch): (r: Switch)
    ensures r.current == s.current && r.backup.Some?
    ensures s.backup.Some? ==> r.backup == s.backup
    ensures RestorePoint(r) == RestorePoint(s)
  {
    if s.backup.Some? then s else s.(backup := Some(s.current))
  }

  /** `set_mode(arg)` succeeds: a known label, or a mode variant. */
  predicate Recognised(arg: ModeArg) {
    match arg
    case Named(name) => exists m :: LabelOf(m) == name
    case Variant(_) => true
    case Unregistered => false
  }

  /** The call gets past the label lookup: anything but an unknown label. */
  predicate PassesLookup(arg: ModeArg) {
    !arg.Named? || Recognised(arg)
  }

  /** The mode a successful `set_mode(arg)` puts in force, when there is one. */
  function Requested(arg: ModeArg): Option<Mode> {
    match arg
    case Named(name) => LookupLabel(name)
    case Variant(m) => Some(m)
    case Unregistered => None
  }

  /**
   * `set_mode(arg)`. A string is first looked up among the labels; an
   * unknown one raises before anything changes. Otherwise the backup is
   * saved (only if none is held) and the mode's action is triggered; a
   * non-string without an action raises only after the backup is saved.
   */
  function SetMode(s: Switch, arg: ModeArg): (r: Outcome)
    ensures r.raised.None? <==> Recognised(arg)
    ensures r.raised.None? ==> Requested(arg).Some? && r.state.current == Requested(arg).value
    ensures !PassesLookup(arg) ==> r.state == s && r.raised == Some(UnrecognizedMode(arg.name))
    ensures arg.Unregistered? ==> r.state.current == s.current && r.raised == Some(MissingAction)
    ensures PassesLookup(arg) ==> r.state.backup == Some(RestorePoint(s))
    ensures RestorePoint(r.state) == RestorePoint(s)
  {
    match arg
    case Named(name) =>
      (match LookupLabel(name)
       case None => Outcome(s, Some(UnrecognizedMode(name)))
       case Some(m) => Outcome(Trigger(SaveBackup(s), m), None))
    case Variant(m) => Outcome(Trigger(SaveBackup(s), m), None)
    case Unregistered => Outcome(SaveBackup(s), Some(MissingAction))
  }

  /**
   * `unset_mode()`: take the backup, clear it, and trigger its action when
   * one was held.
   */
  function UnsetMode(s: Switch): (r: Switch)
    ensures r.current == RestorePoint(s) && r.backup.None?
    ensures s.backup.None? ==> r == s
  {
    match s.backup
    case None => s.(backup := None)
    case Some(m) => Trigger(s.(backup := None), m)
  }

  /** A run of `set_mode` calls; a call that raises leaves its partial effect and the run goes on. */
  function SetModes(s: Switch, args: seq<ModeArg>): Switch
    decreases |args|
  {
    if args == [] then s else SetModes(SetMode(s, args[0]).state, args[1..])
  }

  /** No run of `set_mode` calls moves the point `unset_mode` returns to. */
  lemma {:induction false} SetModesKeepRestorePoint(s: Switch, args: seq<ModeArg>)
    ensures RestorePoint(SetModes(s, args)) == RestorePoint(s)
    decreases |args|
  {
    if args != [] {
      SetModesKeepRestorePoint(SetMode(s, args[0]).state, args[1..]);
    }
  }

  /**
   * The backup is sticky: once held, no run of `set_mode` calls replaces
   * it, and a run that reaches a successful call or an unregistered key
   * holds, as backup, the mode in force before the run began.
   */
  lemma {:induction false} SetModesStickyBackup(s: Switch, args: seq<ModeArg>)
    ensures s.backup.Some? ==> SetModes(s, args).backup == s.backup
    ensures (exists i :: 0 <= i < |args| && PassesLookup(args[i])) ==>
      SetModes(s, args).backup == Some(RestorePoint(s))
    decreases |args|
  {
    if args != [] {
      var next := SetMode(s, args[0]).state;
      SetModesStickyBackup(next, args[1..]);
      if exists i :: 0 <= i < |args| && PassesLookup(args[i]) {
        var i :| 0 <= i < |args| && PassesLookup(args[i]);
        if i > 0 {
          assert args[1..][i - 1] == args[i];
        }
      }
    }
  }

  /**
   * `set_mode(a)` then `set_mode(b)` with both recognised: `b` is in force
   * and the backup is still the mode in force before the first call.
   */
  lemma SetTwiceKeepsFirstBackup(s: Switch, a: ModeArg, b: ModeArg)
    requires s.backup.None?
    requires Recognised(a) && Recognised(b)
    ensures var r := SetMode(SetMode(s, a).state, b);
      r.raised.None? && r.state.current == Requested(b).value && r.state.backup == Some(s.current)
  {
  }

  /**
   * Any run of `set_mode` calls followed by `unset_mode` puts back the mode
   * in force before the run (or the backup already held) and clears the
   * backup, and a second `unset_mode` changes nothing.
   */
  lemma SetModesThenUnsetRestores(s: Switch, args: seq<ModeArg>)
    ensures UnsetMode(SetModes(s, args)).current == RestorePoint(s)
    ensures s.backup.None? ==> UnsetMode(SetModes(s, args)) == Switch(s.current, None)
    ensures UnsetMode(UnsetMode(SetModes(s, args))) == UnsetMode(SetModes(s, args))
  {
    SetModesKeepRestorePoint(s, args);
  }

  /** `unset_mode` acts once: a second call is a no-op. */
  lemma UnsetModeIdempotent(s: Switch)
    ensures UnsetMode(UnsetMode(s)) == UnsetMode(s)
  {
  }
}
