/**
 The keyboard handler `_keyHandler` of the browser host (src/view-browser.js,
 lines 282-315): with Ctrl or Cmd held, and neither Alt nor Shift, seven key
 codes trigger a view command and suppress the browser's default action.
 */
module Shortcuts {
  import opened Wrappers

  /** The view commands a shortcut can trigger. */
  datatype Command =
    | Find            // Ctrl+F: `view.find()`
    | ToggleDetails   // Ctrl+D: `view.toggleDetails()`
    | ToggleNames     // Ctrl+U: `view.toggleNames()`
    | ShowProperties  // Ctrl+Return: clicks the model properties button
    | ResetZoom       // Ctrl+Backspace: `view.resetZoom()`
    | ZoomIn          // Ctrl+Up: clicks the zoom-in button
    | ZoomOut         // Ctrl+Down: clicks the zoom-out button

  /** The fields of a `keydown` event the handler reads. */
  datatype KeyEvent = KeyEvent(altKey: bool, shiftKey: bool, ctrlKey: bool, metaKey: bool, keyCode: int)

  /** What the handler did: the command it ran, if any, and whether it called `preventDefault()`. */
  datatype Outcome = Outcome(command: Option<Command>, preventDefault: bool)

  /** The key each command is bound to (the `case` labels of lines 285-309). */
  function KeyCodeOf(c: Command): int {
    match c
    case Find => 70
    case ToggleDetails => 68
    case ToggleNames => 85
    case ShowProperties => 13
    case ResetZoom => 8
    case ZoomIn => 38
    case ZoomOut => 40
  }

  /** The `switch (e.keyCode)` of line 284: an unlisted code does nothing. */
  function CommandFor(keyCode: int): (r: Option<Command>)
    ensures r.Some? ==> KeyCodeOf(r.value) == keyCode
    ensures r.None? ==> forall c: Command :: KeyCodeOf(c) != keyCode
  {
    match keyCode
    case 70 => Some(Find)
    case 68 => Some(ToggleDetails)
    case 85 => Some(ToggleNames)
    case 13 => Some(ShowProperties)
    case 8 => Some(ResetZoom)
    case 38 => Some(ZoomIn)
    case 40 => Some(ZoomOut)
    case _ => None
  }

  /** Every command is reachable: its own key selects it. */
  lemma CommandForKeyCodeOf(c: Command)
    ensures CommandFor(KeyCodeOf(c)) == Some(c)
  {
  }

  /** The modifier test of line 283. */
  predicate ShortcutModifiers(e: KeyEvent) {
    !e.altKey && !e.shiftKey && (e.ctrlKey || e.metaKey)
  }

  /**
   `_keyHandler(e)`: a command runs exactly when the modifiers are right and
   the key is bound, it is the command bound to that key, and the default
   action is prevented exactly when a command runs.
   */
  function HandleKey(e: KeyEvent): (o: Outcome)
    ensures o.preventDefault <==> o.command.Some?
    ensures o.command.Some? <==> ShortcutModifiers(e) && exists c: Command :: KeyCodeOf(c) == e.keyCode
    ensures o.command.Some? ==> KeyCodeOf(o.command.value) == e.keyCode
  {
    if ShortcutModifiers(e) then
      var command := CommandFor(e.keyCode);
      Outcome(command, command.Some?)
    else Outcome(None, false)
  }
}
