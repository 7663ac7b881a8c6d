/** The matching rule of `handleKeyDown` in src/hooks/useKeyboardShortcuts.ts:
    the shortcuts are tried in list order and the first one that matches the
    key event has its default action prevented and its handler run. */
module KeyboardShortcuts {
  import opened Types
  import opened Text

  /** A registered shortcut; an omitted modifier flag is `false`. The handler
      itself is code the model does not see: running it is an effect. */
  datatype Shortcut = Shortcut(key: string, ctrlKey: bool, metaKey: bool, shiftKey: bool)

  /** The parts of a `KeyboardEvent` the rule reads. */
  datatype KeyEvent = KeyEvent(key: string, ctrlKey: bool, metaKey: bool, shiftKey: bool)

  /** What handling an event does to the outside world, in order. */
  datatype Effect = PreventDefault | RunHandler(index: nat)

  /** The key is compared case-insensitively; a shortcut that asks for Ctrl
      or Meta is satisfied by either; Shift is checked only when the shortcut
      asks for it. */
  predicate Matches(shortcut: Shortcut, e: KeyEvent) {
    var ctrlOrMeta := shortcut.ctrlKey || shortcut.metaKey;
    var isCtrlOrMetaPressed := e.ctrlKey || e.metaKey;
    && Lower(e.key) == Lower(shortcut.key)
    && (!ctrlOrMeta || isCtrlOrMetaPressed)
    && (!shortcut.shiftKey || e.shiftKey)
  }

  /** `handleKeyDown`: the index of the shortcut whose handler ran, if any,
      and the effects in the order they happened. */
  method HandleKeyDown(shortcuts: seq<Shortcut>, e: KeyEvent) returns (fired: Option<nat>, effects: seq<Effect>)
    ensures fired.None? <==> forall i :: 0 <= i < |shortcuts| ==> !Matches(shortcuts[i], e)
    ensures fired.Some? ==>
      && fired.value < |shortcuts|
      && Matches(shortcuts[fired.value], e)
      && forall i :: 0 <= i < fired.value ==> !Matches(shortcuts[i], e)
    ensures effects == if fired.Some? then [PreventDefault, RunHandler(fired.value)] else []
  {
    fired := None;
    effects := [];
    var i := 0;
    while i < |shortcuts|
      invariant 0 <= i <= |shortcuts|
      invariant forall j :: 0 <= j < i ==> !Matches(shortcuts[j], e)
    {
      var shortcut := shortcuts[i];
      var ctrlOrMeta := shortcut.ctrlKey || shortcut.metaKey;
      var isCtrlOrMetaPressed := e.ctrlKey || e.metaKey;
      if Lower(e.key) == Lower(shortcut.key) && (!ctrlOrMeta || isCtrlOrMetaPressed) && (!shortcut.shiftKey || e.shiftKey) {
        effects := effects + [PreventDefault];
        effects := effects + [RunHandler(i)];
        fired := Some(i);
        break;
      }
      i := i + 1;
    }
  }

  /** Only the lower-cased key matters: an event matches exactly when the
      same event with its key lower-cased does. */
  lemma KeyCaseInsensitive(shortcut: Shortcut, e: KeyEvent)
    ensures Matches(shortcut, e) <==> Matches(shortcut, e.(key := Lower(e.key)))
  {
    LowerIdempotent(e.key);
  }

  /** Changing the case of a shortcut's key does not change what it matches. */
  lemma ShortcutCaseInsensitive(shortcut: Shortcut, e: KeyEvent)
    ensures Matches(shortcut, e) <==> Matches(shortcut.(key := Lower(shortcut.key)), e)
  {
    LowerIdempotent(shortcut.key);
  }

  /** A shortcut that asks for Ctrl or for Meta is satisfied by either of
      them, and by neither it is not. */
  lemma CtrlOrMeta(shortcut: Shortcut, e: KeyEvent)
    requires shortcut.ctrlKey || shortcut.metaKey
    requires Lower(e.key) == Lower(shortcut.key) && (!shortcut.shiftKey || e.shiftKey)
    ensures Matches(shortcut, e) <==> e.ctrlKey || e.metaKey
  {
  }

  /** A shortcut without modifiers matches its key whatever is held down. */
  lemma NoModifiersAnyHeld(shortcut: Shortcut, e: KeyEvent)
    requires !shortcut.ctrlKey && !shortcut.metaKey && !shortcut.shiftKey
    ensures Matches(shortcut, e) <==> Lower(e.key) == Lower(shortcut.key)
  {
  }

  /** Holding down Ctrl, Meta or Shift in addition never stops a match. */
  lemma ExtraModifiersHarmless(shortcut: Shortcut, e: KeyEvent, ctrl: bool, meta: bool, shift: bool)
    requires Matches(shortcut, e)
    ensures Matches(shortcut, KeyEvent(e.key, e.ctrlKey || ctrl, e.metaKey || meta, e.shiftKey || shift))
  {
  }
}
