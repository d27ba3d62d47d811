/** The key handler the site installs on the script.aculo.us autocompleter.
    There are two versions: the one in 70_autocomplete.js, which also calls
    the `change` option and stops UP and DOWN only on WebKit, and the one that
    35_workarounds.js and 75_workarounds.js both define (their text is the
    same), which ignores WebKit's keyCode 0 while the list is closed. The
    library calls the handler makes are recorded, in order, as effects. */
module AutocompleteKeys {

  const KeyTab := 9
  const KeyReturn := 13
  const KeyEsc := 27
  const KeyLeft := 37
  const KeyUp := 38
  const KeyRight := 39
  const KeyDown := 40

  datatype Variant =
    | WithChange   // 70_autocomplete.js
    | Workaround   // 35_workarounds.js and 75_workarounds.js

  /** Calls into the autocompleter, the event and the timer API. */
  datatype Effect =
    | SelectEntry | Hide | StopEvent | MarkPrevious | MarkNext | Render
    | CallChange                 // options.change(element, container)
    | ClearObserver              // clearTimeout(observer)
    | StartObserver(delay: real) // setTimeout(onObserverEvent, delay)

  /** The autocompleter's flags: whether the list is shown and in use, whether
      the text changed since the last query, focus, and whether an observer
      timeout has been set. */
  datatype Flags = Flags(active: bool, changed: bool, hasFocus: bool, observing: bool)

  /** The keys the closed list lets through without any effect. */
  predicate IgnoredWhenInactive(v: Variant, key: int, webkit: bool)
  {
    key == KeyTab || key == KeyReturn || (v == Workaround && webkit && key == 0)
  }

  /** Keys the open list handles itself; every other key is typing. */
  predicate NavigationKey(key: int)
  {
    key == KeyReturn || key == KeyEsc || key == KeyLeft || key == KeyRight || key == KeyUp || key == KeyDown
  }

  /** Typing: the text is marked changed and focused, the variant with
      `change` calls it, and the observer timeout is cleared and set again. */
  function Typing(v: Variant, f: Flags, frequency: real): (Flags, seq<Effect>)
  {
    (Flags(f.active, true, true, true),
     (if v == WithChange then [CallChange] else [])
     + (if f.observing then [ClearObserver] else [])
     + [StartObserver(frequency * 1000.0)])
  }

  /** What one key press does to the flags, and the calls it makes. */
  function KeyPress(v: Variant, f: Flags, key: int, webkit: bool, frequency: real): (Flags, seq<Effect>)
  {
    if f.active then
      if key == KeyReturn then (f.(active := false), [SelectEntry, StopEvent, Hide, StopEvent])
      else if key == KeyEsc then (f.(active := false), [Hide, StopEvent])
      else if key == KeyLeft || key == KeyRight then (f, [])
      else if key == KeyUp || key == KeyDown then
        var moves := if key == KeyUp then [MarkPrevious, Render] else [MarkNext, Render];
        (f, moves + (if v == Workaround || webkit then [StopEvent] else []))
      else Typing(v, f, frequency)
    else if IgnoredWhenInactive(v, key, webkit) then (f, [])
    else Typing(v, f, frequency)
  }

  /** On the open list RETURN selects the entry and then falls through to the
      ESC case: the list is hidden and no longer active. */
  lemma ReturnFallsThroughToEsc(v: Variant, f: Flags, webkit: bool, frequency: real)
    requires f.active
    ensures KeyPress(v, f, KeyReturn, webkit, frequency)
            == (f.(active := false), [SelectEntry, StopEvent] + KeyPress(v, f, KeyEsc, webkit, frequency).1)
    ensures KeyPress(v, f, KeyEsc, webkit, frequency) == (f.(active := false), [Hide, StopEvent])
  {
    assert [SelectEntry, StopEvent] + [Hide, StopEvent] == [SelectEntry, StopEvent, Hide, StopEvent];
  }

  /** On the open list LEFT and RIGHT do nothing, and UP and DOWN only move
      the mark and redraw; the event is stopped unless this is the
      `change` version off WebKit. */
  lemma ArrowKeys(v: Variant, f: Flags, key: int, webkit: bool, frequency: real)
    requires f.active && (key == KeyLeft || key == KeyRight || key == KeyUp || key == KeyDown)
    ensures var r := KeyPress(v, f, key, webkit, frequency);
            && r.0 == f
            && (key == KeyLeft || key == KeyRight ==> r.1 == [])
            && (key == KeyUp ==> r.1[..2] == [MarkPrevious, Render])
            && (key == KeyDown ==> r.1[..2] == [MarkNext, Render])
            && (key == KeyUp || key == KeyDown ==> (StopEvent in r.1 <==> v == Workaround || webkit))
  {
  }

  /** On the closed list TAB and RETURN, and for the workaround WebKit's
      keyCode 0, do nothing at all. */
  lemma IgnoredKeys(v: Variant, f: Flags, key: int, webkit: bool, frequency: real)
    requires !f.active && IgnoredWhenInactive(v, key, webkit)
    ensures KeyPress(v, f, key, webkit, frequency) == (f, [])
  {
  }

  /** Any other key is typing: it marks the text changed and focused, only the
      `change` version calls `change`, a pending observer timeout is cleared,
      and a new one is set last; nothing is selected or hidden. */
  lemma OtherKeysAreTyping(v: Variant, f: Flags, key: int, webkit: bool, frequency: real)
    requires if f.active then !NavigationKey(key) else !IgnoredWhenInactive(v, key, webkit)
    ensures var r := KeyPress(v, f, key, webkit, frequency);
            && r.0 == Flags(f.active, true, true, true)
            && (CallChange in r.1 <==> v == WithChange)
            && (ClearObserver in r.1 <==> f.observing)
            && |r.1| > 0 && r.1[|r.1| - 1] == StartObserver(frequency * 1000.0)
            && SelectEntry !in r.1 && Hide !in r.1
  {
  }

  /** The two versions leave the same flags after any key, except WebKit's
      keyCode 0 on a closed list, which only the workaround ignores. */
  lemma VariantsAgreeOnFlags(f: Flags, key: int, webkit: bool, frequency: real)
    requires !(!f.active && webkit && key == 0)
    ensures KeyPress(WithChange, f, key, webkit, frequency).0 == KeyPress(Workaround, f, key, webkit, frequency).0
  {
  }

  /** Their calls differ only by `change` and by the stop of UP and DOWN off
      WebKit. */
  lemma VariantsDifferInChange(f: Flags, key: int, webkit: bool, frequency: real)
    requires !(!f.active && webkit && key == 0)
    requires !(f.active && (key == KeyUp || key == KeyDown))
    ensures var a := KeyPress(WithChange, f, key, webkit, frequency).1;
            var b := KeyPress(Workaround, f, key, webkit, frequency).1;
            a == b || a == [CallChange] + b
  {
  }

  /** Once RETURN or ESC has closed the list, a further RETURN does nothing. */
  lemma CloseThenReturnIsQuiet(v: Variant, f: Flags, key: int, webkit: bool, frequency: real)
    requires f.active && (key == KeyReturn || key == KeyEsc)
    ensures var g := KeyPress(v, f, key, webkit, frequency).0;
            !g.active && KeyPress(v, g, KeyReturn, webkit, frequency) == (g, [])
  {
  }

  /** Typing never opens or closes the list. */
  lemma TypingKeepsActive(v: Variant, f: Flags, key: int, webkit: bool, frequency: real)
    ensures KeyPress(v, f, key, webkit, frequency).0.active == (f.active && key != KeyReturn && key != KeyEsc)
  {
  }

  /** An autocompleter the handler is installed on. */
  class Autocompleter {
    const frequency: real
    var active: bool
    var changed: bool
    var hasFocus: bool
    var observing: bool
    var effects: seq<Effect>

    constructor (frequency: real)
      ensures this.frequency == frequency && !active && !changed && !hasFocus && !observing && effects == []
    {
      this.frequency := frequency;
      active := false;
      changed := false;
      hasFocus := false;
      observing := false;
      effects := [];
    }

    function State(): Flags
      reads this
    {
      Flags(active, changed, hasFocus, observing)
    }

    /** `onKeyPress(event)` of the given version, with `webkit` for the
        browser test it makes. */
    method OnKeyPress(v: Variant, key: int, webkit: bool)
      modifies this
      ensures State() == KeyPress(v, old(State()), key, webkit, frequency).0
      ensures effects == old(effects) + KeyPress(v, old(State()), key, webkit, frequency).1
    {
      if active {
        if key == KeyReturn || key == KeyEsc {
          Close(key == KeyReturn);
          return;
        } else if key == KeyLeft || key == KeyRight {
          return;
        } else if key == KeyUp || key == KeyDown {
          MoveMark(key == KeyUp, v == Workaround || webkit);
          return;
        }
      } else if key == KeyTab || key == KeyReturn || (v == Workaround && webkit && key == 0) {
        return;
      }
      Type(v);
    }

    /** The RETURN case (selecting the entry) falling into the ESC case. */
    method Close(select: bool)
      modifies this
      ensures State() == old(State()).(active := false)
      ensures effects == old(effects) + (if select then [SelectEntry, StopEvent] else []) + [Hide, StopEvent]
    {
      if select {
        effects := effects + [SelectEntry];
        effects := effects + [StopEvent];
      }
      effects := effects + [Hide];
      active := false;
      effects := effects + [StopEvent];
    }

    /** The UP and DOWN cases. */
    method MoveMark(up: bool, stop: bool)
      modifies this
      ensures State() == old(State())
      ensures effects == old(effects) + (if up then [MarkPrevious, Render] else [MarkNext, Render])
                         + (if stop then [StopEvent] else [])
    {
      effects := effects + (if up then [MarkPrevious] else [MarkNext]);
      effects := effects + [Render];
      if stop {
        effects := effects + [StopEvent];
      }
    }

    /** What follows the switch: the key counts as typing. */
    method Type(v: Variant)
      modifies this
      ensures State() == Typing(v, old(State()), frequency).0
      ensures effects == old(effects) + Typing(v, old(State()), frequency).1
    {
      changed := true;
      hasFocus := true;
      if v == WithChange {
        effects := effects + [CallChange];
      }
      if observing {
        effects := effects + [ClearObserver];
      }
      observing := true;
      effects := effects + [StartObserver(frequency * 1000.0)];
    }
  }
}
