/** The key handlers for text inputs: `EPJS_block_enter` keeps Enter from
    submitting the form, and `EPJS_enter_click` turns Enter into a click on
    a given button. Both read the key from `event.which` when it is truthy
    and from `event.keyCode` otherwise. */
module EnterKeys {
  import opened Wrappers

  const Enter := 13

  /** The key the handlers read: a present, non-zero `which`, else `keyCode`. */
  function KeyOf(which: Option<int>, keyCode: int): (key: int)
    ensures which.Some? && which.value != 0 ==> key == which.value
    ensures which.None? || which.value == 0 ==> key == keyCode
  {
    if which.Some? && which.value != 0 then which.value else keyCode
  }

  /** `EPJS_block_enter(event)`: false, which cancels the key, exactly for
      Enter. */
  function BlockEnter(which: Option<int>, keyCode: int): (allowed: bool)
  {
    KeyOf(which, keyCode) != Enter
  }

  /** Enter is blocked whichever field reports it; a non-zero `which` other
      than Enter lets the key through even when `keyCode` says Enter. */
  lemma BlockEnterCases(which: Option<int>, keyCode: int)
    ensures which.Some? && which.value == Enter ==> !BlockEnter(which, keyCode)
    ensures (which.None? || which.value == 0) ==> (BlockEnter(which, keyCode) <==> keyCode != Enter)
    ensures which.Some? && which.value != 0 && which.value != Enter ==> BlockEnter(which, keyCode)
  {
  }

  /** A button that can be clicked; `clicks` counts the clicks. */
  class Button {
    var clicks: nat

    constructor ()
      ensures clicks == 0
    {
      clicks := 0;
    }
  }

  /** `EPJS_enter_click(event, buttonid)`: Enter clicks the button and is
      cancelled; any other key does nothing and goes through. */
  method EnterClick(button: Button, which: Option<int>, keyCode: int) returns (allowed: bool)
    modifies button
    ensures allowed == BlockEnter(which, keyCode)
    ensures button.clicks == old(button.clicks) + (if KeyOf(which, keyCode) == Enter then 1 else 0)
  {
    var key := KeyOf(which, keyCode);
    if key == Enter {
      button.clicks := button.clicks + 1;
    }
    allowed := key != Enter;
  }
}
