/** Showing and hiding an element by its `style.display`: `EPJS_toggle_type`
    and `EPJS_toggle` of 50_toggle.js, the sliding variant
    `EPJS_toggleSlide_aux`, the older `EPJS_toggle` of eprints.js, and the
    comparison helpers `ep_gt` and `ep_lt`. */
module Toggle {
  import opened Dom
  import opened Text

  /** The `current_vis` decision of 50_toggle.js: `start_visible`, overridden
      to false by display `none` and then to true by display `display_type`. */
  function CurrentVis(display: string, startVisible: bool, displayType: string): (vis: bool)
  {
    var v0 := startVisible;
    var v1 := if display == "none" then false else v0;
    if display == displayType then true else v1
  }

  /** The display `EPJS_toggle_type` leaves: `none` for a visible element,
      `display_type` otherwise. */
  function NextDisplay(display: string, startVisible: bool, displayType: string): string
  {
    if CurrentVis(display, startVisible, displayType) then "none" else displayType
  }

  /** A hidden element is shown and a shown one hidden, whatever
      `start_visible` says; any other display is decided by `start_visible`. */
  lemma NextDisplayCases(display: string, startVisible: bool, displayType: string)
    requires displayType != "none"
    ensures display == "none" ==> NextDisplay(display, startVisible, displayType) == displayType
    ensures display == displayType ==> NextDisplay(display, startVisible, displayType) == "none"
    ensures display != "none" && display != displayType ==>
              NextDisplay(display, startVisible, displayType) == if startVisible then "none" else displayType
  {
  }

  /** Toggling twice from `none` or from `display_type` restores the display. */
  lemma ToggleTwice(display: string, startVisible: bool, displayType: string)
    requires displayType != "none" && (display == "none" || display == displayType)
    ensures NextDisplay(NextDisplay(display, startVisible, displayType), startVisible, displayType) == display
  {
    NextDisplayCases(display, startVisible, displayType);
    NextDisplayCases(NextDisplay(display, startVisible, displayType), startVisible, displayType);
  }

  /** After one toggle the element is either `none` or `display_type`, so from
      then on toggles alternate. */
  lemma ToggleSettles(display: string, startVisible: bool, displayType: string)
    requires displayType != "none"
    ensures var d := NextDisplay(display, startVisible, displayType);
            (d == "none" || d == displayType) && NextDisplay(d, startVisible, displayType) != d
  {
  }

  /** `EPJS_toggle_type(element_id, start_visible, display_type)`. */
  method ToggleType(element: Node, startVisible: bool, displayType: string)
    modifies element`display
    ensures element.display == NextDisplay(old(element.display), startVisible, displayType)
  {
    var currentVis := startVisible;
    if element.display == "none" {
      currentVis := false;
    }
    if element.display == displayType {
      currentVis := true;
    }
    if currentVis {
      element.display := "none";
    } else {
      element.display := displayType;
    }
  }

  /** `EPJS_toggle(element_id, start_visible)` of 50_toggle.js: the `block`
      case of `EPJS_toggle_type`. */
  method ToggleBlock(element: Node, startVisible: bool)
    modifies element`display
    ensures element.display == NextDisplay(old(element.display), startVisible, "block")
  {
    ToggleType(element, startVisible, "block");
  }

  /** The animation `EPJS_toggleSlide_aux` starts. */
  datatype Slide =
    | Collapse                 // scale to 0, then display `none`
    | Expand(width: string)    // display `block` from height 0, then scale to full

  /** `EPJS_toggleSlide_aux(element_id, start_visible, scroll_id)`, with the
      parent's measured width when the element has a parent. The element is
      clipped; a visible one is collapsed, any other is shown at height 0
      (20 pixels narrower than its parent) and expanded. */
  method ToggleSlide(element: Node, startVisible: bool, parentWidth: int, hasParent: bool) returns (slide: Slide)
    modifies element
    ensures slide.Collapse? <==> CurrentVis(old(element.display), startVisible, "block")
    ensures element.overflow == "hidden"
    ensures slide.Collapse? ==> element.display == old(element.display) && element.height == old(element.height)
                                && element.width == old(element.width)
    ensures slide.Expand? ==> element.display == "block" && element.height == "0px"
    ensures slide.Expand? && hasParent ==> element.width == slide.width == Decimal(parentWidth - 20) + "px"
    ensures slide.Expand? && !hasParent ==> element.width == old(element.width)
    ensures element.className == old(element.className) && element.value == old(element.value)
    ensures element.disabled == old(element.disabled)
  {
    var currentVis := startVisible;
    if element.display == "none" {
      currentVis := false;
    }
    if element.display == "block" {
      currentVis := true;
    }
    element.overflow := "hidden";
    if currentVis {
      slide := Collapse;
    } else {
      var w := "";
      if hasParent {
        w := Decimal(parentWidth - 20) + "px";
        element.width := w;
      }
      element.height := "0px";
      element.display := "block";
      slide := Expand(w);
    }
  }

  /** Once its animation is over, the slide ends where `EPJS_toggle` would
      have put the element. */
  lemma SlideEndsLikeToggle(display: string, startVisible: bool)
    ensures (if CurrentVis(display, startVisible, "block") then "none" else "block")
            == NextDisplay(display, startVisible, "block")
  {
  }

  /** The `current_vis` decision of `EPJS_toggle` in eprints.js: with
      `start_visible` anything but `none` counts as shown, otherwise only the
      given display does. */
  function OldCurrentVis(display: string, startVisible: bool, given: string): bool
  {
    if startVisible then display != "none" else display == given
  }

  /** `EPJS_toggle(element_id, start_visible, display)` of eprints.js. */
  method ToggleOld(element: Node, startVisible: bool, given: string)
    modifies element`display
    ensures element.display == (if OldCurrentVis(old(element.display), startVisible, given) then "none" else given)
  {
    var currentVis := false;
    if startVisible {
      currentVis := element.display != "none";
    } else {
      currentVis := element.display == given;
    }
    if currentVis {
      element.display := "none";
    } else {
      element.display := given;
    }
  }

  /** The two `EPJS_toggle` definitions decide alike for every display and
      every `start_visible`, as long as the display asked for is not `none`. */
  lemma TogglesAgree(display: string, startVisible: bool, given: string)
    requires given != "none"
    ensures OldCurrentVis(display, startVisible, given) == CurrentVis(display, startVisible, given)
  {
  }

  /** `ep_gt(a, b)`. */
  function Gt(a: int, b: int): bool
  {
    a > b
  }

  /** `ep_lt(a, b)`. */
  function Lt(a: int, b: int): bool
  {
    a < b
  }

  /** `ep_lt` is `ep_gt` with its arguments swapped, and at most one holds. */
  lemma LtIsSwappedGt(a: int, b: int)
    ensures Lt(a, b) == Gt(b, a)
    ensures !(Lt(a, b) && Gt(a, b))
    ensures !Lt(a, b) && !Gt(a, b) <==> a == b
  {
  }
}
