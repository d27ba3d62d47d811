/** `ep_showTab(baseid, tabid)`: every panel under `<baseid>_panels` is
    hidden and every selected tab under `<baseid>_tabs` deselected, then the
    chosen panel is shown and its tab selected. There are two definitions:
    the one in 50_tabs.js skips child nodes that have no `style` (text
    nodes); the one in eprints.js does not, and fails on the first such
    node. The containers' children are given as sequences and the chosen
    panel and tab as possibly-missing nodes; blurring the tab's links and
    its `font_size` property have no modelled effect. */
module Tabs {
  import opened Dom

  /** What the call came to: a return value, or a thrown TypeError. */
  datatype TabOutcome = Returned(value: bool) | Thrown

  /** A selected tab becomes a plain tab; other class names stay. */
  function Deselect(className: string): string
  {
    if className == "ep_tab_selected" then "ep_tab" else className
  }

  /** The first child without a style, or the number of children. */
  function FirstStyleless(nodes: seq<Node>): (j: nat)
    ensures j <= |nodes|
    ensures j < |nodes| ==> !nodes[j].hasStyle
    ensures forall k :: 0 <= k < j ==> nodes[k].hasStyle
    decreases |nodes|
  {
    if |nodes| == 0 || !nodes[0].hasStyle then 0 else 1 + FirstStyleless(nodes[1..])
  }

  /** The first loop of 50_tabs.js: every child with a style is hidden. */
  method HidePanels(panels: seq<Node>)
    modifies (set n | n in panels)`display
    ensures forall n :: n in panels && n.hasStyle ==> n.display == "none"
    ensures forall n :: n in panels && !n.hasStyle ==> n.display == old(n.display)
    ensures forall n :: n in panels ==> n.className == old(n.className)
  {
    for i := 0 to |panels|
      invariant forall n :: n in panels[..i] && n.hasStyle ==> n.display == "none"
      invariant forall n :: n in panels && !(n in panels[..i] && n.hasStyle) ==> n.display == old(n.display)
      invariant forall n :: n in panels ==> n.className == old(n.className)
    {
      assert panels[..i + 1] == panels[..i] + [panels[i]];
      if panels[i].hasStyle {
        panels[i].display := "none";
      }
    }
    assert panels[..|panels|] == panels;
  }

  /** The tab loop (the same in both definitions): selected tabs become plain
      tabs. */
  method DeselectTabs(tabs: seq<Node>)
    modifies (set n | n in tabs)`className
    ensures forall n :: n in tabs ==> n.className == Deselect(old(n.className)) && n.display == old(n.display)
  {
    for i := 0 to |tabs|
      invariant forall n :: n in tabs[..i] ==> n.className == Deselect(old(n.className))
      invariant forall n :: n in tabs && n !in tabs[..i] ==> n.className == old(n.className)
      invariant forall n :: n in tabs ==> n.display == old(n.display)
    {
      assert tabs[..i + 1] == tabs[..i] + [tabs[i]];
      if tabs[i].className == "ep_tab_selected" {
        tabs[i].className := "ep_tab";
      }
    }
    assert tabs[..|tabs|] == tabs;
  }

  /** `ep_showTab` of 50_tabs.js. A missing panel or tab fails after the
      loops, when its style or class is written. */
  method ShowTab(panels: seq<Node>, tabs: seq<Node>, panel: Node?, tab: Node?) returns (outcome: TabOutcome)
    requires panel != null ==> panel.hasStyle
    modifies (set n: Node | n in panels || n == panel)`display, (set n: Node | n in tabs || n == tab)`className
    ensures outcome == if panel != null && tab != null then Returned(false) else Thrown
    ensures forall n :: n in panels && n.hasStyle && n != panel ==> n.display == "none"
    ensures forall n :: n in panels && !n.hasStyle ==> n.display == old(n.display)
    ensures panel != null ==> panel.display == "block"
    ensures panel != null && panel in panels ==>
              forall n :: n in panels && n.hasStyle && n.display == "block" ==> n == panel
    ensures forall n :: n in tabs && (n != tab || panel == null) ==> n.className == Deselect(old(n.className))
    ensures panel != null && tab != null ==> tab.className == "ep_tab_selected"
  {
    HidePanels(panels);
    DeselectTabs(tabs);
    if panel == null {
      return Thrown;
    }
    panel.display := "block";
    if tab == null {
      return Thrown;
    }
    tab.className := "ep_tab_selected";
    return Returned(false);
  }

  /** `ep_showTab` of eprints.js: the panel loop writes the style of every
      child, so the first child without one (a text node) throws, leaving the
      children before it hidden and nothing else changed. */
  method ShowTabAsWritten(panels: seq<Node>, tabs: seq<Node>, panel: Node?, tab: Node?) returns (outcome: TabOutcome)
    requires panel != null ==> panel.hasStyle
    modifies (set n: Node | n in panels || n == panel)`display, (set n: Node | n in tabs || n == tab)`className
    ensures var j := FirstStyleless(panels);
            j < |panels| ==>
              && outcome == Thrown
              && (forall n :: n in panels[..j] ==> n.display == "none")
              && (forall n :: n in panels && n !in panels[..j] ==> n.display == old(n.display))
              && (forall n :: n in tabs ==> n.className == old(n.className))
              && (panel != null && panel !in panels[..j] ==> panel.display == old(panel.display))
              && (tab != null ==> tab.className == old(tab.className))
    ensures FirstStyleless(panels) == |panels| ==>
              && outcome == (if panel != null && tab != null then Returned(false) else Thrown)
              && (forall n :: n in panels && n != panel ==> n.display == "none")
              && (panel != null ==> panel.display == "block")
              && (forall n :: n in tabs && (n != tab || panel == null) ==> n.className == Deselect(old(n.className)))
              && (panel != null && tab != null ==> tab.className == "ep_tab_selected")
  {
    var i := 0;
    while i < |panels|
      invariant i <= |panels|
      invariant forall k :: 0 <= k < i ==> panels[k].hasStyle
      invariant forall n :: n in panels[..i] ==> n.display == "none"
      invariant forall n :: n in panels && n !in panels[..i] ==> n.display == old(n.display)
      invariant forall n :: n in panels ==> n.className == old(n.className)
      invariant FirstStyleless(panels) >= i
      invariant forall n :: n in tabs ==> n.className == old(n.className)
      invariant panel != null && panel !in panels[..i] ==> panel.display == old(panel.display)
      invariant tab != null ==> tab.className == old(tab.className)
    {
      if !panels[i].hasStyle {
        assert FirstStyleless(panels) == i;
        return Thrown;
      }
      assert panels[..i + 1] == panels[..i] + [panels[i]];
      panels[i].display := "none";
      i := i + 1;
    }
    assert panels[..|panels|] == panels;
    DeselectTabs(tabs);
    if panel == null {
      return Thrown;
    }
    panel.display := "block";
    if tab == null {
      return Thrown;
    }
    tab.className := "ep_tab_selected";
    return Returned(false);
  }

  /** Panels separated by white space: a text node before the panel makes
      the eprints.js definition throw, while 50_tabs.js shows the panel. */
  method TextNodeExample() returns (asWritten: TabOutcome, guarded: TabOutcome, shown: string)
    ensures asWritten == Thrown && guarded == Returned(false) && shown == "block"
  {
    var text := new Node(false, "", "");
    var div := new Node(true, "block", "");
    var tabNode := new Node(true, "", "ep_tab");
    asWritten := ShowTabAsWritten([text, div], [tabNode], div, tabNode);
    guarded := ShowTab([text, div], [tabNode], div, tabNode);
    shown := div.display;
  }
}
