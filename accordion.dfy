/** The collapsible category sections of the list pages. */
module Accordion {

  /** One rendered category: its header and its content element, each with its `active` class. */
  class Section {
    var headerActive: bool
    var contentActive: bool

    /** Header and content agree, so the section is either wholly expanded or wholly collapsed. */
    predicate InStep()
      reads this
    {
      headerActive == contentActive
    }

    /** A section is rendered expanded: `category-header active` and `category-content active`. */
    constructor ()
      ensures headerActive && contentActive
      ensures InStep()
    {
      headerActive, contentActive := true, true;
    }

    /** The header's click handler: toggle `active` on the header and on the content. */
    method Click()
      modifies this
      ensures headerActive == !old(headerActive)
      ensures contentActive == !old(contentActive)
      ensures old(InStep()) ==> InStep()
    {
      headerActive := !headerActive;
      contentActive := !contentActive;
    }
  }

  /** Two clicks on a header bring its section back to the state it had. */
  method ClickTwice(s: Section)
    modifies s
    ensures s.headerActive == old(s.headerActive) && s.contentActive == old(s.contentActive)
  {
    s.Click();
    s.Click();
  }

  /** A click on one section leaves every other section as it was: the sections are independent. */
  method ClickOne(sections: seq<Section>, i: nat)
    requires i < |sections|
    modifies sections[i]
    ensures sections[i].headerActive == !old(sections[i].headerActive)
    ensures sections[i].contentActive == !old(sections[i].contentActive)
    ensures forall j :: 0 <= j < |sections| && sections[j] != sections[i] ==>
      sections[j].headerActive == old(sections[j].headerActive) &&
      sections[j].contentActive == old(sections[j].contentActive)
  {
    sections[i].Click();
  }

  /** A freshly rendered section stays in step through any sequence of clicks. */
  method RenderAndClick(clicks: nat) returns (s: Section)
    ensures s.InStep()
    ensures s.headerActive <==> clicks % 2 == 0
  {
    s := new Section();
    var n := 0;
    while n < clicks
      invariant 0 <= n <= clicks
      invariant s.InStep()
      invariant s.headerActive <==> n % 2 == 0
    {
      s.Click();
      n := n + 1;
    }
  }
}
