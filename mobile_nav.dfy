/**
 * The mobile navigation menu: the `active` class of the `nav` element and the
 * `aria-expanded` attribute of the menu button, driven by the button, by the
 * in-panel links and by scroll, wheel and touchmove events.
 */
module MobileNav {
  import opened Wrappers

  /** The two pieces of DOM state: whether `nav` has the class `active`, and
      the button's `aria-expanded` attribute (None when absent). */
  datatype NavState = NavState(active: bool, ariaExpanded: Option<string>)

  /** String(b) for a boolean. */
  function BoolString(b: bool): string {
    if b then "true" else "false"
  }

  /** The attribute says "expanded" exactly when the panel is open. */
  predicate Agree(s: NavState) {
    s.active <==> s.ariaExpanded == Some("true")
  }

  /** The attribute holds the literal String(active). */
  predicate Synced(s: NavState) {
    s.ariaExpanded == Some(BoolString(s.active))
  }

  /** The menu button's click handler. */
  function Toggled(s: NavState): (t: NavState)
    ensures t.active == !s.active
    ensures t.ariaExpanded == Some(BoolString(s.ariaExpanded != Some("true")))
  {
    var expanded := s.ariaExpanded == Some("true");
    NavState(!s.active, Some(BoolString(!expanded)))
  }

  /** closeNavIfOpen, and the identical handler of every in-panel link. */
  function Closed(s: NavState): (t: NavState)
    ensures !t.active
    ensures s.active ==> t.ariaExpanded == Some("false")
    ensures !s.active ==> t == s
  {
    if s.active then NavState(false, Some("false")) else s
  }

  /** A toggle keeps agreement, and keeps disagreement. */
  lemma ToggleAgreement(s: NavState)
    ensures Agree(Toggled(s)) <==> Agree(s)
  {
  }

  /** A toggle turns agreement into exact synchrony. */
  lemma ToggleSyncs(s: NavState)
    requires Agree(s)
    ensures Synced(Toggled(s))
  {
  }

  /** Two toggles restore a state whose attribute is "true" or "false". */
  lemma ToggleTwice(s: NavState)
    requires s.ariaExpanded == Some("true") || s.ariaExpanded == Some("false")
    ensures Toggled(Toggled(s)) == s
  {
  }

  /** Closing twice is closing once. */
  lemma CloseIdempotent(s: NavState)
    ensures Closed(Closed(s)) == Closed(s)
  {
  }

  /** From an agreeing state, closing leaves the panel closed with the
      attribute not "true"; from a synced one, with the attribute "false". */
  lemma CloseAgreement(s: NavState)
    ensures Agree(s) ==> Agree(Closed(s)) && Closed(s).ariaExpanded != Some("true")
    ensures Synced(s) ==> Closed(s) == NavState(false, Some("false"))
  {
  }

  /** The controller the page wires up when both `.menu-btn` and `nav` exist. */
  class Menu {
    var active: bool
    var ariaExpanded: Option<string>

    function State(): NavState
      reads this
    {
      NavState(active, ariaExpanded)
    }

    constructor (active: bool, ariaExpanded: Option<string>)
      ensures State() == NavState(active, ariaExpanded)
    {
      this.active := active;
      this.ariaExpanded := ariaExpanded;
    }

    /** Click on the menu button. */
    method Toggle()
      modifies this
      ensures State() == Toggled(old(State()))
      ensures old(Agree(State())) ==> Synced(State())
    {
      var expanded := ariaExpanded == Some("true");
      ariaExpanded := Some(BoolString(!expanded));
      active := !active;
    }

    /** Click on an in-panel link, or a scroll, wheel or touchmove event. */
    method CloseIfOpen()
      modifies this
      ensures State() == Closed(old(State()))
      ensures !active
      ensures old(Synced(State())) ==> ariaExpanded == Some("false")
    {
      if active {
        active := false;
        ariaExpanded := Some("false");
      }
    }
  }
}
