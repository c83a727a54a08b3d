/**
 * The "Hire me" panel: a trigger link found by an ordered fallback lookup,
 * and the `aria-hidden` attribute of the `.hire-response` section, set by
 * show and hide helpers that do nothing when the section is missing.
 */
module HirePanel {
  import opened Wrappers

  /** A candidate trigger element and its `href` attribute (None when absent). */
  datatype Anchor = Anchor(href: Option<string>)

  /** The first candidate that exists: a chain of `||` over lookups that
      return an element or null. */
  function FirstPresent<T>(cs: seq<Option<T>>): (r: Option<T>)
    ensures r.None? <==> forall k :: 0 <= k < |cs| ==> cs[k].None?
    ensures r.Some? ==> exists k :: 0 <= k < |cs| && cs[k] == r && forall j :: 0 <= j < k ==> cs[j].None?
  {
    if |cs| == 0 then None
    else if cs[0].Some? then cs[0]
    else
      var r := FirstPresent(cs[1..]);
      assert forall k :: 1 <= k < |cs| ==> cs[k] == cs[1..][k - 1];
      r
  }

  /** The first present of four candidates, case by case. */
  lemma FirstOfFour<T>(a: Option<T>, b: Option<T>, c: Option<T>, d: Option<T>)
    ensures a.Some? ==> FirstPresent([a, b, c, d]) == a
    ensures a.None? && b.Some? ==> FirstPresent([a, b, c, d]) == b
    ensures a.None? && b.None? && c.Some? ==> FirstPresent([a, b, c, d]) == c
    ensures a.None? && b.None? && c.None? ==> FirstPresent([a, b, c, d]) == d
  {
    var cs := [a, b, c, d];
    assert cs[1..] == [b, c, d];
    assert [b, c, d][1..] == [c, d];
    assert [c, d][1..] == [d];
    if a.None? {
      assert FirstPresent(cs) == FirstPresent([b, c, d]);
      if b.None? {
        assert FirstPresent([b, c, d]) == FirstPresent([c, d]);
        if c.None? {
          assert FirstPresent([c, d]) == FirstPresent([d]);
        }
      }
    }
  }

  /** The trigger: the home button with an href, else a link whose href
      mentions "hire", else a `.btn.hire`, else any `.btn`. Each selector is
      consulted only when every earlier one found nothing. */
  function HireTrigger(homeButton: Option<Anchor>, hireLink: Option<Anchor>,
                       hireButton: Option<Anchor>, anyButton: Option<Anchor>): (r: Option<Anchor>)
    ensures homeButton.Some? ==> r == homeButton
    ensures homeButton.None? && hireLink.Some? ==> r == hireLink
    ensures homeButton.None? && hireLink.None? && hireButton.Some? ==> r == hireButton
    ensures homeButton.None? && hireLink.None? && hireButton.None? ==> r == anyButton
  {
    FirstOfFour(homeButton, hireLink, hireButton, anyButton);
    FirstPresent([homeButton, hireLink, hireButton, anyButton])
  }

  /** The click is intercepted when the href, or "" when it is missing, is
      "#" or starts with '#': exactly the in-page anchors. A missing or empty
      href and a link to another page are left to the browser. */
  function Intercepts(href: Option<string>): (r: bool)
    ensures r <==> href.Some? && |href.value| > 0 && href.value[0] == '#'
  {
    var h := if href.Some? then href.value else "";
    assert |h| >= 1 ==> h[..1] == [h[0]];
    h == "#" || (|h| >= 1 && h[..1] == "#")
  }

  /** Whether the page has the section, and its `aria-hidden` attribute. */
  datatype Panel = Panel(present: bool, ariaHidden: Option<string>)

  /** The state the Escape handler reads as visible. */
  predicate Open(p: Panel) {
    p.present && p.ariaHidden == Some("false")
  }

  /** showHirePanel. */
  function Shown(p: Panel): (q: Panel)
    ensures q.present == p.present
    ensures p.present ==> q.ariaHidden == Some("false")
    ensures !p.present ==> q == p
  {
    if p.present then Panel(true, Some("false")) else p
  }

  /** hideHirePanel. */
  function Hidden(p: Panel): (q: Panel)
    ensures q.present == p.present
    ensures p.present ==> q.ariaHidden == Some("true")
    ensures !p.present ==> q == p
  {
    if p.present then Panel(true, Some("true")) else p
  }

  /** The document's keydown handler for the key named key: it changes the
      panel exactly when the key is Escape and the panel is open, and Escape
      always leaves it closed. */
  function AfterKey(p: Panel, key: string): (q: Panel)
    ensures q != p <==> key == "Escape" && Open(p)
    ensures key == "Escape" ==> !Open(q)
  {
    if key == "Escape" && Open(p) then Hidden(p) else p
  }

  /** Showing opens the panel exactly when it exists; hiding never leaves it
      open. */
  lemma ShowOpens(p: Panel)
    ensures Open(Shown(p)) <==> p.present
    ensures !Open(Hidden(p))
  {
  }

  /** Escape right after showing is the same as hiding. */
  lemma EscapeAfterShow(p: Panel)
    ensures AfterKey(Shown(p), "Escape") == Hidden(p)
  {
  }

  /** Show and hide are idempotent, and the later one wins. */
  lemma ShowHideLatestWins(p: Panel)
    ensures Shown(Shown(p)) == Shown(p) && Hidden(Hidden(p)) == Hidden(p)
    ensures Hidden(Shown(p)) == Hidden(p) && Shown(Hidden(p)) == Shown(p)
  {
  }

  /** Without the section nothing changes, whatever happens. */
  lemma AbsentPanelInert(p: Panel, key: string)
    requires !p.present
    ensures Shown(p) == p && Hidden(p) == p && AfterKey(p, key) == p
  {
  }

  /** The handlers hirePanel wires up. None of them is attached when no
      trigger is found, the close handler only when `#hire-close` exists. */
  class HireController {
    const trigger: Option<Anchor>
    const hasClose: bool
    const present: bool
    var ariaHidden: Option<string>

    function State(): Panel
      reads this
    {
      Panel(present, ariaHidden)
    }

    constructor (homeButton: Option<Anchor>, hireLink: Option<Anchor>,
                 hireButton: Option<Anchor>, anyButton: Option<Anchor>,
                 present: bool, hasClose: bool, ariaHidden: Option<string>)
      ensures trigger == HireTrigger(homeButton, hireLink, hireButton, anyButton)
      ensures this.hasClose == hasClose
      ensures State() == Panel(present, ariaHidden)
    {
      trigger := HireTrigger(homeButton, hireLink, hireButton, anyButton);
      this.hasClose := hasClose;
      this.present := present;
      this.ariaHidden := ariaHidden;
    }

    method Show()
      modifies this
      ensures State() == Shown(old(State()))
    {
      if !present {
        return;
      }
      ariaHidden := Some("false");
    }

    method Hide()
      modifies this
      ensures State() == Hidden(old(State()))
    {
      if !present {
        return;
      }
      ariaHidden := Some("true");
    }

    /** A click on the trigger; prevented says whether the default
        navigation was cancelled. */
    method OnTriggerClick() returns (prevented: bool)
      modifies this
      ensures prevented <==> trigger.Some? && Intercepts(trigger.value.href)
      ensures State() == if prevented then Shown(old(State())) else old(State())
    {
      prevented := false;
      if trigger.None? {
        return;
      }
      var href := if trigger.value.href.Some? then trigger.value.href.value else "";
      if href == "#" || (|href| >= 1 && href[..1] == "#") {
        prevented := true;
        Show();
      }
    }

    /** A click on `#hire-close`. */
    method OnCloseClick() returns (prevented: bool)
      modifies this
      ensures prevented <==> trigger.Some? && hasClose
      ensures State() == if prevented then Hidden(old(State())) else old(State())
    {
      prevented := false;
      if trigger.None? || !hasClose {
        return;
      }
      prevented := true;
      Hide();
    }

    /** A keydown anywhere in the document. */
    method OnKeyDown(key: string)
      modifies this
      ensures State() == if trigger.Some? then AfterKey(old(State()), key) else old(State())
    {
      if trigger.None? {
        return;
      }
      if key == "Escape" && present && ariaHidden == Some("false") {
        Hide();
      }
    }
  }
}
