/**
 * The back-to-top button: its class list carries `visible` exactly when the
 * page is scrolled strictly more than the threshold; every scroll event
 * re-checks, and the page checks once at load.
 */
module BackToTop {
  /** Pixels scrolled down before the button shows. */
  const ShowAfter: real := 300.0

  /** The class the check adds and removes. */
  const VisibleClass: string := "visible"

  /** The class list after one check at vertical offset scrollY: the button
      shows exactly above the threshold, and every other class is kept. */
  function Checked(classes: set<string>, scrollY: real): (r: set<string>)
    ensures VisibleClass in r <==> scrollY > ShowAfter
    ensures forall c :: c != VisibleClass ==> (c in r <==> c in classes)
  {
    if scrollY > ShowAfter then classes + {VisibleClass} else classes - {VisibleClass}
  }

  /** The threshold itself does not show the button; any offset past it does. */
  lemma ThresholdIsStrict(classes: set<string>)
    ensures VisibleClass !in Checked(classes, ShowAfter)
    ensures forall y: real :: y > ShowAfter ==> VisibleClass in Checked(classes, y)
  {
  }

  /** Only the latest offset matters: a check overrides every earlier one. */
  lemma LatestCheckWins(classes: set<string>, y1: real, y2: real)
    ensures Checked(Checked(classes, y1), y2) == Checked(classes, y2)
  {
  }

  /** Scrolling further down never hides a shown button. */
  lemma ShownStaysShownBelow(classes: set<string>, y1: real, y2: real)
    requires y1 <= y2 && VisibleClass in Checked(classes, y1)
    ensures VisibleClass in Checked(classes, y2)
  {
  }

  /** The `#backToTop` element's class list. */
  class BackButton {
    var classes: set<string>

    constructor (classes: set<string>)
      ensures this.classes == classes
    {
      this.classes := classes;
    }

    function Visible(): bool
      reads this
    {
      VisibleClass in classes
    }
  }

  /** checkBackButton: nothing happens when the page has no button. */
  method CheckBackButton(btn: BackButton?, scrollY: real)
    modifies btn
    ensures btn != null ==> btn.classes == Checked(old(btn.classes), scrollY)
    ensures btn != null ==> (btn.Visible() <==> scrollY > ShowAfter)
  {
    if btn == null {
      return;
    }
    if scrollY > ShowAfter {
      btn.classes := btn.classes + {VisibleClass};
    } else {
      btn.classes := btn.classes - {VisibleClass};
    }
  }
}
