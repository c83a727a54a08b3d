/**
 * Smooth scrolling to a section and the scroll spy that marks the nav link of
 * the section under a probe line. Layout geometry (offsetTop, offsetHeight,
 * getBoundingClientRect, scrollY, innerHeight) enters as parameters.
 */
module ScrollSpy {
  import opened Wrappers

  /** The fixed-header allowance subtracted from a smooth-scroll target. */
  const HeaderOffset: real := -80.0

  /** A tracked section's vertical span: offsetTop and offsetHeight. */
  datatype Section = Section(top: int, height: int)

  /** The element id a link targets: its href without the leading character,
      i.e. href.slice(1). */
  function TargetId(href: string): (id: string)
    ensures |href| > 0 && href[0] == '#' ==> "#" + id == href
    ensures |href| == 0 ==> id == ""
  {
    if |href| == 0 then "" else href[1..]
  }

  /** getElementById: no element has the empty id. */
  predicate HasId<T>(doc: map<string, T>, id: string) {
    id != "" && id in doc
  }

  /** The section of each nav link, in link order: getElementById of its target
      id, None when no element has that id. */
  function SectionsOf(hrefs: seq<string>, doc: map<string, Section>): (secs: seq<Option<Section>>)
    ensures |secs| == |hrefs|
    ensures forall i :: 0 <= i < |hrefs| ==>
      (secs[i].Some? <==> TargetId(hrefs[i]) != "" && TargetId(hrefs[i]) in doc) &&
      (secs[i].Some? ==> secs[i].value == doc[TargetId(hrefs[i])])
  {
    seq(|hrefs|, i requires 0 <= i < |hrefs| =>
      var id := TargetId(hrefs[i]); if HasId(doc, id) then Some(doc[id]) else None)
  }

  /** Where a nav-link click scrolls to: the target's viewport top plus the
      page offset plus the header allowance; None (no scroll) when the target
      does not exist. */
  function ScrollTarget(href: string, viewportTops: map<string, real>, pageYOffset: real): (y: Option<real>)
    ensures y.Some? <==> TargetId(href) != "" && TargetId(href) in viewportTops
    ensures y.Some? ==> y.value + 80.0 == viewportTops[TargetId(href)] + pageYOffset
  {
    var id := TargetId(href);
    if HasId(viewportTops, id) then Some(viewportTops[id] + pageYOffset + HeaderOffset) else None
  }

  /** A bare "#" link has no section and no scroll target, whatever the page holds. */
  lemma BareHashHasNoTarget(doc: map<string, Section>, viewportTops: map<string, real>, pageYOffset: real)
    ensures SectionsOf(["#"], doc) == [None]
    ensures ScrollTarget("#", viewportTops, pageYOffset) == None
  {
    assert TargetId("#") == "";
  }

  /** top <= probe < top + height. */
  predicate Contains(sec: Section, probe: real) {
    sec.top as real <= probe < (sec.top + sec.height) as real
  }

  predicate MatchesAt(sections: seq<Option<Section>>, i: nat, probe: real)
    requires i < |sections|
  {
    sections[i].Some? && Contains(sections[i].value, probe)
  }

  /** The last section, in document order, whose span holds the probe. */
  function LastMatch(sections: seq<Option<Section>>, probe: real): (r: Option<nat>)
    ensures r.Some? ==> r.value < |sections| && MatchesAt(sections, r.value, probe)
    ensures r.Some? ==> forall j :: r.value < j < |sections| ==> !MatchesAt(sections, j, probe)
    ensures r.None? ==> forall j :: 0 <= j < |sections| ==> !MatchesAt(sections, j, probe)
    decreases |sections|
  {
    if sections == [] then None
    else
      var n := |sections| - 1;
      if MatchesAt(sections, n, probe) then Some(n)
      else
        var r := LastMatch(sections[..n], probe);
        assert forall j :: 0 <= j < n ==> (MatchesAt(sections[..n], j, probe) <==> MatchesAt(sections, j, probe));
        r
  }

  /** The marks after a scroll event: only the last matching link when some
      section matches, the previous marks when none does. */
  function ActiveMarks(marks: seq<bool>, sections: seq<Option<Section>>, probe: real): (r: seq<bool>)
    ensures |r| == |marks|
    ensures LastMatch(sections, probe).None? ==> r == marks
    ensures LastMatch(sections, probe).Some? ==>
      forall i :: 0 <= i < |r| ==> (r[i] <==> i == LastMatch(sections, probe).value)
  {
    match LastMatch(sections, probe)
    case Some(k) => seq(|marks|, i => i == k)
    case None => marks
  }

  /** The scroll handler: the forEach over the sections, clearing every mark
      and setting one inside the matching branch only. */
  method UpdateActive(marks: array<bool>, sections: seq<Option<Section>>, probe: real)
    requires marks.Length == |sections|
    modifies marks
    ensures marks[..] == ActiveMarks(old(marks[..]), sections, probe)
  {
    var idx := 0;
    while idx < |sections|
      invariant 0 <= idx <= |sections|
      invariant marks[..] == ActiveMarks(old(marks[..]), sections[..idx], probe)
    {
      assert sections[..idx + 1][..idx] == sections[..idx];
      var sec := sections[idx];
      if sec.Some? {
        var top := sec.value.top;
        var bottom := top + sec.value.height;
        if probe >= top as real && probe < bottom as real {
          var j := 0;
          while j < marks.Length
            invariant 0 <= j <= marks.Length
            invariant forall m :: 0 <= m < j ==> !marks[m]
          {
            marks[j] := false;
            j := j + 1;
          }
          marks[idx] := true;
          assert marks[..] == seq(marks.Length, i => i == idx);
        }
      }
      idx := idx + 1;
    }
    assert sections[..|sections|] == sections;
  }

  /** With a match, exactly one link is active afterwards, the last matching
      one; without one, nothing changes. */
  lemma ActiveMarksMeaning(marks: seq<bool>, sections: seq<Option<Section>>, probe: real)
    requires |marks| == |sections|
    ensures var after := ActiveMarks(marks, sections, probe);
      && |after| == |marks|
      && ((forall j :: 0 <= j < |sections| ==> !MatchesAt(sections, j, probe)) ==> after == marks)
      && (forall k ::
            (0 <= k < |sections| && MatchesAt(sections, k, probe) &&
             (forall j :: k < j < |sections| ==> !MatchesAt(sections, j, probe)))
            ==> (forall i :: 0 <= i < |after| ==> (after[i] <==> i == k)))
  {
  }

  /** No two existing sections share a point. */
  predicate NonOverlapping(sections: seq<Option<Section>>) {
    forall i, j :: 0 <= i < j < |sections| && sections[i].Some? && sections[j].Some? ==>
      (sections[i].value.top + sections[i].value.height <= sections[j].value.top ||
       sections[j].value.top + sections[j].value.height <= sections[i].value.top)
  }

  /** For non-overlapping sections, a probe inside section k activates link k
      alone: first and last match coincide. */
  lemma NonOverlappingSelectsContaining(marks: seq<bool>, sections: seq<Option<Section>>, probe: real, k: nat)
    requires |marks| == |sections| && NonOverlapping(sections)
    requires k < |sections| && MatchesAt(sections, k, probe)
    ensures LastMatch(sections, probe) == Some(k)
    ensures forall i :: 0 <= i < |marks| ==> (ActiveMarks(marks, sections, probe)[i] <==> i == k)
  {
  }
}
