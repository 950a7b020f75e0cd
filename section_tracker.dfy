/** The active-section decision of the page's scroll handler: from the scroll
    position, the viewport and document heights and the top offsets of the
    section anchors that exist, pick exactly one section id. */
module SectionTracker {
  import opened Sections

  /** Added to the scroll position so that the sticky header does not hide
      the top of the current section. */
  const LookaheadOffset: int := 150
  /** Distance from the document bottom within which the last section wins. */
  const BottomSlack: int := 100
  /** Subtracted from each anchor's top before comparing it with the probe. */
  const AnchorBias: int := 200

  datatype Option<T> = None | Some(value: T)

  /** What the handler reads from the browser, as integers.  `anchors` maps a
      section id to its element's `offsetTop`; an id with no key is an element
      that `getElementById` does not find. */
  datatype Geometry = Geometry(scrollY: int, innerHeight: int, scrollHeight: int, anchors: map<string, int>)

  /** The scroll position after the lookahead offset. */
  function Probe(g: Geometry): int {
    g.scrollY + LookaheadOffset
  }

  /** The bottom-of-page override fires. */
  predicate NearBottom(g: Geometry) {
    Probe(g) + g.innerHeight >= g.scrollHeight - BottomSlack
  }

  /** The section's anchor exists and its biased top is at or above the probe. */
  predicate Passed(anchors: map<string, int>, id: string, probe: int) {
    id in anchors && anchors[id] - AnchorBias <= probe
  }

  /** The reverse scan: the index of the last section of `sections` that has
      been passed, if any. */
  function LatestPassed(sections: seq<string>, anchors: map<string, int>, probe: int): (r: Option<nat>)
    ensures r.Some? ==> r.value < |sections| && Passed(anchors, sections[r.value], probe)
    ensures r.Some? ==> forall j :: r.value < j < |sections| ==> !Passed(anchors, sections[j], probe)
    ensures r.None? ==> forall j :: 0 <= j < |sections| ==> !Passed(anchors, sections[j], probe)
    decreases |sections|
  {
    if |sections| == 0 then None
    else if Passed(anchors, sections[|sections| - 1], probe) then Some(|sections| - 1)
    else LatestPassed(sections[..|sections| - 1], anchors, probe)
  }

  /** The section the handler makes active for geometry `g`. */
  function ActiveSection(g: Geometry): (r: string)
    ensures r in SectionIds
  {
    if NearBottom(g) then Contact
    else match LatestPassed(SectionIds, g.anchors, Probe(g))
      case Some(k) => SectionIds[k]
      case None => About
  }

  /** Section `k` is passed and no section declared after it is. */
  predicate IsLatestPassed(g: Geometry, k: int) {
    && 0 <= k < |SectionIds|
    && Passed(g.anchors, SectionIds[k], Probe(g))
    && forall j :: k < j < |SectionIds| ==> !Passed(g.anchors, SectionIds[j], Probe(g))
  }

  /** No section is passed. */
  predicate NonePassed(g: Geometry) {
    forall j :: 0 <= j < |SectionIds| ==> !Passed(g.anchors, SectionIds[j], Probe(g))
  }

  /** The scroll handler as written: an early return near the bottom, then a
      reverse loop with a mutable `current` and a `break`. */
  method SelectActiveSection(g: Geometry) returns (current: string)
    ensures current == ActiveSection(g)
  {
    var sections := SectionIds;
    var scrollPosition := g.scrollY + LookaheadOffset;
    var windowHeight := g.innerHeight;
    var documentHeight := g.scrollHeight;

    if scrollPosition + windowHeight >= documentHeight - BottomSlack {
      return Contact;
    }

    current := About;
    var i := |sections| - 1;
    while i >= 0
      invariant -1 <= i < |sections|
      invariant current == About
      invariant forall j :: i < j < |sections| ==> !Passed(g.anchors, sections[j], scrollPosition)
      decreases i
    {
      var section := sections[i];
      if section in g.anchors {
        var offsetTop := g.anchors[section] - AnchorBias;
        if scrollPosition >= offsetTop {
          current := section;
          break;
        }
      }
      i := i - 1;
    }
  }

  /** Near the bottom the result is the contact section whatever the anchors
      are; the probe's lookahead makes the effective slack 250. */
  lemma ContactNearBottom(g: Geometry)
    requires g.scrollY + g.innerHeight + 250 >= g.scrollHeight
    ensures ActiveSection(g) == Contact
  {
  }

  /** Away from the bottom, section `k` is active exactly when it is the latest
      passed section, or when it is the first section and none is passed. */
  lemma ScanResult(g: Geometry, k: int)
    requires !NearBottom(g) && 0 <= k < |SectionIds|
    ensures ActiveSection(g) == SectionIds[k] <==> IsLatestPassed(g, k) || (k == 0 && NonePassed(g))
  {
  }

  /** With no section passed and no bottom override, the first section wins. */
  lemma DefaultIsAbout(g: Geometry)
    requires !NearBottom(g) && NonePassed(g)
    ensures ActiveSection(g) == About
  {
  }

  /** A section whose element is missing is never chosen by the scan: it can
      only be the result as the first section's default. */
  lemma AbsentNeverScanned(g: Geometry, k: int)
    requires !NearBottom(g) && 0 <= k < |SectionIds| && SectionIds[k] !in g.anchors
    ensures ActiveSection(g) == SectionIds[k] ==> k == 0 && NonePassed(g)
  {
  }

  /** An example: anchors at 0, 500, ..., 2000 and a scroll position
      of 900 (probe 1050) make the education section active. */
  lemma EducationExample()
    ensures ActiveSection(Geometry(900, 800, 5000,
      map[About := 0, Experience := 500, Education := 1000, Skills := 1500, Contact := 2000])) == Education
  {
    var g := Geometry(900, 800, 5000,
      map[About := 0, Experience := 500, Education := 1000, Skills := 1500, Contact := 2000]);
    assert !Passed(g.anchors, SectionIds[3], Probe(g)) && !Passed(g.anchors, SectionIds[4], Probe(g));
    assert IsLatestPassed(g, 2);
    ScanResult(g, 2);
  }
}
