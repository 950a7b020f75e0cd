/** The page component: it owns the active-section state and the reveal set,
    updates the first from the scroll handler and the second from the
    intersection callback, and highlights the navigation buttons from the first. */
module Home {
  import opened Sections
  import SectionTracker
  import RevealTracker

  /** A navigation button: the section it scrolls to and its caption. */
  datatype NavItem = NavItem(id: string, caption: string)

  /** The buttons of the desktop (and of the mobile) navigation, in order. */
  const NavItems: seq<NavItem> := [
    NavItem(About, "About"),
    NavItem(Experience, "Experience"),
    NavItem(Education, "Education"),
    NavItem(Skills, "Skills"),
    NavItem(Contact, "Contact")
  ]

  /** A button is drawn highlighted when its id is the active section. */
  predicate IsHighlighted(activeSection: string, item: NavItem) {
    activeSection == item.id
  }

  /** The positions of the highlighted buttons. */
  function HighlightedButtons(activeSection: string): set<nat> {
    set i | 0 <= i < |NavItems| && IsHighlighted(activeSection, NavItems[i])
  }

  /** The buttons name the scanned sections, in the same order. */
  lemma NavItemsAreSections()
    ensures |NavItems| == |SectionIds|
    ensures forall i :: 0 <= i < |NavItems| ==> NavItems[i].id == SectionIds[i]
  {
  }

  /** For any declared section exactly one button is highlighted: the one at
      that section's position. */
  lemma ExactlyOneHighlighted(activeSection: string)
    requires activeSection in SectionIds
    ensures HighlightedButtons(activeSection) == {IndexOf(SectionIds, activeSection)}
    ensures |HighlightedButtons(activeSection)| == 1
  {
  }

  /** Whatever the geometry, the scroll handler leaves exactly one button
      highlighted. */
  lemma ScrollHighlightsOneButton(g: SectionTracker.Geometry)
    ensures |HighlightedButtons(SectionTracker.ActiveSection(g))| == 1
  {
    ExactlyOneHighlighted(SectionTracker.ActiveSection(g));
  }

  class Home {
    /** The section the navigation highlights. */
    var activeSection: string
    /** The ids of the elements that have been revealed. */
    var visibleElements: set<string>

    /** The active section is always a declared section. */
    ghost predicate Valid()
      reads this
    {
      activeSection in SectionIds
    }

    /** The state before the first effect runs: the first section is active
        and nothing is revealed. */
    constructor ()
      ensures Valid()
      ensures activeSection == About && visibleElements == {}
    {
      activeSection := About;
      visibleElements := {};
    }

    /** The scroll listener, also run once when the page mounts: recompute the
        active section from the current geometry. */
    method HandleScroll(g: SectionTracker.Geometry)
      modifies this
      ensures Valid()
      ensures activeSection == SectionTracker.ActiveSection(g)
      ensures visibleElements == old(visibleElements)
    {
      var current := SectionTracker.SelectActiveSection(g);
      activeSection := current;
    }

    /** The intersection callback: each intersecting entry queues an update
        that adds its id; the old ids all stay. */
    method OnIntersection(entries: seq<RevealTracker.Entry>)
      requires Valid()
      modifies this
      ensures Valid()
      ensures forall id :: old(IsRevealed(id)) ==> IsRevealed(id)
      ensures visibleElements == RevealTracker.ApplyBatch(old(visibleElements), entries)
      ensures visibleElements == old(visibleElements) + RevealTracker.IntersectingIds(entries)
      ensures activeSection == old(activeSection)
    {
      for i := 0 to |entries|
        invariant visibleElements == old(visibleElements) + RevealTracker.IntersectingIds(entries[..i])
        invariant activeSection == old(activeSection)
      {
        var entry := entries[i];
        RevealTracker.IntersectingIdsSnoc(entries[..i], entry);
        assert entries[..i + 1] == entries[..i] + [entry];
        if entry.isIntersecting {
          visibleElements := RevealTracker.AddId(visibleElements, entry.targetId);
        }
      }
      assert entries[..|entries|] == entries;
      RevealTracker.ApplyBatchAddsIntersecting(old(visibleElements), entries);
    }

    /** Whether the navigation button `item` is highlighted. */
    predicate IsNavActive(item: NavItem)
      reads this
    {
      IsHighlighted(activeSection, item)
    }

    /** Whether the block keyed by `id` is drawn in its revealed state. */
    predicate IsRevealed(id: string)
      reads this
    {
      id in visibleElements
    }

    /** In every valid state exactly one navigation button is highlighted:
        the one naming the active section. */
    lemma OneNavActive()
      requires Valid()
      ensures (set i | 0 <= i < |NavItems| && IsNavActive(NavItems[i])) == {IndexOf(SectionIds, activeSection)}
      ensures |set i | 0 <= i < |NavItems| && IsNavActive(NavItems[i])| == 1
    {
    }
  }
}
