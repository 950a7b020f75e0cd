# Scroll tracking of the portfolio page

This project models the two pieces of logic on the portfolio's single page,
`src/app/page.tsx`. Everything else in that file is static markup.

- **Active-section tracker.** The scroll handler of `Home` adds a lookahead of
  150 to `window.scrollY`. If the probe plus the viewport height reaches within
  100 of the document height, it picks `"contact"`. Otherwise it scans the five
  section ids from last to first. It picks the first section whose element
  exists and whose `offsetTop - 200` is at most the probe, and falls back
  to `"about"`. The result drives the highlight of the navigation buttons
  (`activeSection === item.id`).
- **Reveal tracker.** The intersection-observer callback of
  `useScrollAnimation` visits a batch of entries in order. For each
  intersecting entry it queues the state update `prev => new Set([...prev, id])`.
  Nothing is ever removed. Content blocks read only membership
  (`visibleElements.has(id)`).

Modules:

- `Sections` (`sections.dfy`): the five section ids in page order, and the facts
  that they are distinct, start with `"about"` and end with `"contact"`.
- `SectionTracker` (`section_tracker.dfy`): the browser geometry as a `Geometry`
  value. `ActiveSection` is the decision as a function. `SelectActiveSection` is
  the handler's own early return and reverse loop with `break`, proved equal
  to it. Lemmas give the bottom override, the reverse-scan choice, the default
  and missing anchors.
- `RevealTracker` (`reveal_tracker.dfy`): one callback batch as the fold
  `ApplyBatch`, proved equal to "old set plus the intersecting ids". `Replay`
  covers a whole session of batches.
- `Home` (`home.dfy`): the component as a class. It holds its two pieces of
  state, `activeSection` and `visibleElements`, with the scroll listener and
  the intersection callback as methods. The module also holds the navigation
  items and the lemma that exactly one button is highlighted.

Browser inputs are parameters. `window.scrollY`, `window.innerHeight`,
`document.documentElement.scrollHeight` and each section element's
`offsetTop` come in as integers in a `Geometry`. A null from `getElementById`
is an id with no key in `Geometry.anchors`. The `isIntersecting` flag of each
observer entry comes in as a boolean in an `Entry`.

The handler names `"contact"` and `"about"` literally.
`Sections.SectionIdsShape` proves they are the last and first entries of the
scanned list.

The markup's two reads of the state are the class predicates
`Home.Home.IsNavActive` (`activeSection === item.id`, src/app/page.tsx lines
112, 118 and 173) and `Home.Home.IsRevealed` (`visibleElements.has(id)`, for
example line 297). `OnIntersection` and `OneNavActive` state their contracts
through them.

## Model

| member | source | states |
|---|---|---|
| `Sections.SectionIdsShape` | src/app/page.tsx:42-48 | The scanned list has five distinct ids, first `"about"`, last `"contact"`. |
| `SectionTracker.LatestPassed` | src/app/page.tsx:63-73 | The reverse scan returns the index of a section whose anchor exists and whose biased top (`offsetTop - 200`) is at most the probe, with no later section passed. It returns none exactly when no section is passed. |
| `SectionTracker.ActiveSection` | src/app/page.tsx:50-76 | The decided section is always one of the five declared ids. The function is total: missing elements never cause a failure. |
| `SectionTracker.SelectActiveSection` | src/app/page.tsx:41-76 | The handler's early return and reverse loop with `break` and a mutable `currentSection` compute exactly `ActiveSection`. |
| `SectionTracker.ContactNearBottom` | src/app/page.tsx:50-59 | If `scrollY + innerHeight + 250 >= scrollHeight`, the result is `"contact"` whatever the anchors are. |
| `SectionTracker.ScanResult` | src/app/page.tsx:61-76 | Away from the bottom, section k is active if and only if it is the latest passed section, or it is `"about"` and no section is passed. |
| `SectionTracker.DefaultIsAbout` | src/app/page.tsx:61-76 | Away from the bottom with no section passed, the result is `"about"`. |
| `SectionTracker.AbsentNeverScanned` | src/app/page.tsx:63-73 | Away from the bottom, a section without an element is the result only as the `"about"` default when nothing is passed. |
| `SectionTracker.EducationExample` | src/app/page.tsx:50-76 | Anchors at 0, 500, 1000, 1500 and 2000 with scroll position 900 make `"education"` active. |
| `RevealTracker.AddId` | src/app/page.tsx:15 | The updated set holds exactly the old ids plus the new id. Re-adding a present id leaves the set unchanged. |
| `RevealTracker.ApplyBatch` | src/app/page.tsx:12-18 | Processing a callback batch entry by entry never removes an id. |
| `RevealTracker.ApplyBatchAddsIntersecting` | src/app/page.tsx:13-16 | After a batch the set is the old set plus exactly the ids of the intersecting entries. Non-intersecting entries add and remove nothing. |
| `RevealTracker.ApplyBatchIdempotent` | src/app/page.tsx:14-15 | Delivering the same batch twice gives the same set as delivering it once. |
| `RevealTracker.RevealedIffEverIntersecting` | src/app/page.tsx:8-18 | From the initial empty set, an id is revealed after a session if and only if some batch reported it intersecting. An id never reported is never revealed. |
| `RevealTracker.ReplayMonotone` | src/app/page.tsx:8-18 | The set after any prefix of a session is a subset of the set after the whole session. |
| `Home.NavItemsAreSections` | src/app/page.tsx:101-107 | The navigation buttons name the scanned sections, in the same order. |
| `Home.ExactlyOneHighlighted` | src/app/page.tsx:104-120 | For any declared active section, the set of highlighted buttons is exactly the one at that section's position. |
| `Home.ScrollHighlightsOneButton` | src/app/page.tsx:101-118 | Whatever the geometry, the section the handler decides highlights exactly one desktop button. |
| `Home.Home.constructor` | src/app/page.tsx:36-38 | Initially the active section is `"about"` (a declared id) and the reveal set is empty, the hook's initial state at line 8. |
| `Home.Home.HandleScroll` | src/app/page.tsx:40-83 | The scroll listener and the mount-time call set the active section to `ActiveSection` of the current geometry. They keep the reveal set unchanged. Repeating a call with the same geometry gives the same state. |
| `Home.Home.OnIntersection` | src/app/page.tsx:11-18 | The callback's `forEach` leaves the reveal set equal to `ApplyBatch` of the old set. That is the old set plus the intersecting ids. Every id revealed before stays revealed. The active section is unchanged and stays a declared id. |
| `Home.Home.OneNavActive` | src/app/page.tsx:101-120 | In every state the component can reach, exactly one desktop button is highlighted: the one at the active section's position. |

## Left out

- The page's markup, class strings, SVG paths and text (src/app/page.tsx:91-1688) are static presentation with no behaviour.
- The intersection observer's visibility predicate (`threshold: 0.1`, `rootMargin`, src/app/page.tsx:19-22) is left out. It is floating-point browser geometry, so `isIntersecting` is an input.
- `scrollToSection` and its smooth `scrollIntoView` (src/app/page.tsx:85-90) are left out. They are browser animation. The claim that the tracker re-derives the target once scrolling settles depends on real layout.
- Adding and removing the scroll listener, `observe` on the `[data-animate]` elements and `observer.disconnect()` (src/app/page.tsx:26-29, 79, 82) are left out. They are DOM lifecycle plumbing. The observed elements appear only as the ids carried by entries.
- The mobile-menu toggle, the social-icon component and the outbound links are left out. They are a trivial flag and foreign components.
- React's batching of state updates is not modelled. The queued functional updaters are applied in order, which is what `OnIntersection` does directly.
- Fractional `scrollY` values are not modelled: all geometry is integers.
