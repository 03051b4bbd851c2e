# Morfeo landing page behaviours, modelled in Dafny

This project models the logic in `js/main.js`, the script that drives the
Morfeo landing page. Once the DOM is replaced by plain values, five small
state machines and decision rules are left:

- **FAQ accordion** (`faq_accordion.dfy`, module `FaqAccordion`). The items
  are two parallel boolean arrays: the `active` class and the question's
  `aria-expanded`. The click handler closes every other item, then flips the
  clicked item in the next animation frame, using the `isActive` value it read
  at click time. The class runs both phases as one step. The phases also exist
  as separate functions, so an interleaving of two clicks can be studied.
- **FAQ keyboard navigation** (`faq_navigation.dfy`, module `FaqNavigation`).
  The keydown handler of item `index` of `n` maps a key name to the item that
  gets focus. ArrowDown and ArrowUp wrap modulo `n`, Home goes to the first
  item and End to the last. Any other key does nothing.
- **Floating call-to-action** (`floating_cta.dfy`, module `FloatingCta`). The
  button's `visible` class comes from the live geometry of the hero, the final
  CTA section (`#agenda`) and the footer. The decision is made when the
  observer fires, and once more in a check one second after load that can only
  add `visible`. Nothing is installed unless both the button and the hero
  exist.
- **Parallax scroll throttle** (`parallax.dfy`, module `Parallax`). The
  `ticking` flag keeps at most one `updateParallax` frame pending. The
  `--parallax-offset` property is written only while the scroll offset is
  below the hero's height. Without a hero, that height is 800.
- **Prefetch hints** (`prefetch.dfy`, module `Prefetch`). Each `http` anchor
  has a `once` hover listener. It appends a `<link rel="prefetch">` only for a
  non-empty href that no `<link>` in the document already has.
- **Entrance animations** (`animations.dfy`, module `Animations`). The
  scroll-reveal observer only ever adds `visible`. `staggerAnimation` gives
  element k a delay of k times the step.

Each observer, timer, frame or event callback is one atomic step. Page
geometry, the scroll offset and the hero height are parameters of the step
that reads them. Coordinates are `real`, because the code only compares them.

Two consequences of the code are worth stating:
- At most one FAQ item is open only after a click that runs to completion.
  The markup may start with several items active. Take a click on an item
  that is closed at that moment, then a click on a different item. If both
  close phases run before either deferred toggle, both items end up open
  (`InterleavedClicksOpenTwo`).
- The keydown handler does no clamping. Each handler is bound to an existing
  item, so `index < n` always holds, and the model requires exactly that.

## Model

| member | source | states |
|---|---|---|
| `FaqNavigation.FocusTarget` | js/main.js:247-270 | A target exists exactly for ArrowDown, ArrowUp, Home and End, and it is always a valid item position |
| `FaqNavigation.ArrowDownPresses` | js/main.js:251-255 | Repeated ArrowDown presses always land on a valid item |
| `FaqNavigation.WrapAround` | js/main.js:253-258 | ArrowDown on the last item focuses the first; ArrowUp on the first focuses the last |
| `FaqNavigation.HomeAndEnd` | js/main.js:261-267 | Home focuses item 0 and End focuses item n-1, from any item |
| `FaqNavigation.UpDownInverse` | js/main.js:251-259 | ArrowUp after ArrowDown, and ArrowDown after ArrowUp, return focus to the starting item |
| `FaqNavigation.ArrowDownPressesShift` | js/main.js:251-255 | k ArrowDown presses from i focus (i + k) mod n |
| `FaqNavigation.CyclicClosure` | js/main.js:251-255 | n ArrowDown presses return focus to the starting item |
| `FaqAccordion.CloseOthers` | js/main.js:147-153 | The close phase shuts every item except the clicked one, and leaves the clicked one untouched |
| `FaqAccordion.ToggleDeferred` | js/main.js:155-164 | The deferred phase sets the clicked item to the negation of its state captured at click time, and changes no other item |
| `FaqAccordion.AfterClick` | js/main.js:144-165 | A full click keeps the number of items |
| `FaqAccordion.ClickOutcome` | js/main.js:144-165 | From any state, a click on i closes every other item and flips i, so one item is open if i was closed and none if it was open |
| `FaqAccordion.DoubleClickClosesAll` | js/main.js:144-165 | Clicking a closed item twice leaves every item closed |
| `FaqAccordion.InterleavedClicksOpenTwo` | js/main.js:144-165 | From any state, a click on item i that is closed when clicked, then a click on a different item j, with both close phases run before either deferred toggle, leave both i and j open, so at least two items are open |
| `FaqAccordion.Accordion.constructor` | js/main.js:139-142 | The accordion starts in whatever state the markup gives its items |
| `FaqAccordion.Accordion.Click` | js/main.js:144-165 | The click handler leaves `active` as AfterClick of the old state, `aria-expanded` equal to `active` on every item, and at most one item open |
| `FaqAccordion.Accordion.KeyDown` | js/main.js:244-271 | The keydown handler focuses FocusTarget's item, does nothing for other keys, and changes no item's `active` or `aria-expanded` |
| `FloatingCta.AnyIntersecting` | js/main.js:101-107 | `hideFloating` is true exactly when some entry of the batch intersects |
| `FloatingCta.OnIntersection` | js/main.js:99-121 | The observer changes only the button's `visible` class, and changes nothing when the button or the hero is missing |
| `FloatingCta.InitialCheck` | js/main.js:127-133 | The initial check changes only the button's `visible` class, and changes nothing when the button or the hero is missing |
| `FloatingCta.ShownExactlyBetweenHeroAndEnd` | js/main.js:109-120 | The button is visible exactly when the hero bottom is at most 100, the final CTA section is not in view, and the footer is not in view |
| `FloatingCta.HeroInViewHides` | js/main.js:110-116 | While the hero bottom is more than 100 px below the viewport top the button is hidden, whatever the final CTA and footer do |
| `FloatingCta.FinalCtaInViewHides` | js/main.js:111-116 | While the final CTA section intersects the viewport the button is hidden, even past the hero |
| `FloatingCta.FooterInViewHides` | js/main.js:112-116 | While the footer top is inside the viewport the button is hidden |
| `FloatingCta.DecisionIgnoresEntriesAndPriorState` | js/main.js:100-120 | The result depends neither on the batch of entries (`hideFloating` is unused) nor on the button's previous state |
| `FloatingCta.OnIntersectionIdempotent` | js/main.js:109-120 | Recomputing on unchanged geometry changes nothing |
| `FloatingCta.MissingRegionsExcluded` | js/main.js:111-112 | With no final CTA section and no footer, the hero alone decides |
| `FloatingCta.InitialCheckOnlyAdds` | js/main.js:128-133 | The initial check never removes `visible`; it adds it exactly when the hero bottom is at most 100 |
| `FloatingCta.InitialCheckIgnoresCtaAndFooter` | js/main.js:128-133 | The initial check does not depend on the final CTA section or the footer |
| `FloatingCta.InitialCheckMayShowOverFinalCta` | js/main.js:128-133 | There is a page where the initial check shows the button while the final CTA section is in view, though the observer's rule hides it there |
| `FloatingCta.InitialCheckAgreesWhenClear` | js/main.js:109-133 | When the hero is out of view and neither other region is in view, the initial check and the observer agree |
| `Parallax.AfterScroll` | js/main.js:216-221 | A scroll event leaves `ticking` set, and requests a frame only when `ticking` was clear |
| `Parallax.AfterUpdate` | js/main.js:204-214 | `updateParallax` clears `ticking` and consumes a pending frame |
| `Parallax.HeroHeight` | js/main.js:206 | The hero's height when there is a hero, else 800 |
| `Parallax.NoHeroUsesDefault` | js/main.js:206-208 | Without a hero, the offset is written exactly for scroll positions below 800 |
| `Parallax.StepsKeepThrottled` | js/main.js:202-221 | A scroll and an update each keep "at most one pending update, and `ticking` exactly when one is pending" |
| `Parallax.RunKeepsThrottled` | js/main.js:202-221 | Under any sequence of scrolls and frames, at most one update is ever pending |
| `Parallax.BurstRequestsOneUpdate` | js/main.js:216-221 | After any burst of one or more scroll events between frames, `ticking` is set and exactly one update is pending |
| `Parallax.ScrollThrottle.constructor` | js/main.js:202 | The throttle starts with `ticking` clear, nothing pending and no offset written |
| `Parallax.ScrollThrottle.OnScroll` | js/main.js:216-221 | The scroll listener follows AfterScroll and keeps the throttle invariant |
| `Parallax.ScrollThrottle.UpdateParallax` | js/main.js:204-214 | The update clears `ticking`, leaves nothing pending, and writes the offset exactly when the scroll offset is below the hero height |
| `Prefetch.WithPrefetch` | js/main.js:231-237 | Hovering appends the href at the end, or changes nothing; it appends exactly when the href is non-empty and not already present |
| `Prefetch.PrefetchIdempotent` | js/main.js:231-237 | Hovering the same href twice has the effect of hovering it once |
| `Prefetch.PrefetchGrows` | js/main.js:231-237 | The set of link hrefs only grows, and gains exactly the hovered href when that is non-empty |
| `Prefetch.PrefetchKeepsDistinct` | js/main.js:231-237 | Hovering never creates a duplicate link href |
| `Prefetch.HoverAllAppendsOncePerHref` | js/main.js:226-239 | On any document and after any sequence of hovers, the old links stay first, the hrefs are the old ones plus the non-empty hovered ones, and the appended hrefs are distinct and were not already present |
| `Prefetch.HoverAllKeepsDistinct` | js/main.js:226-239 | On a document without duplicate link hrefs, no sequence of hovers creates one |
| `Prefetch.Prefetcher.constructor` | js/main.js:226-228 | Every anchor's listener starts registered |
| `Prefetch.Prefetcher.MouseEnter` | js/main.js:229-238 | The first hover on an anchor applies WithPrefetch and removes the listener; later hovers change nothing |
| `Animations.ScrollReveal.constructor` | js/main.js:50-60 | The observed elements start with whatever `visible` classes the markup gives them |
| `Animations.ScrollReveal.OnIntersection` | js/main.js:40-48 | Every intersecting entry's element becomes visible, and no element loses `visible` |
| `Animations.Stagger` | js/main.js:171-176 | Element k of the group gets a transition delay of k times the step |

## Left out

- Frame and timer scheduling (`requestAnimationFrame`, the one-second `setTimeout`, observer thresholds and root margins) is not modelled. Each callback with its deferred frame is one atomic step. The only interleaving examined is the FAQ one, in `InterleavedClicksOpenTwo`.
- The passive-listener feature probe is not modelled. It is browser capability detection with no logic.
- The smooth anchor scroll offset, the ripple coordinates and the parallax value `scrolled * 0.3` are not modelled. They are floating-point pixel values passed straight to DOM APIs.
- The reduced-motion custom properties, the `animate-on-scroll` class, the CSS selector strings and the console banner are not modelled. They are side-effect glue.
- Parallax.ScrollThrottle.UpdateParallax: records the scroll position at which the offset was written, not the offset string itself.
- FaqAccordion.Accordion.KeyDown: returns the item that gets focus; the `focus()` and `preventDefault()` calls are represented by that result being present.
- Prefetch.Prefetcher.MouseEnter: the `link[href="..."]` lookup is an exact string match on hrefs. CSS escaping of an href that contains `"` or `\` is not modelled; such an href makes the real selector invalid or changes what it matches.
- FaqAccordion.Accordion.constructor: assumes every `.faq-item` contains a `.faq-question`. If one lacks it, registering its click listener throws. That aborts the rest of the load handler, so stagger, parallax, prefetch and keyboard navigation are never installed. A later click on an earlier item then throws part-way through the close loop, before its deferred toggle is scheduled. The model does not capture this failure.
- Animations.Stagger: stores the delay as a number of milliseconds, not the `"<n>ms"` string.
