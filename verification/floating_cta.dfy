/**
 * Visibility of the floating call-to-action button (js/main.js, the
 * IntersectionObserver over the hero, the final CTA section `#agenda` and
 * the footer, and the initial check one second after load).
 *
 * Page geometry is read live from the bounding rectangles and only compared,
 * so coordinates are `real`.  Each observer or timer callback, together with
 * the animation frame it schedules, is one atomic step.
 */
module FloatingCta {
  import opened Optional

  /** The vertical extent of a region's bounding rectangle, relative to the viewport top. */
  datatype Rect = Rect(top: real, bottom: real)

  /** One IntersectionObserver entry; only whether it intersects is consulted. */
  datatype Entry = Entry(isIntersecting: bool)

  /**
   * The parts of the page the controller looks at.  `floatingCta` is the
   * button, absent or present with its `visible` class; the regions are
   * absent when the markup lacks them.
   */
  datatype Page = Page(
    floatingCta: Option<bool>,
    hero: Option<Rect>,
    finalCta: Option<Rect>,
    footer: Option<Rect>,
    innerHeight: real)

  /** The hero counts as in view while its bottom edge is more than this many pixels below the viewport top. */
  const HeroThreshold: real := 100.0

  /** The controller is installed only when both the button and the hero exist. */
  predicate Installed(p: Page) {
    p.floatingCta.Some? && p.hero.Some?
  }

  predicate HeroInView(p: Page)
    requires p.hero.Some?
  {
    p.hero.value.bottom > HeroThreshold
  }

  /** A missing final CTA section never counts as in view. */
  predicate FinalCtaInView(p: Page) {
    p.finalCta.Some? && p.finalCta.value.top < p.innerHeight && p.finalCta.value.bottom > 0.0
  }

  /** A missing footer never counts as in view. */
  predicate FooterInView(p: Page) {
    p.footer.Some? && p.footer.value.top < p.innerHeight
  }

  /**
   * The local `hideFloating` of the observer callback: whether some entry of
   * the batch intersects.  The callback computes it and never uses it.
   */
  method AnyIntersecting(entries: seq<Entry>) returns (hideFloating: bool)
    ensures hideFloating <==> exists k :: 0 <= k < |entries| && entries[k].isIntersecting
  {
    hideFloating := false;
    var k := 0;
    while k < |entries|
      invariant 0 <= k <= |entries|
      invariant hideFloating <==> exists m :: 0 <= m < k && entries[m].isIntersecting
    {
      if entries[k].isIntersecting {
        hideFloating := true;
      }
      k := k + 1;
    }
  }

  /**
   * The observer callback followed by its animation frame.  When the
   * controller is installed the button's `visible` class is set from the live
   * geometry of all three regions; otherwise there is no observer and the
   * page is unchanged.  The batch of entries is accepted and ignored.
   */
  function OnIntersection(p: Page, entries: seq<Entry>): (q: Page)
    ensures q.hero == p.hero && q.finalCta == p.finalCta && q.footer == p.footer
    ensures q.innerHeight == p.innerHeight
    ensures q.floatingCta.Some? <==> p.floatingCta.Some?
    ensures !Installed(p) ==> q == p
  {
    if !Installed(p) then p
    else
      var heroVisible := HeroInView(p);
      var ctaVisible := FinalCtaInView(p);
      var footerVisible := FooterInView(p);
      p.(floatingCta := Some(!(heroVisible || ctaVisible || footerVisible)))
  }

  /**
   * The check one second after load: if the hero is already out of view the
   * button gains `visible`; it is never removed here, and the final CTA and
   * the footer are not consulted.
   */
  function InitialCheck(p: Page): (q: Page)
    ensures q.hero == p.hero && q.finalCta == p.finalCta && q.footer == p.footer
    ensures q.innerHeight == p.innerHeight
    ensures q.floatingCta.Some? <==> p.floatingCta.Some?
    ensures !Installed(p) ==> q == p
  {
    if !Installed(p) then p
    else
      var heroVisible := HeroInView(p);
      if !heroVisible then p.(floatingCta := Some(true)) else p
  }

  /**
   * The button is shown exactly when the user is past the hero and neither
   * the final CTA section nor the footer is in view.
   */
  lemma ShownExactlyBetweenHeroAndEnd(p: Page, entries: seq<Entry>)
    requires Installed(p)
    ensures OnIntersection(p, entries).floatingCta.value
        <==> !HeroInView(p) && !FinalCtaInView(p) && !FooterInView(p)
  {
  }

  /** While the hero is in view the button is hidden, whatever the final CTA and footer do. */
  lemma HeroInViewHides(p: Page, entries: seq<Entry>)
    requires Installed(p) && HeroInView(p)
    ensures OnIntersection(p, entries).floatingCta == Some(false)
  {
  }

  /** While the final CTA section is in view the button is hidden, even past the hero. */
  lemma FinalCtaInViewHides(p: Page, entries: seq<Entry>)
    requires Installed(p) && FinalCtaInView(p)
    ensures OnIntersection(p, entries).floatingCta == Some(false)
  {
  }

  /** While the footer is in view the button is hidden. */
  lemma FooterInViewHides(p: Page, entries: seq<Entry>)
    requires Installed(p) && FooterInView(p)
    ensures OnIntersection(p, entries).floatingCta == Some(false)
  {
  }

  /**
   * The decision does not depend on which entries fired nor on the button's
   * previous state: only the live geometry counts.
   */
  lemma DecisionIgnoresEntriesAndPriorState(p: Page, before: bool, e1: seq<Entry>, e2: seq<Entry>)
    requires Installed(p)
    ensures OnIntersection(p, e1) == OnIntersection(p, e2)
    ensures OnIntersection(p.(floatingCta := Some(before)), e1) == OnIntersection(p, e1)
  {
  }

  /** Running the observer twice on the same geometry is the same as running it once. */
  lemma OnIntersectionIdempotent(p: Page, e1: seq<Entry>, e2: seq<Entry>)
    ensures OnIntersection(OnIntersection(p, e1), e2) == OnIntersection(p, e1)
  {
  }

  /** Regions missing from the markup are left out of the decision: without them only the hero decides. */
  lemma MissingRegionsExcluded(p: Page, entries: seq<Entry>)
    requires Installed(p) && p.finalCta.None? && p.footer.None?
    ensures OnIntersection(p, entries).floatingCta.value <==> p.hero.value.bottom <= HeroThreshold
  {
  }

  /**
   * The initial check only ever adds `visible`, and adds it exactly when the
   * controller is installed and the hero bottom is at most the threshold.
   */
  lemma InitialCheckOnlyAdds(p: Page)
    requires p.floatingCta.Some?
    ensures InitialCheck(p).floatingCta.value
        <==> p.floatingCta.value || (p.hero.Some? && p.hero.value.bottom <= HeroThreshold)
  {
  }

  /** The initial check ignores the final CTA section and the footer. */
  lemma InitialCheckIgnoresCtaAndFooter(p: Page, cta: Option<Rect>, footer: Option<Rect>)
    ensures InitialCheck(p.(finalCta := cta, footer := footer)).floatingCta == InitialCheck(p).floatingCta
  {
  }

  /**
   * Because it ignores the final CTA section, the initial check can show the
   * button while that section fills the viewport (after a direct navigation
   * to `#agenda`), which the observer's rule would not do.
   */
  lemma InitialCheckMayShowOverFinalCta()
    ensures var p := Page(Some(false), Some(Rect(-900.0, -100.0)), Some(Rect(0.0, 700.0)), None, 800.0);
            InitialCheck(p).floatingCta == Some(true) && OnIntersection(p, []).floatingCta == Some(false)
  {
  }

  /** When no region forces the button hidden, the initial check agrees with the observer's rule. */
  lemma InitialCheckAgreesWhenClear(p: Page, entries: seq<Entry>)
    requires Installed(p) && !FinalCtaInView(p) && !FooterInView(p) && !HeroInView(p)
    ensures InitialCheck(p) == OnIntersection(p, entries)
  {
  }
}
