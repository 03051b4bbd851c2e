/**
 * The parallax scroll throttle (js/main.js, `ticking`, `updateParallax` and
 * the scroll listener).  A scroll event requests an animation frame only
 * when no update is in flight; the update writes the `--parallax-offset`
 * property while the page is scrolled less than the hero's height, and
 * always clears `ticking`.  The offset value itself (`scrolled * 0.3`) is
 * not modelled: the state records the scroll positions at which it was
 * written.
 */
module Parallax {
  import opened Optional

  /** The hero height assumed when the page has no hero. */
  const DefaultHeroHeight: real := 800.0

  /** The throttle's state: the `ticking` flag and the number of requested, not yet run, updates. */
  datatype Throttle = Throttle(ticking: bool, pending: nat)

  const Idle: Throttle := Throttle(false, 0)

  /** At most one update is pending, and one is pending exactly while `ticking` is set. */
  predicate Throttled(t: Throttle) {
    t.pending <= 1 && (t.ticking <==> t.pending == 1)
  }

  /** The scroll listener: requests an update only when none is in flight. */
  function AfterScroll(t: Throttle): (u: Throttle)
    ensures u.ticking
    ensures u.pending == if t.ticking then t.pending else t.pending + 1
  {
    if !t.ticking then Throttle(true, t.pending + 1) else t
  }

  /** `updateParallax` run from its frame: one pending update is consumed and `ticking` cleared. */
  function AfterUpdate(t: Throttle): (u: Throttle)
    requires t.pending > 0
    ensures !u.ticking && u.pending == t.pending - 1
  {
    Throttle(false, t.pending - 1)
  }

  /** The height compared against: the hero's `offsetHeight`, or 800 when there is no hero. */
  function HeroHeight(heroOffsetHeight: Option<real>): (h: real)
    ensures heroOffsetHeight.Some? ==> h == heroOffsetHeight.value
    ensures heroOffsetHeight.None? ==> h == DefaultHeroHeight
  {
    match heroOffsetHeight
    case Some(height) => height
    case None => DefaultHeroHeight
  }

  /** Whether an update at scroll position `scrolled` writes the parallax offset. */
  predicate WritesOffset(scrolled: real, heroOffsetHeight: Option<real>) {
    scrolled < HeroHeight(heroOffsetHeight)
  }

  /** Without a hero the offset is written for every scroll position below 800 and no other. */
  lemma NoHeroUsesDefault(scrolled: real)
    ensures WritesOffset(scrolled, None) <==> scrolled < 800.0
  {
  }

  /** Events reaching the throttle: a scroll event, or an animation frame being painted. */
  datatype Event = Scroll | Frame

  /**
   * The throttle after a sequence of events.  A frame with no update
   * requested runs nothing.
   */
  function Run(t: Throttle, events: seq<Event>): (u: Throttle)
    decreases |events|
  {
    if events == [] then t
    else
      var next := match events[0]
        case Scroll => AfterScroll(t)
        case Frame => if t.pending > 0 then AfterUpdate(t) else t;
      Run(next, events[1..])
  }

  /** Both steps keep at most one update pending. */
  lemma StepsKeepThrottled(t: Throttle)
    requires Throttled(t)
    ensures Throttled(AfterScroll(t))
    ensures t.pending > 0 ==> Throttled(AfterUpdate(t))
  {
  }

  /** Under any interleaving of scrolls and frames, at most one update is ever pending. */
  lemma {:induction false} RunKeepsThrottled(t: Throttle, events: seq<Event>)
    requires Throttled(t)
    ensures Throttled(Run(t, events))
    decreases |events|
  {
    if events != [] {
      StepsKeepThrottled(t);
      var next := match events[0]
        case Scroll => AfterScroll(t)
        case Frame => if t.pending > 0 then AfterUpdate(t) else t;
      RunKeepsThrottled(next, events[1..]);
    }
  }

  /** `k` scroll events in a row. */
  function Scrolls(k: nat): (events: seq<Event>)
    ensures |events| == k
  {
    if k == 0 then [] else [Scroll] + Scrolls(k - 1)
  }

  /** Any burst of scroll events between two frames requests exactly one update. */
  lemma {:induction false} BurstRequestsOneUpdate(t: Throttle, k: nat)
    requires Throttled(t) && k >= 1
    ensures Run(t, Scrolls(k)) == Throttle(true, 1)
    decreases k
  {
    var next := AfterScroll(t);
    assert next == Throttle(true, 1);
    assert Scrolls(k)[1..] == Scrolls(k - 1);
    if k > 1 {
      BurstRequestsOneUpdate(next, k - 1);
    } else {
      assert Run(next, Scrolls(k)[1..]) == next;
    }
  }

  class ScrollThrottle {
    var ticking: bool
    /** Updates requested with `requestAnimationFrame` and not yet run. */
    var pending: nat
    /** The scroll positions at which `--parallax-offset` was written, in order. */
    var offsetWrites: seq<real>

    function State(): Throttle
      reads this
    {
      Throttle(ticking, pending)
    }

    ghost predicate Valid()
      reads this
    {
      Throttled(State())
    }

    constructor ()
      ensures Valid() && State() == Idle && offsetWrites == []
    {
      ticking, pending, offsetWrites := false, 0, [];
    }

    /** The scroll listener. */
    method OnScroll()
      requires Valid()
      modifies this
      ensures Valid()
      ensures State() == AfterScroll(old(State())) && offsetWrites == old(offsetWrites)
    {
      if !ticking {
        pending := pending + 1;
        ticking := true;
      }
    }

    /**
     * `updateParallax`, run by the frame the scroll listener requested, with
     * the page's scroll offset and the hero's height (absent without a hero).
     */
    method UpdateParallax(scrolled: real, heroOffsetHeight: Option<real>)
      requires Valid() && pending > 0
      modifies this
      ensures Valid() && !ticking && pending == 0
      ensures State() == AfterUpdate(old(State()))
      ensures offsetWrites == if WritesOffset(scrolled, heroOffsetHeight)
                              then old(offsetWrites) + [scrolled] else old(offsetWrites)
    {
      var heroHeight := HeroHeight(heroOffsetHeight);
      if scrolled < heroHeight {
        offsetWrites := offsetWrites + [scrolled];
      }
      pending := pending - 1;
      ticking := false;
    }
  }
}
