/**
 * The entrance animations (js/main.js): the scroll-reveal observer, which
 * adds the `visible` class to elements as they enter the viewport, and
 * `staggerAnimation`, which gives the elements of a group increasing
 * transition delays.
 */
module Animations {

  /** One IntersectionObserver entry: which observed element, and whether it intersects. */
  datatype RevealEntry = RevealEntry(target: nat, isIntersecting: bool)

  /** The elements a batch of entries reports as intersecting. */
  function IntersectingTargets(entries: seq<RevealEntry>): set<nat> {
    set k | 0 <= k < |entries| && entries[k].isIntersecting :: entries[k].target
  }

  /** The elements observed for scroll reveal, identified by position, and which of them are `visible`. */
  class ScrollReveal {
    var visible: set<nat>

    /** The observer as set up at load, over elements that may already carry `visible` in the markup. */
    constructor (initiallyVisible: set<nat>)
      ensures visible == initiallyVisible
    {
      visible := initiallyVisible;
    }

    /**
     * The observer callback with its animation frames: every intersecting
     * entry's element becomes visible, and no element ever loses `visible`.
     */
    method OnIntersection(entries: seq<RevealEntry>)
      modifies this
      ensures visible == old(visible) + IntersectingTargets(entries)
      ensures old(visible) <= visible
    {
      var k := 0;
      while k < |entries|
        invariant 0 <= k <= |entries|
        invariant visible == old(visible) + IntersectingTargets(entries[..k])
      {
        if entries[k].isIntersecting {
          visible := visible + {entries[k].target};
        }
        assert entries[..k + 1] == entries[..k] + [entries[k]];
        k := k + 1;
      }
      assert entries[..k] == entries;
    }
  }

  /**
   * `staggerAnimation`: the element at position k of the group gets a
   * transition delay of k * delay milliseconds.
   */
  method Stagger(transitionDelays: array<int>, delay: int)
    modifies transitionDelays
    ensures forall k :: 0 <= k < transitionDelays.Length ==> transitionDelays[k] == k * delay
  {
    var index := 0;
    while index < transitionDelays.Length
      invariant 0 <= index <= transitionDelays.Length
      invariant forall k :: 0 <= k < index ==> transitionDelays[k] == k * delay
    {
      transitionDelays[index] := index * delay;
      index := index + 1;
    }
  }
}
