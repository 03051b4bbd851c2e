/**
 * The FAQ accordion (js/main.js, the click handler on every `.faq-question`
 * and the keydown handler beside it).  The `n` items are modelled by two
 * parallel boolean arrays: `active[j]` is whether item j carries the `active`
 * class, `expanded[j]` is whether its question's `aria-expanded` is "true".
 *
 * A click runs in two phases: the handler closes every other item at once,
 * and a frame later the deferred callback flips the clicked item according to
 * the `isActive` value captured at click time.  The class treats the two
 * phases as one atomic step; the phases are also given separately as
 * functions so that an interleaving of two clicks can be examined.
 */
module FaqAccordion {
  import opened Optional
  import FaqNavigation

  /** Number of open items. */
  function OpenCount(s: seq<bool>): (c: nat)
    ensures c <= |s|
  {
    if s == [] then 0 else (if s[0] then 1 else 0) + OpenCount(s[1..])
  }

  predicate AtMostOneOpen(s: seq<bool>) {
    OpenCount(s) <= 1
  }

  /** Phase one of a click on item `i`: every other item is closed. */
  function CloseOthers(s: seq<bool>, i: nat): (t: seq<bool>)
    requires i < |s|
    ensures |t| == |s| && t[i] == s[i]
    ensures forall j :: 0 <= j < |s| && j != i ==> !t[j]
  {
    seq(|s|, j requires 0 <= j < |s| => if j == i then s[i] else false)
  }

  /** Phase two, run in the next frame: item `i` opens when it was closed at click time, and closes otherwise. */
  function ToggleDeferred(s: seq<bool>, i: nat, wasActive: bool): (t: seq<bool>)
    requires i < |s|
    ensures |t| == |s| && t[i] == !wasActive
    ensures forall j :: 0 <= j < |s| && j != i ==> t[j] == s[j]
  {
    s[i := !wasActive]
  }

  /** The state after one click on item `i`, with both phases run back to back. */
  function AfterClick(s: seq<bool>, i: nat): (t: seq<bool>)
    requires i < |s|
    ensures |t| == |s|
  {
    ToggleDeferred(CloseOthers(s, i), i, s[i])
  }

  /** The state with every item closed. */
  function AllClosed(n: nat): (t: seq<bool>)
    ensures |t| == n && OpenCount(t) == 0
  {
    if n == 0 then [] else [false] + AllClosed(n - 1)
  }

  /** With every item but `i` closed, the open count is 1 or 0 according to item `i`. */
  lemma {:induction false} OpenCountOnlyAt(s: seq<bool>, i: nat)
    requires i < |s|
    requires forall j :: 0 <= j < |s| && j != i ==> !s[j]
    ensures OpenCount(s) == if s[i] then 1 else 0
    decreases |s|
  {
    if i == 0 {
      NoneOpen(s[1..]);
    } else {
      OpenCountOnlyAt(s[1..], i - 1);
    }
  }

  /** A sequence with no open item has open count 0. */
  lemma {:induction false} NoneOpen(s: seq<bool>)
    requires forall j :: 0 <= j < |s| ==> !s[j]
    ensures OpenCount(s) == 0
    decreases |s|
  {
    if s != [] {
      NoneOpen(s[1..]);
    }
  }

  /**
   * A click on item `i`, from any state (even markup with several items
   * already active): every other item ends closed, item `i` ends open exactly
   * when it was closed before, so exactly one item is open when `i` was
   * closed and none when it was open.
   */
  lemma ClickOutcome(s: seq<bool>, i: nat)
    requires i < |s|
    ensures forall j :: 0 <= j < |s| && j != i ==> !AfterClick(s, i)[j]
    ensures AfterClick(s, i)[i] == !s[i]
    ensures OpenCount(AfterClick(s, i)) == if s[i] then 0 else 1
    ensures AtMostOneOpen(AfterClick(s, i))
  {
    OpenCountOnlyAt(AfterClick(s, i), i);
  }

  /** Clicking a closed item twice closes everything. */
  lemma DoubleClickClosesAll(s: seq<bool>, i: nat)
    requires i < |s| && !s[i]
    ensures AfterClick(AfterClick(s, i), i) == AllClosed(|s|)
  {
    var t := AfterClick(AfterClick(s, i), i);
    forall j | 0 <= j < |s| ensures t[j] == AllClosed(|s|)[j] {
      AllClosedAt(|s|, j);
    }
  }

  lemma {:induction false} AllClosedAt(n: nat, j: nat)
    requires j < n
    ensures !AllClosed(n)[j]
  {
    if j > 0 {
      AllClosedAt(n - 1, j - 1);
    }
  }

  /**
   * The atomic-click assumption matters.  Click item `i`, closed at that
   * moment, then item `j`, and let both close phases run before either
   * deferred toggle.  Each toggle uses the `isActive` captured at its own
   * click, and both were false, so both items end up open.
   */
  lemma InterleavedClicksOpenTwo(s: seq<bool>, i: nat, j: nat)
    requires i < |s| && j < |s| && i != j && !s[i]
    ensures var afterFirstClose := CloseOthers(s, i);
            var afterSecondClose := CloseOthers(afterFirstClose, j);
            var afterFirstToggle := ToggleDeferred(afterSecondClose, i, s[i]);
            var afterSecondToggle := ToggleDeferred(afterFirstToggle, j, afterFirstClose[j]);
            afterSecondToggle[i] && afterSecondToggle[j] && OpenCount(afterSecondToggle) >= 2
  {
    var afterFirstClose := CloseOthers(s, i);
    var afterSecondClose := CloseOthers(afterFirstClose, j);
    var afterFirstToggle := ToggleDeferred(afterSecondClose, i, s[i]);
    var afterSecondToggle := ToggleDeferred(afterFirstToggle, j, afterFirstClose[j]);
    if i < j {
      TwoOpen(afterSecondToggle, i, j);
    } else {
      TwoOpen(afterSecondToggle, j, i);
    }
  }

  /** Two open items make an open count of at least two. */
  lemma {:induction false} TwoOpen(s: seq<bool>, i: nat, j: nat)
    requires i < j < |s| && s[i] && s[j]
    ensures OpenCount(s) >= 2
    decreases i
  {
    if i == 0 {
      OneOpen(s[1..], j - 1);
    } else {
      TwoOpen(s[1..], i - 1, j - 1);
    }
  }

  /** One open item makes an open count of at least one. */
  lemma {:induction false} OneOpen(s: seq<bool>, j: nat)
    requires j < |s| && s[j]
    ensures OpenCount(s) >= 1
    decreases j
  {
    if j > 0 {
      OneOpen(s[1..], j - 1);
    }
  }

  class Accordion {
    /** The `active` class of each `.faq-item`. */
    const active: array<bool>
    /** The `aria-expanded` attribute of each item's `.faq-question`. */
    const expanded: array<bool>

    ghost predicate Valid()
      reads this
    {
      active != expanded && active.Length == expanded.Length
    }

    /** The accordion as built from static markup, in whatever state that markup has. */
    constructor (initiallyActive: seq<bool>, initiallyExpanded: seq<bool>)
      requires |initiallyActive| == |initiallyExpanded|
      ensures Valid() && fresh(active) && fresh(expanded)
      ensures active[..] == initiallyActive && expanded[..] == initiallyExpanded
    {
      active := new bool[|initiallyActive|](j requires 0 <= j < |initiallyActive| => initiallyActive[j]);
      expanded := new bool[|initiallyExpanded|](j requires 0 <= j < |initiallyExpanded| => initiallyExpanded[j]);
    }

    /**
     * The click handler of item `i`, with its deferred toggle run before the
     * next event.  Afterwards `aria-expanded` agrees with `active` on every
     * item and at most one item is open.
     */
    method Click(i: nat)
      requires Valid() && i < active.Length
      modifies active, expanded
      ensures Valid()
      ensures active[..] == AfterClick(old(active[..]), i)
      ensures expanded[..] == active[..]
      ensures AtMostOneOpen(active[..])
    {
      var isActive := active[i];
      ghost var before := active[..];
      var j := 0;
      while j < active.Length
        invariant 0 <= j <= active.Length
        invariant active[i] == isActive
        invariant forall k :: 0 <= k < j && k != i ==> !active[k] && !expanded[k]
        invariant forall k :: j <= k < active.Length ==> active[k] == before[k]
      {
        if j != i {
          active[j] := false;
          expanded[j] := false;
        }
        j := j + 1;
      }
      if !isActive {
        active[i] := true;
        expanded[i] := true;
      } else {
        active[i] := false;
        expanded[i] := false;
      }
      assert active[..] == AfterClick(before, i);
      ClickOutcome(before, i);
    }

    /**
     * The keydown handler of item `index`: it reports which question gets
     * focus, and changes neither `active` nor `aria-expanded` of any item.
     */
    method KeyDown(index: nat, key: string) returns (focus: Option<nat>)
      requires Valid() && index < active.Length
      ensures focus == FaqNavigation.FocusTarget(active.Length, index, key)
      ensures active[..] == old(active[..]) && expanded[..] == old(expanded[..])
    {
      focus := FaqNavigation.FocusTarget(active.Length, index, key);
    }
  }
}
