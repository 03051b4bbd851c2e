/**
 * Keyboard navigation between the FAQ questions (js/main.js, the keydown
 * handler registered on every `.faq-question`).  The handler of the item at
 * position `index` among `n` items maps a key name to the position whose
 * question receives focus, or to nothing for keys it does not handle.
 */
module FaqNavigation {
  import opened Optional

  const ArrowDown: string := "ArrowDown"
  const ArrowUp: string := "ArrowUp"
  const Home: string := "Home"
  const End: string := "End"

  /** The keys the handler reacts to (and calls preventDefault for). */
  predicate Handled(key: string) {
    key == ArrowDown || key == ArrowUp || key == Home || key == End
  }

  /**
   * The position focused after `key` is pressed on item `index` of `n`.
   * ArrowUp's `(index - 1 + n) % n` has a non-negative left operand, so
   * Dafny's Euclidean `%` agrees with JavaScript's here.
   */
  function FocusTarget(n: nat, index: nat, key: string): (target: Option<nat>)
    requires index < n
    ensures target.Some? <==> Handled(key)
    ensures target.Some? ==> target.value < n
  {
    if key == ArrowDown then Some((index + 1) % n)
    else if key == ArrowUp then Some((index - 1 + n) % n)
    else if key == Home then Some(0)
    else if key == End then Some(n - 1)
    else None
  }

  /** Where focus lands after pressing ArrowDown `presses` times from `index`. */
  function ArrowDownPresses(n: nat, index: nat, presses: nat): (target: nat)
    requires index < n
    ensures target < n
    decreases presses
  {
    if presses == 0 then index
    else ArrowDownPresses(n, FocusTarget(n, index, ArrowDown).value, presses - 1)
  }

  /** ArrowDown on the last item wraps to the first; ArrowUp on the first wraps to the last. */
  lemma WrapAround(n: nat)
    requires n >= 1
    ensures FocusTarget(n, n - 1, ArrowDown) == Some(0)
    ensures FocusTarget(n, 0, ArrowUp) == Some(n - 1)
  {
  }

  /** Home and End jump to the first and last item wherever focus is. */
  lemma HomeAndEnd(n: nat, index: nat)
    requires index < n
    ensures FocusTarget(n, index, Home) == Some(0)
    ensures FocusTarget(n, index, End) == Some(n - 1)
  {
  }

  /** Euclidean remainders are unique: `r` is the remainder of `q * n + r`. */
  lemma ModUnique(x: int, n: nat, q: int, r: int)
    requires n > 0 && 0 <= r < n && x == q * n + r
    ensures x % n == r
  {
    var d := x / n - q;
    assert d * n == r - x % n by {
      assert x == (x / n) * n + x % n;
      assert (x / n) * n - q * n == d * n;
    }
  }

  /** Taking the remainder before adding one does not change the remainder after. */
  lemma ModSucc(x: nat, n: nat)
    requires n > 0
    ensures (x % n + 1) % n == (x + 1) % n
  {
    var q, r := x / n, x % n;
    assert x == q * n + r;
    if r + 1 < n {
      ModUnique(r + 1, n, 0, r + 1);
      ModUnique(x + 1, n, q, r + 1);
    } else {
      ModUnique(r + 1, n, 1, 0);
      ModUnique(x + 1, n, q + 1, 0);
    }
  }

  /** ArrowUp undoes ArrowDown and ArrowDown undoes ArrowUp. */
  lemma UpDownInverse(n: nat, index: nat)
    requires index < n
    ensures FocusTarget(n, FocusTarget(n, index, ArrowDown).value, ArrowUp) == Some(index)
    ensures FocusTarget(n, FocusTarget(n, index, ArrowUp).value, ArrowDown) == Some(index)
  {
    var down, up := FocusTarget(n, index, ArrowDown).value, FocusTarget(n, index, ArrowUp).value;
    if index + 1 < n {
      ModUnique(index + 1, n, 0, index + 1);
      ModUnique(index + n, n, 1, index);
    } else {
      ModUnique(index + 1, n, 1, 0);
      ModUnique(n - 1, n, 0, n - 1);
    }
    assert FocusTarget(n, down, ArrowUp).value == index;
    if index > 0 {
      ModUnique(index - 1 + n, n, 1, index - 1);
      ModUnique(index, n, 0, index);
    } else {
      ModUnique(n - 1, n, 0, n - 1);
      ModUnique(n, n, 1, 0);
    }
    assert FocusTarget(n, up, ArrowDown).value == index;
  }

  /** Pressing ArrowDown `presses` times moves focus `presses` places forward, modulo `n`. */
  lemma {:induction false} ArrowDownPressesShift(n: nat, index: nat, presses: nat)
    requires index < n
    ensures ArrowDownPresses(n, index, presses) == (index + presses) % n
    decreases presses
  {
    if presses == 0 {
      ModUnique(index, n, 0, index);
    } else {
      var next := FocusTarget(n, index, ArrowDown).value;
      ArrowDownPressesShift(n, next, presses - 1);
      ModSucc(index, n);
      ModUnique(index, n, 0, index);
      assert next == (index + 1) % n;
      ModShift(index + 1, n, presses - 1);
    }
  }

  /** Adding after taking the remainder is the same as adding before. */
  lemma ModShift(x: nat, n: nat, k: nat)
    requires n > 0
    ensures (x % n + k) % n == (x + k) % n
  {
    var q, r := x / n, x % n;
    assert x == q * n + r;
    var q2, r2 := (r + k) / n, (r + k) % n;
    assert r + k == q2 * n + r2;
    assert x + k == (q + q2) * n + r2;
    ModUnique(x + k, n, q + q2, r2);
  }

  /** `n` presses of ArrowDown bring focus back to where it started. */
  lemma CyclicClosure(n: nat, index: nat)
    requires index < n
    ensures ArrowDownPresses(n, index, n) == index
  {
    ArrowDownPressesShift(n, index, n);
    ModUnique(index + n, n, 1, index);
  }
}
