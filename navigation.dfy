/** The arrow-key navigation of `setupKeyboardNavigation`: from the index of the
    focused card and the key pressed, the index of the card that gets focus. */
module Navigation {
  import opened Wrappers

  /** JavaScript's `%` for a positive divisor: the remainder truncated toward
      zero, which takes the sign of `a` (Dafny's `%` is never negative). */
  function JsRemainder(a: int, b: int): (r: int)
    requires b > 0
    ensures a >= 0 ==> r == a % b
    ensures a < 0 ==> -b < r <= 0
    ensures (a - r) % b == 0
  {
    if a >= 0 then
      ModUnique(a - a % b, b, a / b, 0);
      a % b
    else
      var r := -((-a) % b);
      assert -a == ((-a) / b) * b + (-a) % b;
      ModUnique(a - r, b, -((-a) / b), 0);
      r
  }

  lemma MulAtLeast(d: int, n: int)
    requires d >= 1 && n > 0
    ensures d * n >= n
  {
  }

  /** The remainder is the `r` of any decomposition `x == q * n + r`. */
  lemma ModUnique(x: int, n: int, q: int, r: int)
    requires 0 < n && 0 <= r < n && x == q * n + r
    ensures x % n == r
  {
    var q', r' := x / n, x % n;
    assert x == q' * n + r';
    assert (q - q') * n == r' - r;
    if q > q' { MulAtLeast(q - q', n); }
    else if q < q' { MulAtLeast(q' - q, n); }
  }

  /** One step back from `idx` modulo `n`, written as the source writes it. */
  lemma ModBack(idx: int, n: int)
    requires 0 <= idx < n
    ensures (idx - 1 + n) % n == if idx == 0 then n - 1 else idx - 1
  {
    if idx == 0 { ModUnique(idx - 1 + n, n, 0, n - 1); } else { ModUnique(idx - 1 + n, n, 1, idx - 1); }
  }

  /** The successor modulo `n` wraps from `n - 1` to `0`. */
  lemma ModSucc(x: int, n: int)
    requires 0 <= x && 0 < n
    ensures (x + 1) % n == if x % n == n - 1 then 0 else x % n + 1
  {
    var p, q := x % n, x / n;
    assert x == q * n + p;
    if p == n - 1 {
      assert x + 1 == (q + 1) * n + 0;
      ModUnique(x + 1, n, q + 1, 0);
    } else {
      ModUnique(x + 1, n, q, p + 1);
    }
  }

  /** One step past `x` modulo `n`, for `0 <= x <= n`. */
  lemma ModStep(x: int, n: int)
    requires 0 <= x <= n && 0 < n
    ensures x % n == if x == n then 0 else x
  {
    if x == n { ModUnique(x, n, 1, 0); } else { ModUnique(x, n, 0, x); }
  }

  /** The new focus for `key`, given `count` cards and the index `idx` of the
      focused one (`-1` when no card has focus, as `indexOf` reports it);
      `None` when the handler returns without moving the focus. */
  function FocusTarget(key: string, idx: int, count: nat): (r: Option<nat>)
    requires idx == -1 || 0 <= idx < count
    ensures r.Some? ==> r.value < count
    ensures r.Some? <==> idx != -1 && key in {"ArrowDown", "ArrowRight", "ArrowUp", "ArrowLeft", "Home", "End"}
    ensures idx != -1 && (key == "ArrowDown" || key == "ArrowRight") ==>
      r == Some(if idx == count - 1 then 0 else idx + 1)
    ensures idx != -1 && (key == "ArrowUp" || key == "ArrowLeft") ==>
      r == Some(if idx == 0 then count - 1 else idx - 1)
    ensures idx != -1 && key == "Home" ==> r == Some(0)
    ensures idx != -1 && key == "End" ==> r == Some(count - 1)
  {
    if idx == -1 then None
    else if key == "ArrowDown" || key == "ArrowRight" then
      ModStep(idx + 1, count);
      Some(JsRemainder(idx + 1, count))
    else if key == "ArrowUp" || key == "ArrowLeft" then
      ModBack(idx, count);
      Some(JsRemainder(idx - 1 + count, count))
    else if key == "Home" then Some(0)
    else if key == "End" then Some(count - 1)
    else None
  }

  /** Up undoes down, and down undoes up. */
  lemma StepsAreInverse(idx: nat, count: nat)
    requires idx < count
    ensures FocusTarget("ArrowUp", FocusTarget("ArrowDown", idx, count).value, count) == Some(idx)
    ensures FocusTarget("ArrowDown", FocusTarget("ArrowUp", idx, count).value, count) == Some(idx)
  {
  }

  /** The focus after pressing ArrowDown `k` times. */
  function StepDown(idx: nat, count: nat, k: nat): (r: nat)
    requires idx < count
    ensures r < count
  {
    if k == 0 then idx else FocusTarget("ArrowDown", StepDown(idx, count, k - 1), count).value
  }

  /** Pressing ArrowDown `k` times moves the focus `k` cards on, modulo the
      number of cards. */
  lemma {:induction false} StepDownIsModular(idx: nat, count: nat, k: nat)
    requires idx < count
    ensures StepDown(idx, count, k) == (idx + k) % count
  {
    if k > 0 {
      StepDownIsModular(idx, count, k - 1);
      ModSucc(idx + k - 1, count);
    }
  }

  /** `count` presses of ArrowDown bring the focus back to where it started. */
  lemma FullCycle(idx: nat, count: nat)
    requires idx < count
    ensures StepDown(idx, count, count) == idx
  {
    StepDownIsModular(idx, count, count);
    ModUnique(idx + count, count, 1, idx);
  }
}
