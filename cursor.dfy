/**
 * The wrap-around selection index shared by the menus and the history
 * list: moving up from the first entry goes to the last, and moving down
 * from the last goes to the first.
 */
module Cursor {
  /** `i <= 0 ? length - 1 : i - 1`. */
  function WrapUp(i: int, length: nat): int {
    if i <= 0 then length - 1 else i - 1
  }

  /** `i >= length - 1 ? 0 : i + 1`. */
  function WrapDown(i: int, length: nat): int {
    if i >= length - 1 then 0 else i + 1
  }

  /** On a non-empty list both moves keep a valid index valid, wrapping at the ends. */
  lemma WrapInRange(i: int, length: nat)
    requires 0 <= i < length
    ensures 0 <= WrapUp(i, length) < length && 0 <= WrapDown(i, length) < length
    ensures WrapUp(i, length) == (i - 1) % length
    ensures WrapDown(i, length) == (i + 1) % length
  {
  }

  /** Up undoes down and down undoes up. */
  lemma WrapInverse(i: int, length: nat)
    requires 0 <= i < length
    ensures WrapUp(WrapDown(i, length), length) == i
    ensures WrapDown(WrapUp(i, length), length) == i
  {
  }

  /** `k` moves down from `i`. */
  function DownTimes(i: int, length: nat, k: nat): int {
    if k == 0 then i else WrapDown(DownTimes(i, length, k - 1), length)
  }

  /** `k` moves up from `i`. */
  function UpTimes(i: int, length: nat, k: nat): int {
    if k == 0 then i else WrapUp(UpTimes(i, length, k - 1), length)
  }

  /** `k` moves down land `k` places further on, counted round the list. */
  lemma {:induction false} DownTimesIsModular(i: int, length: nat, k: nat)
    requires 0 <= i < length
    ensures DownTimes(i, length, k) == (i + k) % length
  {
    if k > 0 {
      DownTimesIsModular(i, length, k - 1);
      var j := (i + k - 1) % length;
      WrapInRange(j, length);
      ModuloStep(i + k - 1, length);
    }
  }

  /** `k` moves up land `k` places back, counted round the list. */
  lemma {:induction false} UpTimesIsModular(i: int, length: nat, k: nat)
    requires 0 <= i < length
    ensures UpTimes(i, length, k) == (i - k) % length
  {
    if k > 0 {
      UpTimesIsModular(i, length, k - 1);
      var j := (i - (k - 1)) % length;
      WrapInRange(j, length);
      ModuloStepBack(i - (k - 1), length);
    }
  }

  /** Division with remainder, as the one decomposition it is. */
  lemma ModuloUnique(x: int, length: nat, q: int, r: int)
    requires length > 0 && x == q * length + r && 0 <= r < length
    ensures x % length == r
  {
    var q2, r2 := x / length, x % length;
    assert x == q2 * length + r2;
    var d := q - q2;
    assert d * length == r2 - r by {
      assert q * length - q2 * length == (q - q2) * length;
    }
  }

  lemma ModuloStep(x: int, length: nat)
    requires length > 0
    ensures (x % length + 1) % length == (x + 1) % length
  {
    var q, r := x / length, x % length;
    if r + 1 < length {
      ModuloUnique(x + 1, length, q, r + 1);
      ModuloUnique(r + 1, length, 0, r + 1);
    } else {
      ModuloUnique(x + 1, length, q + 1, 0);
      ModuloUnique(r + 1, length, 1, 0);
    }
  }

  lemma ModuloStepBack(x: int, length: nat)
    requires length > 0
    ensures (x % length - 1) % length == (x - 1) % length
  {
    var q, r := x / length, x % length;
    if r >= 1 {
      ModuloUnique(x - 1, length, q, r - 1);
      ModuloUnique(r - 1, length, 0, r - 1);
    } else {
      ModuloUnique(x - 1, length, q - 1, length - 1);
      ModuloUnique(r - 1, length, -1, length - 1);
    }
  }

  /** Moving down as many times as there are entries comes back to the start, and so does moving up. */
  lemma FullCircle(i: int, length: nat)
    requires 0 <= i < length
    ensures DownTimes(i, length, length) == i && UpTimes(i, length, length) == i
  {
    DownTimesIsModular(i, length, length);
    UpTimesIsModular(i, length, length);
    ModuloUnique(i + length, length, 1, i);
    ModuloUnique(i - length, length, -1, i);
  }
}
