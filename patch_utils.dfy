/** Rounding helpers of the firmware patcher (gnwmanager/cli/gnw_patch/utils.py). */
module PatchUtils {
  import opened Common

  /** `(val // m) * m`: Python's `//` floors, which for a positive divisor is Dafny's
      Euclidean `/`. */
  function RoundDown(val: int, m: int): (r: int)
    requires m > 0
    ensures r % m == 0
    ensures val - m < r <= val
  {
    DivUnique((val / m) * m, m, val / m, 0);
    (val / m) * m
  }

  /** `ceil(val / m) * m`: the ceiling of the quotient is minus the floor of `-val / m`. */
  function RoundUp(val: int, m: int): (r: int)
    requires m > 0
    ensures r % m == 0
    ensures val <= r < val + m
  {
    var d := RoundDown(-val, m);
    NegMultiple(d, m);
    -d
  }

  lemma NegMultiple(x: int, m: int)
    requires m > 0 && x % m == 0
    ensures (-x) % m == 0
  {
    var q := x / m;
    assert x == q * m;
    DivUnique(-x, m, -q, 0);
  }

  function RoundDownWord(val: int): (r: int)
    ensures r % 4 == 0 && val - 4 < r <= val
  {
    RoundDown(val, 4)
  }

  function RoundUpWord(val: int): (r: int)
    ensures r % 4 == 0 && val <= r < val + 4
  {
    RoundUp(val, 4)
  }

  function RoundDownPage(val: int): (r: int)
    ensures r % 4096 == 0 && val - 4096 < r <= val
  {
    RoundDown(val, 4096)
  }

  function RoundUpPage(val: int): (r: int)
    ensures r % 4096 == 0 && val <= r < val + 4096
  {
    RoundUp(val, 4096)
  }

  /** There is exactly one multiple of `m` in `(val - m, val]`. */
  lemma MultipleInWindow(val: int, m: int, x: int, y: int)
    requires m > 0 && x % m == 0 && y % m == 0
    requires val - m < x <= val && val - m < y <= val
    ensures x == y
  {
    DivUnique(x, m, x / m, 0);
    DivUnique(y, m, y / m, 0);
    if x / m < y / m {
      MulAtLeast(y / m - x / m, m);
    } else if y / m < x / m {
      MulAtLeast(x / m - y / m, m);
    }
  }

  /** Rounding down and up agree exactly on multiples of `m`. */
  lemma RoundingAgree(val: int, m: int)
    requires m > 0
    ensures RoundDown(val, m) == RoundUp(val, m) <==> val % m == 0
  {
    var d, u := RoundDown(val, m), RoundUp(val, m);
    if val % m == 0 {
      MultipleInWindow(val, m, d, val);
      MultipleInWindow(u, m, u, val);
    }
  }

  /** Off a multiple, rounding up lands one unit above rounding down. */
  lemma RoundingAdjacent(val: int, m: int)
    requires m > 0 && val % m != 0
    ensures RoundUp(val, m) == RoundDown(val, m) + m
  {
    var d, u := RoundDown(val, m), RoundUp(val, m);
    assert d == (d / m) * m;
    DivUnique(d + m, m, d / m + 1, 0);
    MultipleInWindow(val + m - 1, m, u, d + m);
  }

  /** Rounding an already rounded value changes nothing. */
  lemma RoundingIdempotent(val: int, m: int)
    requires m > 0
    ensures RoundDown(RoundDown(val, m), m) == RoundDown(val, m)
    ensures RoundUp(RoundUp(val, m), m) == RoundUp(val, m)
  {
    var d, u := RoundDown(val, m), RoundUp(val, m);
    MultipleInWindow(d, m, RoundDown(d, m), d);
    MultipleInWindow(u + m - 1, m, RoundUp(u, m), u);
  }

  /** `int(round(60 * seconds))` on a whole number of seconds: the frame count is a
      multiple of 60 that gives the seconds back. */
  function SecondsToFrames(seconds: int): (r: int)
    ensures r % 60 == 0 && r / 60 == seconds
  {
    DivUnique(60 * seconds, 60, seconds, 0);
    60 * seconds
  }
}
