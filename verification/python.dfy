/** The few Python built-ins the renderer's arithmetic rests on, written out
    over unbounded integers and exact reals: `int()` of a float, floor
    division `//`, and `range(0, stop, step)`. */
module Python {
  import opened Wrappers

  /** The exceptions the modelled code can raise. */
  datatype PyError = ValueError | ZeroDivisionError

  /** `t` is `r` with its fractional part dropped: the integer within one
      of `r` on the side of zero. */
  ghost predicate DropsFraction(r: real, t: int) {
    && (r >= 0.0 ==> t as real <= r < t as real + 1.0)
    && (r < 0.0 ==> t as real - 1.0 < r <= t as real)
  }

  /** Only one integer is `r` with its fraction dropped. */
  lemma DropsFractionUnique(r: real, t1: int, t2: int)
    requires DropsFraction(r, t1) && DropsFraction(r, t2)
    ensures t1 == t2
  {
  }

  /** `int(r)` for a float `r`: truncation toward zero, not rounding and not
      floor. */
  function Trunc(r: real): (t: int)
    ensures DropsFraction(r, t)
  {
    if r >= 0.0 then r.Floor else -((-r).Floor)
  }

  /** Truncation is odd, which is what sets it apart from floor. */
  lemma TruncIsOdd(r: real)
    ensures Trunc(-r) == -Trunc(r)
  {
  }

  /** Truncation keeps order: a larger float never truncates lower. */
  lemma TruncMonotone(a: real, b: real)
    requires a <= b
    ensures Trunc(a) <= Trunc(b)
  {
  }

  /** `a // b`: the quotient rounded toward minus infinity, for either sign
      of the divisor. */
  function FloorDiv(a: int, b: int): (q: int)
    requires b != 0
    ensures b > 0 ==> q * b <= a < q * b + b
    ensures b < 0 ==> q * b + b < a <= q * b
  {
    if b > 0 then a / b else (-a) / (-b)
  }

  /** The least `q` with `n <= q * d`. */
  function CeilDiv(n: int, d: int): (q: int)
    requires d > 0
    ensures q * d - d < n <= q * d
  {
    (n + d - 1) / d
  }

  /** The elements of `range(start, stop, step)` for a positive step. */
  function Up(start: int, stop: int, step: int): seq<int>
    requires step > 0
    decreases stop - start
  {
    if start < stop then [start] + Up(start + step, stop, step) else []
  }

  /** The elements of `range(start, stop, step)` for a negative step. */
  function Down(start: int, stop: int, step: int): seq<int>
    requires step < 0
    decreases start - stop
  {
    if start > stop then [start] + Down(start + step, stop, step) else []
  }

  /** An ascending range holds `start + i * step` at index `i`, and holds
      as many elements as there are steps needed to reach `stop`. */
  lemma {:induction false} UpIndex(start: int, stop: int, step: int)
    requires step > 0
    ensures |Up(start, stop, step)| == if start < stop then CeilDiv(stop - start, step) else 0
    ensures forall i :: 0 <= i < |Up(start, stop, step)| ==> Up(start, stop, step)[i] == start + i * step
    decreases stop - start
  {
    if start < stop {
      UpIndex(start + step, stop, step);
      var rest := Up(start + step, stop, step);
      CeilDivStep(stop - start, step);
      forall i | 1 <= i < |Up(start, stop, step)|
        ensures Up(start, stop, step)[i] == start + i * step
      {
        assert Up(start, stop, step)[i] == rest[i - 1];
        assert (start + step) + (i - 1) * step == start + i * step;
      }
    }
  }

  /** One step of a ceiling division: a positive `n` takes one step more
      than `n - d`. */
  lemma CeilDivStep(n: int, d: int)
    requires n > 0 && d > 0
    ensures CeilDiv(n, d) == 1 + (if n - d > 0 then CeilDiv(n - d, d) else 0)
  {
    var q := CeilDiv(n, d);
    if n - d > 0 {
      var q' := CeilDiv(n - d, d);
      assert q' * d - d < n - d <= q' * d;
      assert (q' + 1) * d - d < n <= (q' + 1) * d;
      CeilDivUnique(n, d, q, q' + 1);
    } else {
      assert 1 * d - d < n <= 1 * d;
      CeilDivUnique(n, d, q, 1);
    }
  }

  /** Only one quotient satisfies the ceiling-division bounds. */
  lemma CeilDivUnique(n: int, d: int, q1: int, q2: int)
    requires d > 0
    requires q1 * d - d < n <= q1 * d
    requires q2 * d - d < n <= q2 * d
    ensures q1 == q2
  {
    LtFromMul(q1 - 1, q2, d);
    LtFromMul(q2 - 1, q1, d);
  }

  /** Multiplying by a positive number reflects strict order back. */
  lemma LtFromMul(a: int, b: int, d: int)
    requires d > 0 && a * d < b * d
    ensures a < b
  {
  }

  /** Quotient and remainder are determined by the division equation. */
  lemma DivModUnique(m: int, d: int, q: int, r: int)
    requires d > 0 && 0 <= r < d && m == q * d + r
    ensures m % d == r && m / d == q
  {
    var q', r' := m / d, m % d;
    assert m == q' * d + r';
    assert (q - q') * d == r' - r;
    LtFromMul(q - q', 1, d);
    LtFromMul(-1, q - q', d);
  }

  /** A value is in an ascending range exactly when it lies in
      `[start, stop)` a whole number of steps from `start`. */
  lemma {:induction false} UpMembers(start: int, stop: int, step: int, x: int)
    requires step > 0
    ensures x in Up(start, stop, step) <==> start <= x < stop && (x - start) % step == 0
    decreases stop - start
  {
    if start < stop {
      UpMembers(start + step, stop, step, x);
      ModShift(x - start, step);
      assert x in Up(start, stop, step) <==> x == start || x in Up(start + step, stop, step);
      assert start < x < start + step ==> (x - start) % step != 0;
    }
  }

  /** Removing one step keeps the residue. */
  lemma ModShift(n: int, d: int)
    requires d > 0
    ensures (n - d) % d == n % d
  {
    DivModUnique(n - d, d, n / d - 1, n % d);
  }

  /** Python's `range(0, stop, step)` over a non-negative `stop`: a zero
      step raises `ValueError`; a positive step gives the multiples of
      `step` below `stop`; a negative step gives nothing. */
  function Range(stop: nat, step: int): (r: Result<seq<int>, PyError>)
    ensures r.Failure? <==> step == 0
    ensures r.Failure? ==> r.error == ValueError
    ensures step < 0 ==> r == Success([])
    ensures step > 0 ==> r.Success? && |r.value| == CeilDiv(stop, step)
    ensures step > 0 ==> forall i :: 0 <= i < |r.value| ==> r.value[i] == i * step
    ensures step > 0 ==> forall x :: x in r.value <==> 0 <= x < stop && x % step == 0
  {
    if step == 0 then Failure(ValueError)
    else if step > 0 then
      UpIndex(0, stop, step);
      assert forall x :: x in Up(0, stop, step) <==> 0 <= x < stop && x % step == 0 by {
        forall x ensures x in Up(0, stop, step) <==> 0 <= x < stop && x % step == 0 {
          UpMembers(0, stop, step, x);
        }
      }
      Success(Up(0, stop, step))
    else Success(Down(0, stop, step))
  }
}
