/** Facts about multiplication, division and remainder that the solver does
    not find on its own once a factor is not a literal. */
module Arith {

  lemma MulMono(a: int, b: int, n: int)
    requires n > 0
    ensures a <= b ==> a * n <= b * n
  {
    assert b * n - a * n == (b - a) * n;
  }

  lemma MulCancelLe(a: int, b: int, n: int)
    requires n > 0 && a * n <= b * n
    ensures a <= b
  {
    MulMono(b + 1, a, n);
    assert (b + 1) * n == b * n + n;
  }

  lemma DivMod(c: int, nc: int)
    requires nc > 0 && c >= 0
    ensures c == (c / nc) * nc + c % nc && 0 <= c % nc < nc && 0 <= c / nc
    ensures c < nc ==> c / nc == 0 && c % nc == c
  {
    var q := c / nc;
    MulMono(q, -1, nc);
    MulMono(1, q, nc);
  }

  /** Euclidean quotient and remainder are the only pair with a remainder in `[0, step)`. */
  lemma DivModUnique(a: int, step: int, q: int, r: int)
    requires step > 0 && 0 <= r < step && a == q * step + r
    ensures a / step == q && a % step == r
  {
    var q' := a / step;
    assert a == q' * step + a % step;
    assert (q' + 1) * step == q' * step + step;
    assert (q + 1) * step == q * step + step;
    MulMono(q' + 1, q, step);
    MulMono(q + 1, q', step);
  }

  /** Taking one step off does not change the remainder. */
  lemma ModShift(a: int, step: int)
    requires step > 0
    ensures (a - step) % step == a % step
  {
    var q := a / step;
    assert a == q * step + a % step;
    assert a - step == (q - 1) * step + a % step;
    DivModUnique(a - step, step, q - 1, a % step);
  }
}
