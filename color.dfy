/** Iteration-to-colour map of the renderer (`iteration_to_color`).

    The source writes `int color = 0xFFFFFF*iters/(double)max;`. By C's rules
    the product `0xFFFFFF*iters` is formed in 32-bit `int` before it is
    converted to double, so it overflows as soon as `iters >= 129`. This
    module models that expression as written (two's-complement wrap, then a
    division truncated toward zero), shows the input where it leaves the colour
    range, and gives the evidently intended ramp `floor(0xFFFFFF * iters / max)`,
    which the rest of the model uses.
 */
module Color {

  import opened Arith

  /** The brightest colour, 24 bits of white. */
  const MaxColor: int := 0xFFFFFF

  const Int32Min: int := -0x8000_0000
  const Int32Max: int := 0x7FFF_FFFF

  predicate IsInt32(x: int) { Int32Min <= x <= Int32Max }

  /** Two's-complement reduction of `x` to 32 bits: the value a wrapped
      signed multiplication leaves behind. */
  function Wrap32(x: int): (r: int)
    ensures IsInt32(r)
    ensures (x - r) % 0x1_0000_0000 == 0
    ensures IsInt32(x) ==> r == x
  {
    (x + 0x8000_0000) % 0x1_0000_0000 - 0x8000_0000
  }

  function Abs(x: int): nat { if x < 0 then -x else x }

  /** C's division, truncated toward zero (Dafny's own `/` is Euclidean). */
  function TruncDiv(a: int, b: int): (q: int)
    requires b != 0
    ensures Abs(a - q * b) < Abs(b)
    ensures a >= 0 ==> a - q * b >= 0
    ensures a <= 0 ==> a - q * b <= 0
  {
    var m := Abs(a) / Abs(b);
    var q := if (a >= 0) == (b > 0) then m else -m;
    TruncDivRemainder(a, b, m, q);
    q
  }

  /** The quotient of the magnitudes, signed as C signs it, leaves a
      remainder smaller than the divisor and signed like the dividend. */
  lemma TruncDivRemainder(a: int, b: int, m: int, q: int)
    requires b != 0 && m == Abs(a) / Abs(b)
    requires q == if (a >= 0) == (b > 0) then m else -m
    ensures Abs(a - q * b) < Abs(b)
    ensures a >= 0 ==> a - q * b >= 0
    ensures a <= 0 ==> a - q * b <= 0
  {
    var n := Abs(b);
    var r := Abs(a) % n;
    assert 0 <= r < n;
    assert Abs(a) == m * n + r;
    assert q * b == if a >= 0 then m * n else -(m * n) by {
      SignedProduct(m, n);
    }
    assert a - q * b == if a >= 0 then r else -r;
  }

  lemma SignedProduct(m: int, n: int)
    ensures (-m) * n == -(m * n) && m * (-n) == -(m * n) && (-m) * (-n) == m * n
  {
  }

  /** `iteration_to_color` exactly as the source writes it: the product is a
      32-bit signed multiplication (wrapped), and the conversion of the double
      quotient back to `int` truncates toward zero. */
  function IterationToColorAsWritten(iters: int, max: int): (c: int)
    requires IsInt32(iters) && IsInt32(max) && max != 0
    ensures IsInt32(MaxColor * iters) ==> c == IterationToColor(iters, max)
    ensures var p := Wrap32(MaxColor * iters);
      Abs(p - c * max) < Abs(max) && (p >= 0 ==> p - c * max >= 0) && (p <= 0 ==> p - c * max <= 0)
  {
    TruncDiv(Wrap32(MaxColor * iters), max)
  }

  /** The evidently intended colour ramp: `0xFFFFFF * iters / max`, truncated. */
  function IterationToColor(iters: int, max: int): (c: int)
    requires max != 0
    ensures max > 0 && 0 <= iters <= max ==> 0 <= c <= MaxColor
    ensures max > 0 && iters == 0 ==> c == 0
    ensures max > 0 && iters == max ==> c == MaxColor
  {
    if max > 0 && 0 <= iters <= max then
      ColorInRange(iters, max);
      TruncDiv(MaxColor * iters, max)
    else
      TruncDiv(MaxColor * iters, max)
  }

  /** For a positive divisor and a non-negative dividend, C's truncating
      division is Dafny's Euclidean one. */
  lemma TruncDivNonNeg(a: int, b: int)
    requires a >= 0 && b > 0
    ensures TruncDiv(a, b) == a / b
  {
    var q := TruncDiv(a, b);
    DivUnique(a, b, q, a - q * b);
  }

  lemma ColorInRange(iters: int, max: int)
    requires max > 0 && 0 <= iters <= max
    ensures 0 <= TruncDiv(MaxColor * iters, max) <= MaxColor
    ensures iters == 0 ==> TruncDiv(MaxColor * iters, max) == 0
    ensures iters == max ==> TruncDiv(MaxColor * iters, max) == MaxColor
  {
    TruncDivNonNeg(MaxColor * iters, max);
    TruncDivNonNeg(MaxColor * max, max);
    DivUnique(MaxColor * max, max, MaxColor, 0);
    DivMonotone(0, MaxColor * iters, max);
    DivMonotone(MaxColor * iters, MaxColor * max, max);
  }

  /** The ramp never darkens as the iteration count grows. */
  lemma ColorMonotone(a: int, b: int, max: int)
    requires max > 0 && 0 <= a <= b
    ensures IterationToColor(a, max) <= IterationToColor(b, max)
  {
    TruncDivNonNeg(MaxColor * a, max);
    TruncDivNonNeg(MaxColor * b, max);
    DivMonotone(MaxColor * a, MaxColor * b, max);
  }

  /** Up to 128 iterations the product stays inside 32 bits, so the source's
      expression and the intended ramp agree. */
  lemma AsWrittenAgreesBelowOverflow(iters: int, max: int)
    requires 0 <= iters <= 128 && 0 < max <= Int32Max
    ensures IterationToColorAsWritten(iters, max) == IterationToColor(iters, max)
  {
    assert 0 <= MaxColor * iters <= MaxColor * 128;
  }

  /** With the default `max` of 1000, a point that never escapes is coloured
      -402654 by the source's expression instead of white (0xFFFFFF). */
  lemma AsWrittenOverflowsAtDefaultMax()
    ensures IterationToColor(1000, 1000) == MaxColor
    ensures IterationToColorAsWritten(1000, 1000) == -402654
  {
    assert Wrap32(MaxColor * 1000) == -402654184;
    var q := TruncDiv(-402654184, 1000);
    assert q * 1000 <= -402654000 + 999 && q * 1000 >= -402654184;
  }
}
