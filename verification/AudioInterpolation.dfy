/** The samples that slowing down puts between two others. */
module AudioInterpolation {
  import opened Integers
  import opened AudioBytes

  /** `getInterpolation`, from + (to - from) * k / factor in 32-bit arithmetic. */
  function Interpolate(from: int, to: int, k: int, factor: int): (x: int)
    requires factor != 0
    ensures -TWO31 <= x < TWO31
  {
    Wrap(from + CDiv(Wrap(Wrap(to - from) * k), factor))
  }

  /** No step of the computation leaves the 32-bit range. */
  predicate NoOverflow(from: int, to: int, k: int) {
    -TWO31 <= to - from < TWO31 && -TWO31 <= (to - from) * k < TWO31
  }

  /** Division rounds toward zero: what is left is smaller than the divisor and has the sign of
      the dividend. */
  lemma CDivIs(a: int, b: int)
    requires b != 0
    ensures a == b * CDiv(a, b) + CMod(a, b)
    ensures if 0 < b then -b < CMod(a, b) < b else b < CMod(a, b) < -b
    ensures (0 <= a ==> 0 <= CMod(a, b)) && (a <= 0 ==> CMod(a, b) <= 0)
  {
    var n, d := if 0 <= a then a else -a, if 0 < b then b else -b;
    assert n == d * (n / d) + n % d;
    assert b * -(n / d) == -(b * (n / d)) && -d * (n / d) == -(d * (n / d));
  }

  lemma DivMonotone(a: int, b: int, factor: int)
    requires a <= b && 0 < factor
    ensures a / factor <= b / factor
  {
    var q, r := a / factor, b / factor;
    assert a == q * factor + a % factor && b == r * factor + b % factor;
    assert r + 1 <= q ==> (r + 1) * factor <= q * factor;
    assert (r + 1) * factor == r * factor + factor;
  }

  lemma DivExact(d: int, factor: int)
    requires 0 < factor
    ensures d * factor / factor == d
  {
    DivModUnique(d * factor, factor, d, 0);
  }

  lemma PartOfPositive(e: int, k: int, l: int, factor: int)
    requires 0 <= k <= l <= factor && 0 < factor && 0 <= e
    ensures 0 <= e * k <= e * l && 0 <= e * k / factor <= e * l / factor <= e
  {
    Times(e, e, k, l);
    Times(e, e, l, factor);
    DivMonotone(0, e * k, factor);
    DivMonotone(e * k, e * l, factor);
    DivMonotone(e * l, e * factor, factor);
    DivExact(e, factor);
    DivExact(0, factor);
  }

  /** The part of a difference d that k of factor steps make up. */
  lemma PartOf(d: int, k: int, l: int, factor: int)
    requires 0 <= k <= l <= factor && 0 < factor
    ensures 0 <= d ==> 0 <= CDiv(d * k, factor) <= CDiv(d * l, factor) <= d
    ensures d <= 0 ==> d <= CDiv(d * l, factor) <= CDiv(d * k, factor) <= 0
  {
    var e := if 0 <= d then d else -d;
    PartOfPositive(e, k, l, factor);
    Divided(d, e, k, factor);
    Divided(d, e, l, factor);
  }

  lemma Divided(d: int, e: int, k: int, factor: int)
    requires 0 <= k && 0 < factor && 0 <= e && (d == e || d == -e)
    ensures CDiv(d * k, factor) == if 0 <= d then e * k / factor else -(e * k / factor)
  {
    Times(e, e, k, k);
    DivExact(0, factor);
    assert d == -e ==> d * k == -(e * k);
  }

  predicate Within(from: int, x: int, y: int, to: int) {
    from <= x <= y <= to || to <= y <= x <= from
  }

  /** Without overflow interpolated samples lie between the two given ones and move from the
      first to the second in order. */
  lemma Interpolates(from: int, to: int, k: int, l: int, factor: int)
    requires -TWO31 <= from < TWO31 && -TWO31 <= to < TWO31
    requires 0 <= k <= l <= factor && 0 < factor && NoOverflow(from, to, k) && NoOverflow(from, to, l)
    ensures Interpolate(from, to, k, factor) == from + CDiv((to - from) * k, factor)
    ensures Within(from, Interpolate(from, to, k, factor), Interpolate(from, to, l, factor), to)
  {
    hide CDiv;
    PartOf(to - from, k, l, factor);
    Unwrapped(to - from);
    Unwrapped((to - from) * k);
    Unwrapped((to - from) * l);
    Unwrapped(from + CDiv((to - from) * k, factor));
    Unwrapped(from + CDiv((to - from) * l, factor));
  }

  lemma Unwrapped(x: int)
    requires -TWO31 <= x < TWO31
    ensures Wrap(x) == x
  {
  }

  ghost predicate Safe(bytes: nat, factor: int) {
    forall from, to, k :: InRange(from, bytes) && InRange(to, bytes) && 1 <= k < factor ==> NoOverflow(from, to, k)
  }

  lemma Times(a: int, b: int, k: int, l: int)
    requires 0 <= a <= b && 0 <= k <= l
    ensures 0 <= a * k <= b * l
  {
    assert a * k <= b * k <= b * l;
  }

  /** Exactly which factors are safe for all samples of a size. */
  lemma SafeExactly(bytes: nat, factor: int)
    requires 1 <= bytes <= 4 && 1 <= factor
    ensures Safe(bytes, factor) <==> (Pow256(bytes) - 1) * (factor - 1) < TWO31
  {
    var p := Pow256(bytes);
    Powers();
    hide Pow256;
    if (p - 1) * (factor - 1) < TWO31 {
      forall from, to, k | InRange(from, bytes) && InRange(to, bytes) && 1 <= k < factor
        ensures NoOverflow(from, to, k)
      {
        var d := if from <= to then to - from else from - to;
        Times(d, p - 1, 1, factor - 1);
        Times(d, p - 1, k, factor - 1);
        assert to < from ==> (to - from) * k == -(d * k);
      }
    } else {
      assert InRange(-(p / 2), bytes) && InRange(p / 2 - 1, bytes) && p / 2 - 1 - -(p / 2) == p - 1;
      assert !NoOverflow(-(p / 2), p / 2 - 1, factor - 1);
    }
  }

  /** For the factors that the program accepts: 8- and 16-bit samples are always safe, 24-bit
      samples up to a factor of 129, and 32-bit samples only if nothing is inserted. */
  lemma SafeFactors(bytes: nat, factor: int)
    requires 1 <= bytes <= 4 && 1 <= factor <= 1024
    ensures Safe(bytes, factor) <==> bytes <= 2 || (bytes == 3 && factor <= 129) || factor == 1
  {
    Powers();
    SafeExactly(bytes, factor);
    var p := Pow256(bytes);
    hide Pow256, Safe;
    if bytes <= 2 {
      Times(p - 1, 65535, factor - 1, 1023);
    } else if bytes == 3 && factor <= 129 {
      Times(p - 1, p - 1, factor - 1, 128);
    } else if bytes == 3 {
      Times(p - 1, p - 1, 129, factor - 1);
    } else if 2 <= factor {
      Times(p - 1, p - 1, 1, factor - 1);
    }
  }

  /** So an interpolated 8- or 16-bit sample is read back as it was written. */
  lemma InterpolatedFits(from: int, to: int, k: int, factor: int, bytes: nat)
    requires 1 <= bytes <= 4 && InRange(from, bytes) && InRange(to, bytes) && 1 <= k < factor && Safe(bytes, factor)
    ensures SampleOf(Encode(Interpolate(from, to, k, factor), bytes)) == Interpolate(from, to, k, factor)
    ensures InRange(Interpolate(from, to, k, factor), bytes)
  {
    Powers();
    hide Pow256, SampleOf, Encode, Interpolate;
    Interpolates(from, to, k, k, factor);
    SafeExactly(bytes, factor);
    Times(Pow256(bytes) - 1, Pow256(bytes) - 1, 1, factor - 1);
    DecodeEncode(Interpolate(from, to, k, factor), bytes);
  }
}
