/** The sizes that recoding announces, through the 32-bit arithmetic of the program. */
module AudioSizes {
  import opened Integers
  import opened AudioBytes
  import opened AudioInterpolation
  import opened AudioFile

  predicate FrameSizeOk(frameSize: int) {
    1 <= frameSize <= 8
  }

  /** The number of frames that a reader of the slowed file counts. */
  function CountAgain(frames: int, factor: int, frameSize: int): int
    requires 0 < frameSize && factor != 0
  {
    Count(Seen(NewSize(SlowDown, factor, frames, frameSize, 0)), frameSize)
  }

  /** The size announced when that file is sped up. */
  function FinalSize(frames: int, factor: int, frameSize: int): int
    requires 0 < frameSize && factor != 0
  {
    NewSize(SpeedUp, factor, CountAgain(frames, factor, frameSize), frameSize, 0)
  }

  lemma Modulo(x: int, q: int, r: int)
    requires x == q * TWO32 + r && 0 <= r < TWO32
    ensures x % TWO32 == r
  {
  }

  lemma SlowSizeIs(frames: int, factor: int, frameSize: int)
    requires factor != 0
    ensures NewSize(SlowDown, factor, frames, frameSize, 0) == ((factor * (frames - 1) + 1) * frameSize) % TWO32
  {
    assert frames + (factor - 1) * (frames - 1) == factor * (frames - 1) + 1;
  }

  lemma CountOf(n: int, frameSize: int)
    requires FrameSizeOk(frameSize) && 0 <= n && n * frameSize < TWO31
    ensures n < TWO31 && Seen(n * frameSize % TWO32) == n * frameSize && Count(n * frameSize, frameSize) == n
  {
    Times(n, n, 1, frameSize);
    DivExact(n, frameSize);
    Modulo(n * frameSize, 0, n * frameSize);
    Unwrapped(n);
  }

  /** One frame or more, and a factor that getFactor gets right. */
  lemma SizeRegular(frames: int, factor: int, frameSize: int)
    requires FrameSizeOk(frameSize) && 1 <= frames && 1 <= factor && (factor * (frames - 1) + 1) * frameSize < TWO31
    ensures CountAgain(frames, factor, frameSize) == factor * (frames - 1) + 1
    ensures FinalSize(frames, factor, frameSize) == frames * frameSize <==> 2 <= factor
    ensures NewSize(SlowDown, factor, frames, frameSize, 0) == (factor * (frames - 1) + 1) * frameSize
  {
    var total := factor * (frames - 1) + 1;
    Times(1, factor, frames - 1, frames - 1);
    Times(frames, total, frameSize, frameSize);
    SlowSizeIs(frames, factor, frameSize);
    CountOf(total, frameSize);
    hide Count, Seen;
    if 2 <= factor {
      DivModUnique(total, factor, frames - 1, 1);
      Modulo(frames * frameSize, 0, frames * frameSize);
    } else {
      DivExact(total, 1);
      assert (total + 1) * frameSize == frames * frameSize + frameSize;
      Modulo((total + 1) * frameSize, 0, frames * frameSize + frameSize);
    }
  }

  lemma Quotient(c: int, factor: int)
    requires 0 <= c && 2 <= factor
    ensures 0 <= 2 * (c / factor) <= c
  {
    DivMonotone(0, c, factor);
    DivExact(0, factor);
    Times(c / factor, c / factor, 2, factor);
    assert c == c / factor * factor + c % factor;
  }

  /** The size announced for c frames is not 0. */
  lemma NotZero(c: int, factor: int, frameSize: int)
    requires FrameSizeOk(frameSize) && 1 <= factor
    requires -factor < c && c < TWO31 && c * frameSize < TWO32 && (factor == 1 ==> c == 0)
    ensures NewSize(SpeedUp, factor, c, frameSize, 0) != 0
  {
    if c < 0 {
      DivModUnique(-c, factor, 0, -c);
      Modulo(frameSize, 0, frameSize);
    } else if c == 0 {
      DivExact(0, factor);
      Modulo(frameSize, 0, frameSize);
    } else {
      Quotient(c, factor);
      var q := c / factor;
      Times(2 * q, c, frameSize, frameSize);
      assert 2 * q * frameSize == 2 * (q * frameSize);
      assert (q + 1) * frameSize == q * frameSize + frameSize;
      Modulo((q + 1) * frameSize, 0, q * frameSize + frameSize);
    }
  }

  /** No frame: the size announced first is negative, and what follows is never 0 again. */
  lemma SizeOfNothing(factor: int, frameSize: int)
    requires FrameSizeOk(frameSize) && 1 <= factor <= 512
    ensures FinalSize(0, factor, frameSize) != 0
    ensures NewSize(SlowDown, factor, 0, frameSize, 0) == 0 <==> factor == 1
  {
    hide Count, CDiv;
    SlowSizeIs(0, factor, frameSize);
    var less := (factor - 1) * frameSize;
    assert (factor * (0 - 1) + 1) * frameSize == -less;
    CountOf(0, frameSize);
    Times(factor - 1, 511, frameSize, 8);
    if 2 <= factor {
      Times(1, factor - 1, frameSize, frameSize);
      Modulo(-less, -1, TWO32 - less);
      CountBelow(factor, frameSize, TWO32 - less);
    }
    NotZero(CountAgain(0, factor, frameSize), factor, frameSize);
  }

  lemma CountBelow(factor: int, frameSize: int, size: int)
    requires FrameSizeOk(frameSize) && 2 <= factor <= 512 && size == TWO32 - (factor - 1) * frameSize
    requires 0 <= size < TWO32
    ensures var c := Count(size, frameSize); -factor < c < TWO31 && c * frameSize < TWO32
  {
    if frameSize == 1 {
      Minus(factor - 1);
    } else {
      Half(size, frameSize);
      assert size == size / frameSize * frameSize + size % frameSize;
    }
  }

  lemma Minus(less: int)
    requires 0 <= less < TWO31
    ensures Count(TWO32 - less, 1) == -less
  {
  }

  lemma Half(size: int, frameSize: int)
    requires 0 <= size < TWO32 && 2 <= frameSize <= 8
    ensures Count(size, frameSize) == size / frameSize && 0 <= size / frameSize < TWO31
  {
    Quotient(size, frameSize);
    Unwrapped(size / frameSize);
  }

  lemma SizeOfFew(frames: int, frameSize: int)
    requires FrameSizeOk(frameSize) && 0 <= frames <= 2
    ensures FinalSize(frames, -1, frameSize) != frames * frameSize
    ensures NewSize(SlowDown, -1, frames, frameSize, 0) == frames * frameSize <==> frames == 1
  {
    SlowSizeIs(frames, -1, frameSize);
    assert -1 * (frames - 1) + 1 == 2 - frames;
    CountOf(2 - frames, frameSize);
    assert CountAgain(frames, -1, frameSize) == 2 - frames;
    hide Count, Seen;
    assert CDiv(2 - frames, -1) + 1 == frames - 1;
  }

  lemma SizeOfMany(frames: int, frameSize: int)
    requires FrameSizeOk(frameSize) && 3 <= frames && frames * frameSize < TWO31
    ensures FinalSize(frames, -1, frameSize) != frames * frameSize
    ensures NewSize(SlowDown, -1, frames, frameSize, 0) > frames * frameSize
  {
    SlowSizeIs(frames, -1, frameSize);
    assert -1 * (frames - 1) + 1 == 2 - frames;
    var more := (frames - 2) * frameSize;
    assert more == frames * frameSize - 2 * frameSize && (2 - frames) * frameSize == -more;
    Times(1, frames - 2, frameSize, frameSize);
    Modulo(-more, -1, TWO32 - more);
    if more == 1 {
      CountOf(0, frameSize);
      assert FinalSize(frames, -1, frameSize) == frameSize;
    } else {
      hide Count;
      BackAgain(frames, frameSize, TWO32 - more);
    }
  }

  /** With -1 for a factor. */
  lemma SizeIrregular(frames: int, frameSize: int)
    requires FrameSizeOk(frameSize) && 0 <= frames && frames * frameSize < TWO31
    ensures FinalSize(frames, -1, frameSize) != frames * frameSize
    ensures NewSize(SlowDown, -1, frames, frameSize, 0) == frames * frameSize <==> frames == 1
  {
    if frames <= 2 {
      SizeOfFew(frames, frameSize);
    } else {
      SizeOfMany(frames, frameSize);
    }
  }

  lemma BackAgain(frames: int, frameSize: int, size: int)
    requires FrameSizeOk(frameSize) && 3 <= frames && frames * frameSize < TWO31
    requires size == TWO32 - (frames - 2) * frameSize && 0 <= size < TWO32
    ensures NewSize(SpeedUp, -1, Count(size, frameSize), frameSize, 0) != frames * frameSize
  {
    var q, r := TWO32 / frameSize, TWO32 % frameSize;
    assert TWO32 == q * frameSize + r;
    var c := q - (frames - 2);
    assert c * frameSize == q * frameSize - (frames - 2) * frameSize;
    DivModUnique(size, frameSize, c, r);
    Times(frames, frames, 1, frameSize);
    if frameSize == 1 {
      Minus(frames - 2);
    } else {
      Half(size, frameSize);
    }
    var d := Count(size, frameSize);
    assert d * frameSize == size - r || frameSize == 1;
    Backwards(frames, frameSize, d, r, if frameSize == 1 then 0 else -1);
  }

  lemma Backwards(frames: int, frameSize: int, d: int, r: int, k: int)
    requires FrameSizeOk(frameSize) && 0 <= r < frameSize && 3 <= frames && frames * frameSize < TWO31
    requires d * frameSize == -k * TWO32 - (frames - 2) * frameSize - r
    ensures NewSize(SpeedUp, -1, d, frameSize, 0) != frames * frameSize
  {
    assert CDiv(d, -1) + 1 == 1 - d;
    assert (1 - d) * frameSize == frameSize - d * frameSize;
    assert (frames - 2) * frameSize == frames * frameSize - 2 * frameSize;
    Times(3, frames, frameSize, frameSize);
    Modulo((1 - d) * frameSize, k, frames * frameSize - frameSize + r);
  }

  // ----- speeding up

  lemma CeilingIs(n: int, factor: int)
    requires 0 <= n && 1 <= factor
    ensures (n + factor - 1) / factor == if n % factor == 0 then n / factor else n / factor + 1
  {
    var q, r := n / factor, n % factor;
    assert n == q * factor + r;
    if r == 0 {
      DivModUnique(n + factor - 1, factor, q, factor - 1);
    } else {
      assert n + factor - 1 == (q + 1) * factor + (r - 1);
      DivModUnique(n + factor - 1, factor, q + 1, r - 1);
    }
  }

  lemma NotMore(n: int, factor: int)
    requires 0 <= n && 1 <= factor
    ensures 0 <= n / factor <= n
  {
    DivMonotone(0, n, factor);
    DivExact(0, factor);
    Times(n / factor, n / factor, 1, factor);
    assert n == n / factor * factor + n % factor;
  }

  lemma SpedSizeRegular(frames: int, factor: int, frameSize: int)
    requires FrameSizeOk(frameSize) && 0 <= frames && frames * frameSize < TWO31 && 1 <= factor
    ensures NewSize(SpeedUp, factor, frames, frameSize, 0) ==
            (frames + factor - 1) / factor * frameSize + (if frames % factor == 0 then frameSize else 0)
  {
    CeilingIs(frames, factor);
    var q := frames / factor;
    NotMore(frames, factor);
    Times(q, frames, frameSize, frameSize);
    assert (q + 1) * frameSize == q * frameSize + frameSize;
    Modulo((q + 1) * frameSize, 0, (q + 1) * frameSize);
    assert CDiv(frames, factor) == q;
  }

  lemma SpedSizeIrregular(frames: int, frameSize: int)
    requires FrameSizeOk(frameSize) && 0 <= frames && frames * frameSize < TWO31
    ensures NewSize(SpeedUp, -1, frames, frameSize, 0) != frames * frameSize
  {
    assert CDiv(frames, -1) + 1 == 1 - frames;
    assert (1 - frames) * frameSize == frameSize - frames * frameSize;
    if frames <= 1 {
      Modulo((1 - frames) * frameSize, 0, (1 - frames) * frameSize);
    } else {
      Times(2, frames, frameSize, frameSize);
      Modulo((1 - frames) * frameSize, -1, TWO32 + frameSize - frames * frameSize);
    }
  }
}
