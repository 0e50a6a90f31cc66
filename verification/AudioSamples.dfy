/** Which sample stands where: in the bytes of frames, and in what the transformations make of
    them.  Positions are parameters, with their values as preconditions.
 */
module AudioSamples {
  import opened Integers
  import opened AudioBytes
  import opened AudioInterpolation
  import opened AudioFrames

  // ----- positions

  lemma OneLess(i: nat, size: nat, p: nat)
    requires 1 <= i && p == i * size
    ensures size <= p && p - size == (i - 1) * size
  {
    assert i * size == (i - 1) * size + size;
  }

  lemma FrameStart(channels: nat, c: nat, bytes: nat, q: nat)
    requires q == (0 * channels + c) * bytes
    ensures q == c * bytes
  {
  }

  lemma FrameNext(i: nat, channels: nat, c: nat, bytes: nat, q: nat)
    requires 1 <= i && q == (i * channels + c) * bytes
    ensures channels * bytes <= q && q - channels * bytes == ((i - 1) * channels + c) * bytes
  {
    var a := (i - 1) * channels + c;
    assert i * channels == (i - 1) * channels + channels;
    assert (a + channels) * bytes == a * bytes + channels * bytes;
  }

  // ----- bytes

  lemma {:induction false} SamplesAt(s: seq<Byte>, bytes: nat, n: nat, c: nat, q: nat)
    requires c < n && q == c * bytes
    ensures Samples(s, bytes, n)[c] == SampleAt(Rest(s, q), bytes)
    decreases n
  {
    hide SampleAt, Rest;
    if c == 0 {
      RestNone(s);
    } else {
      OneLess(c, bytes, q);
      SamplesAt(Rest(s, bytes), bytes, n - 1, c - 1, q - bytes);
      RestTwice(s, bytes, q - bytes);
    }
  }

  /** Sample c of frame i is the sample number i * channels + c of the input. */
  lemma {:induction false} FramesAt(s: seq<Byte>, channels: nat, bytes: nat, n: nat, i: nat, c: nat, q: nat)
    requires i < n && c < channels && q == (i * channels + c) * bytes
    ensures Frames(s, channels, bytes, n)[i][c] == SampleAt(Rest(s, q), bytes)
    decreases n
  {
    hide SampleAt, Samples, Rest;
    if i == 0 {
      FrameStart(channels, c, bytes, q);
      SamplesAt(s, bytes, channels, c, q);
    } else {
      var size := channels * bytes;
      FrameNext(i, channels, c, bytes, q);
      FramesAt(Rest(s, size), channels, bytes, n - 1, i - 1, c, q - size);
      RestTwice(s, size, q - size);
    }
  }

  /** The bytes t stand from position p on. */
  ghost predicate BytesAt(s: seq<Byte>, p: nat, t: seq<Byte>) {
    p + |t| <= |s| && s[p..p + |t|] == t
  }

  lemma Shifted(head: seq<Byte>, s: seq<Byte>, p: nat, t: seq<Byte>)
    requires BytesAt(s, p, t)
    ensures BytesAt(head + s, |head| + p, t)
  {
    var all := head + s;
    assert all[|head| + p..|head| + p + |t|] == s[p..p + |t|];
  }

  lemma Joined(s: seq<Byte>, tail: seq<Byte>, p: nat, t: seq<Byte>)
    requires BytesAt(s, p, t)
    ensures BytesAt(s + tail, p, t)
  {
  }

  lemma AtFront(s: seq<Byte>)
    ensures BytesAt(s, 0, s)
  {
    assert s[0..|s|] == s;
  }

  lemma {:induction false} SampleBytesAt(fr: Frame, bytes: nat, c: nat, q: nat)
    requires c < |fr| && q == c * bytes
    ensures BytesAt(SampleBytes(fr, bytes), q, Encode(fr[c], bytes))
    decreases |fr|
  {
    hide Encode, BytesAt;
    var head, rest := Encode(fr[0], bytes), SampleBytes(fr[1..], bytes);
    if c == 0 {
      AtFront(head);
      Joined(head, rest, 0, head);
    } else {
      OneLess(c, bytes, q);
      SampleBytesAt(fr[1..], bytes, c - 1, q - bytes);
      Shifted(head, rest, q - bytes, Encode(fr[c], bytes));
    }
  }

  /** The bytes of sample c of frame i stand where they are read from. */
  lemma {:induction false} FrameBytesAt(frs: seq<Frame>, channels: nat, bytes: nat, i: nat, c: nat, q: nat)
    requires Shaped(frs, channels) && i < |frs| && c < channels && q == (i * channels + c) * bytes
    ensures BytesAt(FrameBytes(frs, bytes), q, Encode(frs[i][c], bytes))
    decreases |frs|
  {
    hide Encode, SampleBytes, BytesAt;
    var t := Encode(frs[i][c], bytes);
    var head, rest := SampleBytes(frs[0], bytes), FrameBytes(frs[1..], bytes);
    if i == 0 {
      FrameStart(channels, c, bytes, q);
      SampleBytesAt(frs[0], bytes, c, q);
      Joined(head, rest, q, t);
    } else {
      SampleBytesLength(frs[0], bytes);
      FrameNext(i, channels, c, bytes, q);
      FrameBytesAt(frs[1..], channels, bytes, i - 1, c, q - channels * bytes);
      Shifted(head, rest, q - channels * bytes, t);
    }
  }

  // ----- speeding up

  /** Speeding up keeps the frames whose numbers are multiples of the factor, in order. */
  lemma {:induction false} SpedAt(frs: seq<Frame>, first: nat, factor: nat, m: nat, p: nat)
    requires 1 <= factor && p == m * factor && p < |frs|
    ensures m < |Sped(frs, first * factor, factor)| && Sped(frs, first * factor, factor)[m] == frs[p]
    decreases |frs|
  {
    hide Sped;
    if |frs| <= factor {
      if 1 <= m {
        OneLess(m, factor, p);
      }
      SpedChunk(frs, first, factor);
    } else {
      var chunk, rest := frs[..factor], frs[factor..];
      assert chunk + rest == frs;
      SpedChunk(chunk, first, factor);
      SpedJoin(chunk, rest, first * factor, factor);
      OneLess(first + 1, factor, (first + 1) * factor);
      if m != 0 {
        OneLess(m, factor, p);
        SpedAt(rest, first + 1, factor, m - 1, p - factor);
      }
    }
  }

  // ----- slowing down

  lemma {:induction false} InsertedAt(from: Frame, to: Frame, first: nat, factor: nat, k: nat)
    requires |from| == |to| && first <= k < factor
    ensures Inserted(from, to, first, factor)[k - first] == Mix(from, to, k, factor)
    decreases factor - first
  {
    hide Mix;
    if first < k {
      InsertedAt(from, to, first + 1, factor, k);
    }
  }

  /** Frame m of the input, or the k-th interpolation between it and the next one. */
  function Wanted(all: seq<Frame>, channels: nat, m: nat, k: nat, factor: nat): Frame
    requires Shaped(all, channels) && m + 1 < |all| && 1 <= factor
  {
    if k == 0 then all[m] else Mix(all[m], all[m + 1], k, factor)
  }

  /** Slowing down writes frame m of the input as frame m * factor, and k frames later the k-th
      interpolation between it and the next one. */
  lemma {:induction false} SlowedAt(from: Frame, frs: seq<Frame>, factor: nat, m: nat, k: nat, p: nat)
    requires Shaped(frs, |from|) && 1 <= factor && k < factor && m < |frs| && p == m * factor
    ensures p + k < |SlowedFrom(from, frs, factor)|
    ensures SlowedFrom(from, frs, factor)[p + k] == Wanted([from] + frs, |from|, m, k, factor)
    decreases |frs|
  {
    hide Mix, Inserted;
    var chunk := [from] + Inserted(from, frs[0], 1, factor);
    var rest := SlowedFrom(frs[0], frs[1..], factor);
    assert SlowedFrom(from, frs, factor) == chunk + rest && |chunk| == factor;
    if m == 0 {
      if k != 0 {
        InsertedAt(from, frs[0], 1, factor, k);
      }
    } else {
      OneLess(m, factor, p);
      SlowedAt(frs[0], frs[1..], factor, m - 1, k, p - factor);
      assert [frs[0]] + frs[1..] == frs;
    }
  }

  /** The last frame of the input is the last one written. */
  lemma {:induction false} SlowedLast(from: Frame, frs: seq<Frame>, factor: nat, p: nat)
    requires Shaped(frs, |from|) && 1 <= factor && p == |frs| * factor
    ensures |SlowedFrom(from, frs, factor)| == p + 1
    ensures SlowedFrom(from, frs, factor)[p] == ([from] + frs)[|frs|]
    decreases |frs|
  {
    hide Mix, Inserted;
    if frs != [] {
      OneLess(|frs|, factor, p);
      SlowedLast(frs[0], frs[1..], factor, p - factor);
      var chunk := [from] + Inserted(from, frs[0], 1, factor);
      assert SlowedFrom(from, frs, factor) == chunk + SlowedFrom(frs[0], frs[1..], factor) && |chunk| == factor;
    }
  }

  /** The samples that slowing down writes. */
  lemma SlowedSamples(frs: seq<Frame>, channels: nat, factor: nat, m: nat, k: nat, c: nat, p: nat)
    requires Shaped(frs, channels) && 1 <= factor && k < factor && m + 1 < |frs| && c < channels && p == m * factor
    ensures p + k < |Slowed(frs, channels, factor)|
    ensures Slowed(frs, channels, factor)[p + k][c] ==
            if k == 0 then frs[m][c] else Interpolate(frs[m][c], frs[m + 1][c], k, factor)
  {
    hide Interpolate, SlowedFrom;
    SlowedAt(frs[0], frs[1..], factor, m, k, p);
    assert [frs[0]] + frs[1..] == frs;
  }

  /** Without overflow they are S + (T - S) * k / N, lie between the two given ones, and move
      from the first to the second. */
  lemma SlowedBetween(frs: seq<Frame>, channels: nat, factor: nat, m: nat, j: nat, k: nat, c: nat, p: nat)
    requires Shaped(frs, channels) && 1 <= factor && j <= k < factor && m + 1 < |frs| && c < channels && p == m * factor
    requires -TWO31 <= frs[m][c] < TWO31 && -TWO31 <= frs[m + 1][c] < TWO31
    requires NoOverflow(frs[m][c], frs[m + 1][c], k)
    ensures p + k < |Slowed(frs, channels, factor)|
    ensures Slowed(frs, channels, factor)[p + k][c] == frs[m][c] + CDiv((frs[m + 1][c] - frs[m][c]) * k, factor)
    ensures Within(frs[m][c], Slowed(frs, channels, factor)[p + j][c], Slowed(frs, channels, factor)[p + k][c],
                   frs[m + 1][c])
  {
    hide Interpolate, CDiv, Slowed, Within, NoOverflow;
    var a, b := frs[m][c], frs[m + 1][c];
    SlowedSamples(frs, channels, factor, m, k, c, p);
    SlowedSamples(frs, channels, factor, m, j, c, p);
    FirstPart(a, b, factor);
    LessOverflow(a, b, j, k);
    Interpolates(a, b, j, k, factor);
    Interpolates(a, b, k, k, factor);
  }

  /** Nothing is inserted at step 0. */
  lemma FirstPart(a: int, b: int, factor: int)
    requires -TWO31 <= a < TWO31 && -TWO31 <= b < TWO31 && 1 <= factor
    ensures CDiv((b - a) * 0, factor) == 0 && Interpolate(a, b, 0, factor) == a
  {
    DivExact(0, factor);
    Unwrapped(0);
    Unwrapped(a);
  }

  lemma LessOverflow(a: int, b: int, j: nat, k: nat)
    requires j <= k && NoOverflow(a, b, k)
    ensures NoOverflow(a, b, j)
  {
    var d := if a <= b then b - a else a - b;
    Times(d, d, j, k);
    assert b < a ==> (b - a) * j == -(d * j) && (b - a) * k == -(d * k);
  }

  // ----- encryption

  lemma {:induction false} XorFrameAt(fr: Frame, next: nat, c: nat)
    requires c < |fr|
    ensures XorFrame(fr, next)[c] == XorInt(fr[c], KeyWord(AfterDraws(next, 4 * c)))
    decreases |fr|
  {
    hide XorInt, KeyWord, AfterDraws;
    if c == 0 {
      NoDraws(next);
    } else {
      XorFrameAt(fr[1..], AfterDraws(next, 4), c - 1);
      DrawsSplit(next, 4, 4 * (c - 1));
    }
  }

  /** Sample c of frame i is combined with the key word after 4 * (i * channels + c) draws. */
  lemma {:induction false} CryptedAt(frs: seq<Frame>, channels: nat, next: nat, i: nat, c: nat, p: nat)
    requires Shaped(frs, channels) && i < |frs| && c < channels && p == i * channels + c
    ensures Crypted(frs, next)[i][c] == XorInt(frs[i][c], KeyWord(AfterDraws(next, 4 * p)))
    decreases |frs|
  {
    hide XorInt, KeyWord, AfterDraws, XorFrame;
    if i == 0 {
      XorFrameAt(frs[0], next, c);
    } else {
      OneLess(i, channels, p - c);
      CryptedAt(frs[1..], channels, AfterDraws(next, 4 * channels), i - 1, c, p - channels);
      DrawsSplit(next, 4 * channels, 4 * (p - channels));
    }
  }
}
