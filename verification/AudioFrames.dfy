/** Frames of samples: how they are read and written, and what the three transformations
    make of a sequence of them.
 */
module AudioFrames {
  import opened AudioBytes
  import opened AudioInterpolation

  type Frame = seq<int>

  // ----- reading

  /** What is left of the input after n bytes were asked for. */
  function Rest(s: seq<Byte>, n: nat): seq<Byte> {
    if |s| < n then [] else s[n..]
  }

  /** A sample; 0 when the input ends before it does. */
  function SampleAt(s: seq<Byte>, bytes: nat): int {
    if |s| < bytes then 0 else SampleOf(s[..bytes])
  }

  function Samples(s: seq<Byte>, bytes: nat, n: nat): (fr: Frame)
    ensures |fr| == n
    decreases n
  {
    if n == 0 then [] else [SampleAt(s, bytes)] + Samples(Rest(s, bytes), bytes, n - 1)
  }

  /** `read_frame`, n times. */
  function Frames(s: seq<Byte>, channels: nat, bytes: nat, n: nat): (frs: seq<Frame>)
    ensures |frs| == n && Shaped(frs, channels)
    decreases n
  {
    if n == 0 then [] else [Samples(s, bytes, channels)] + Frames(Rest(s, channels * bytes), channels, bytes, n - 1)
  }

  predicate Shaped(frs: seq<Frame>, channels: nat) {
    forall i :: 0 <= i < |frs| ==> |frs[i]| == channels
  }

  // ----- writing

  function SampleBytes(fr: Frame, bytes: nat): seq<Byte> {
    if fr == [] then [] else Encode(fr[0], bytes) + SampleBytes(fr[1..], bytes)
  }

  function FrameBytes(frs: seq<Frame>, bytes: nat): seq<Byte> {
    if frs == [] then [] else SampleBytes(frs[0], bytes) + FrameBytes(frs[1..], bytes)
  }

  lemma {:induction false} SampleBytesLength(fr: Frame, bytes: nat)
    ensures |SampleBytes(fr, bytes)| == |fr| * bytes
  {
    if fr != [] {
      SampleBytesLength(fr[1..], bytes);
      assert |fr| * bytes == bytes + (|fr| - 1) * bytes;
    }
  }

  lemma {:induction false} FrameBytesLength(frs: seq<Frame>, channels: nat, bytes: nat)
    requires Shaped(frs, channels)
    ensures |FrameBytes(frs, bytes)| == |frs| * (channels * bytes)
  {
    if frs != [] {
      SampleBytesLength(frs[0], bytes);
      FrameBytesLength(frs[1..], channels, bytes);
      assert |frs| * (channels * bytes) == channels * bytes + (|frs| - 1) * (channels * bytes);
    }
  }

  lemma Associates<T>(a: seq<T>, b: seq<T>, c: seq<T>)
    ensures a + (b + c) == a + b + c
  {
  }

  lemma Uncons<T>(a: seq<T>, b: seq<T>)
    requires a != []
    ensures (a + b)[0] == a[0] && (a + b)[1..] == a[1..] + b
  {
  }

  lemma {:induction false} SampleBytesJoin(a: Frame, b: Frame, bytes: nat)
    ensures SampleBytes(a + b, bytes) == SampleBytes(a, bytes) + SampleBytes(b, bytes)
  {
    hide Encode;
    if a == [] {
      assert a + b == b;
    } else {
      SampleBytesJoin(a[1..], b, bytes);
      Uncons(a, b);
      Associates(Encode(a[0], bytes), SampleBytes(a[1..], bytes), SampleBytes(b, bytes));
    }
  }

  lemma {:induction false} FrameBytesJoin(a: seq<Frame>, b: seq<Frame>, bytes: nat)
    ensures FrameBytes(a + b, bytes) == FrameBytes(a, bytes) + FrameBytes(b, bytes)
  {
    hide SampleBytes;
    if a == [] {
      assert a + b == b;
    } else {
      FrameBytesJoin(a[1..], b, bytes);
      Uncons(a, b);
      Associates(SampleBytes(a[0], bytes), FrameBytes(a[1..], bytes), FrameBytes(b, bytes));
    }
  }

  // ----- writing, then reading

  /** What a frame has become when it was written and is read. */
  function Reread(fr: Frame, bytes: nat): (r: Frame)
    ensures |r| == |fr|
  {
    if fr == [] then [] else [SampleOf(Encode(fr[0], bytes))] + Reread(fr[1..], bytes)
  }

  function RereadAll(frs: seq<Frame>, bytes: nat): (r: seq<Frame>)
    ensures |r| == |frs|
  {
    if frs == [] then [] else [Reread(frs[0], bytes)] + RereadAll(frs[1..], bytes)
  }

  lemma {:induction false} SamplesOfBytes(fr: Frame, bytes: nat, tail: seq<Byte>)
    ensures Samples(SampleBytes(fr, bytes) + tail, bytes, |fr|) == Reread(fr, bytes)
  {
    if fr != [] {
      var s := SampleBytes(fr, bytes) + tail;
      var head := Encode(fr[0], bytes);
      assert s[..bytes] == head;
      assert s[bytes..] == SampleBytes(fr[1..], bytes) + tail;
      SamplesOfBytes(fr[1..], bytes, tail);
    }
  }

  lemma {:induction false} FramesOfBytes(frs: seq<Frame>, channels: nat, bytes: nat, tail: seq<Byte>)
    requires Shaped(frs, channels)
    ensures Frames(FrameBytes(frs, bytes) + tail, channels, bytes, |frs|) == RereadAll(frs, bytes)
  {
    if frs != [] {
      var s := FrameBytes(frs, bytes) + tail;
      var head := SampleBytes(frs[0], bytes);
      var left := FrameBytes(frs[1..], bytes) + tail;
      assert s == head + left;
      SampleBytesLength(frs[0], bytes);
      SamplesOfBytes(frs[0], bytes, left);
      assert s[channels * bytes..] == left;
      FramesOfBytes(frs[1..], channels, bytes, tail);
    }
  }

  /** The samples that reading can yield. */
  ghost predicate ReadSample(x: int, bytes: nat) {
    InRange(x, bytes) && !(bytes == 4 && x == -1)
  }

  ghost predicate ReadFrames(frs: seq<Frame>, bytes: nat) {
    forall i, c :: 0 <= i < |frs| && 0 <= c < |frs[i]| ==> ReadSample(frs[i][c], bytes)
  }

  lemma {:induction false} SamplesAreRead(s: seq<Byte>, bytes: nat, n: nat)
    requires 1 <= bytes <= 4
    ensures forall c :: 0 <= c < n ==> ReadSample(Samples(s, bytes, n)[c], bytes)
    decreases n
  {
    if n != 0 {
      Powers();
      if bytes <= |s| {
        SampleIs(s[..bytes]);
      }
      SamplesAreRead(Rest(s, bytes), bytes, n - 1);
    }
  }

  lemma {:induction false} FramesAreRead(s: seq<Byte>, channels: nat, bytes: nat, n: nat)
    requires 1 <= bytes <= 4
    ensures ReadFrames(Frames(s, channels, bytes, n), bytes)
    decreases n
  {
    if n != 0 {
      SamplesAreRead(s, bytes, channels);
      FramesAreRead(Rest(s, channels * bytes), channels, bytes, n - 1);
    }
  }

  lemma {:induction false} RereadSame(fr: Frame, bytes: nat)
    requires 1 <= bytes <= 4 && forall c :: 0 <= c < |fr| ==> ReadSample(fr[c], bytes)
    ensures Reread(fr, bytes) == fr
  {
    if fr != [] {
      DecodeEncode(fr[0], bytes);
      RereadSame(fr[1..], bytes);
    }
  }

  lemma {:induction false} RereadAllSame(frs: seq<Frame>, bytes: nat)
    requires 1 <= bytes <= 4 && ReadFrames(frs, bytes)
    ensures RereadAll(frs, bytes) == frs
  {
    if frs != [] {
      RereadSame(frs[0], bytes);
      RereadAllSame(frs[1..], bytes);
    }
  }

  // ----- reading, then writing

  /** The first n samples of four bytes contain none of which all bits are ones. */
  predicate NoOnes(s: seq<Byte>, n: nat)
    decreases n
  {
    n == 0 || (|s| >= 4 && s[..4] != ONES && NoOnes(s[4..], n - 1))
  }

  lemma RestTwice(s: seq<Byte>, a: nat, b: nat)
    ensures Rest(Rest(s, a), b) == Rest(s, a + b)
  {
  }

  lemma {:induction false} SamplesJoin(s: seq<Byte>, bytes: nat, a: nat, b: nat)
    ensures Samples(s, bytes, a + b) == Samples(s, bytes, a) + Samples(Rest(s, a * bytes), bytes, b)
    decreases a
  {
    hide SampleAt, Rest;
    if a == 0 {
      RestNone(s);
      assert a * bytes == 0;
    } else {
      var left := Rest(s, bytes);
      SamplesJoin(left, bytes, a - 1, b);
      RestTwice(s, bytes, (a - 1) * bytes);
      assert bytes + (a - 1) * bytes == a * bytes;
      assert Samples(s, bytes, a + b) == [SampleAt(s, bytes)] + Samples(left, bytes, a - 1 + b);
      assert Samples(s, bytes, a) == [SampleAt(s, bytes)] + Samples(left, bytes, a - 1);
    }
  }

  lemma RestNone(s: seq<Byte>)
    ensures Rest(s, 0) == s
  {
  }

  /** The bytes of frames are those of their samples in a row. */
  lemma {:induction false} Flattened(s: seq<Byte>, channels: nat, bytes: nat, n: nat)
    ensures FrameBytes(Frames(s, channels, bytes, n), bytes) == SampleBytes(Samples(s, bytes, channels * n), bytes)
    decreases n
  {
    if n != 0 {
      var left := Rest(s, channels * bytes);
      Flattened(left, channels, bytes, n - 1);
      assert channels * n == channels + channels * (n - 1);
      SamplesJoin(s, bytes, channels, channels * (n - 1));
      SampleBytesJoin(Samples(s, bytes, channels), Samples(left, bytes, channels * (n - 1)), bytes);
      assert Frames(s, channels, bytes, n)[1..] == Frames(left, channels, bytes, n - 1);
    }
  }

  /** Samples that are read and written are the bytes they were read from, if and only if
      none of them is 32 bits of ones. */
  lemma {:induction false} SamplesKept(s: seq<Byte>, bytes: nat, n: nat)
    requires 1 <= bytes <= 4 && |s| == n * bytes
    ensures SampleBytes(Samples(s, bytes, n), bytes) == s <==> bytes < 4 || NoOnes(s, n)
    decreases n
  {
    if n != 0 {
      assert n * bytes == bytes + (n - 1) * bytes;
      var head, left := s[..bytes], s[bytes..];
      assert s == head + left;
      SamplesKept(left, bytes, n - 1);
      EncodeDecode(head);
      var fr := Samples(s, bytes, n);
      assert fr[1..] == Samples(left, bytes, n - 1);
      var back := SampleBytes(fr, bytes);
      assert back[..bytes] == Encode(fr[0], bytes) && back[bytes..] == SampleBytes(fr[1..], bytes);
    }
  }

  lemma Rearranged(a: nat, b: nat, c: nat)
    ensures a * b * c == b * (a * c)
  {
    assert a * b * c == b * a * c;
  }

  /** The same for frames. */
  lemma FramesKept(s: seq<Byte>, channels: nat, bytes: nat, n: nat)
    requires 1 <= bytes <= 4
    ensures |FrameBytes(Frames(s, channels, bytes, n), bytes)| == n * (channels * bytes)
    ensures FrameBytes(Frames(s, channels, bytes, n), bytes) == s <==>
            |s| == n * (channels * bytes) && (bytes < 4 || NoOnes(s, |s| / 4))
  {
    hide Frames, FrameBytes, Samples, SampleBytes, NoOnes;
    FrameBytesLength(Frames(s, channels, bytes, n), channels, bytes);
    if |s| == n * (channels * bytes) {
      Rearranged(channels, n, bytes);
      var m := channels * n;
      Flattened(s, channels, bytes, n);
      SamplesKept(s, bytes, m);
      assert bytes == 4 ==> |s| / 4 == m;
    }
  }

  // ----- slowing down

  function Mix(from: Frame, to: Frame, k: int, factor: int): (fr: Frame)
    requires |from| == |to| && factor != 0
    ensures |fr| == |from|
  {
    seq(|from|, c requires 0 <= c < |from| => Interpolate(from[c], to[c], k, factor))
  }

  /** The frames inserted between from and to, from the k-th on. */
  function Inserted(from: Frame, to: Frame, k: int, factor: int): (frs: seq<Frame>)
    requires |from| == |to| && factor != 0
    ensures |frs| == if k < factor then factor - k else 0
    ensures Shaped(frs, |from|)
    decreases factor - k
  {
    if factor <= k then [] else [Mix(from, to, k, factor)] + Inserted(from, to, k + 1, factor)
  }

  /** from and what comes of the frames after it. */
  function SlowedFrom(from: Frame, frs: seq<Frame>, factor: int): (r: seq<Frame>)
    requires Shaped(frs, |from|) && factor != 0
    ensures Shaped(r, |from|)
    decreases |frs|
  {
    if frs == [] then [from] else [from] + Inserted(from, frs[0], 1, factor) + SlowedFrom(frs[0], frs[1..], factor)
  }

  function Slowed(frs: seq<Frame>, channels: nat, factor: int): (r: seq<Frame>)
    requires Shaped(frs, channels) && factor != 0
    ensures Shaped(r, channels)
  {
    if frs == [] then [] else SlowedFrom(frs[0], frs[1..], factor)
  }

  lemma {:induction false} SlowedLength(from: Frame, frs: seq<Frame>, factor: int)
    requires Shaped(frs, |from|) && factor != 0
    ensures |SlowedFrom(from, frs, factor)| == 1 + |frs| * (if 1 <= factor then factor else 1)
    decreases |frs|
  {
    if frs != [] {
      SlowedLength(frs[0], frs[1..], factor);
      var m := if 1 <= factor then factor else 1;
      assert |frs| * m == m + (|frs| - 1) * m;
    }
  }

  // ----- speeding up

  /** The frames whose number is a multiple of factor, counted from i. */
  function Sped(frs: seq<Frame>, i: nat, factor: int): seq<Frame>
    requires factor != 0
  {
    if frs == [] then []
    else if CMod(i, factor) == 0 then [frs[0]] + Sped(frs[1..], i + 1, factor)
    else Sped(frs[1..], i + 1, factor)
  }

  lemma {:induction false} SpedShaped(frs: seq<Frame>, channels: nat, i: nat, factor: int)
    requires Shaped(frs, channels) && factor != 0
    ensures Shaped(Sped(frs, i, factor), channels)
  {
    if frs != [] {
      SpedShaped(frs[1..], channels, i + 1, factor);
    }
  }

  lemma {:induction false} SpedJoin(a: seq<Frame>, b: seq<Frame>, i: nat, factor: int)
    requires factor != 0
    ensures Sped(a + b, i, factor) == Sped(a, i, factor) + Sped(b, i + |a|, factor)
  {
    hide CMod;
    if a == [] {
      assert a + b == b;
    } else {
      SpedJoin(a[1..], b, i + 1, factor);
      Uncons(a, b);
      Associates([a[0]], Sped(a[1..], i + 1, factor), Sped(b, i + |a|, factor));
    }
  }

  lemma RereadCons(fr: Frame, frs: seq<Frame>, bytes: nat)
    ensures RereadAll([fr] + frs, bytes) == [Reread(fr, bytes)] + RereadAll(frs, bytes)
  {
    Uncons([fr], frs);
    assert [fr][1..] + frs == frs;
  }

  lemma SpedCons(fr: Frame, frs: seq<Frame>, i: nat, factor: int)
    requires factor != 0
    ensures Sped([fr] + frs, i, factor) == if CMod(i, factor) == 0 then [fr] + Sped(frs, i + 1, factor)
            else Sped(frs, i + 1, factor)
  {
    Uncons([fr], frs);
    assert [fr][1..] + frs == frs;
  }

  lemma {:induction false} SpedReread(frs: seq<Frame>, bytes: nat, i: nat, factor: int)
    requires factor != 0
    ensures Sped(RereadAll(frs, bytes), i, factor) == RereadAll(Sped(frs, i, factor), bytes)
  {
    if frs != [] {
      var left := frs[1..];
      SpedReread(left, bytes, i + 1, factor);
      hide *;
      assert frs == [frs[0]] + left;
      RereadCons(frs[0], left, bytes);
      SpedCons(frs[0], left, i, factor);
      SpedCons(Reread(frs[0], bytes), RereadAll(left, bytes), i, factor);
      RereadCons(frs[0], Sped(left, i + 1, factor), bytes);
    }
  }

  lemma ModIsZero(m: nat, j: nat, factor: nat)
    requires 0 < factor && j < factor
    ensures CMod(m * factor + j, factor) == 0 <==> j == 0
  {
    DivModUnique(m * factor + j, factor, m, j);
  }

  /** Frames whose numbers fall between two multiples are dropped. */
  lemma {:induction false} SpedBetween(frs: seq<Frame>, m: nat, j: nat, factor: nat)
    requires 1 <= j && j + |frs| <= factor
    ensures Sped(frs, m * factor + j, factor) == []
  {
    if frs != [] {
      ModIsZero(m, j, factor);
      SpedBetween(frs[1..], m, j + 1, factor);
    }
  }

  /** Of factor frames or less that start at a multiple of factor only the first is kept. */
  lemma SpedChunk(frs: seq<Frame>, m: nat, factor: nat)
    requires 1 <= |frs| <= factor
    ensures Sped(frs, m * factor, factor) == [frs[0]]
  {
    ModIsZero(m, 0, factor);
    SpedBetween(frs[1..], m, 1, factor);
  }

  /** Speeding up undoes slowing down, for every factor. */
  lemma {:induction false} SpedSlowed(from: Frame, frs: seq<Frame>, m: nat, factor: nat)
    requires Shaped(frs, |from|) && 1 <= factor
    ensures Sped(SlowedFrom(from, frs, factor), m * factor, factor) == [from] + frs
    decreases |frs|
  {
    hide Sped;
    if frs == [] {
      SpedChunk([from], m, factor);
    } else {
      var chunk := [from] + Inserted(from, frs[0], 1, factor);
      var after := SlowedFrom(frs[0], frs[1..], factor);
      SpedJoin(chunk, after, m * factor, factor);
      SpedChunk(chunk, m, factor);
      assert m * factor + |chunk| == (m + 1) * factor;
      SpedSlowed(frs[0], frs[1..], m + 1, factor);
    }
  }

  /** The number of frames that speeding up keeps: one for every factor of them, or fewer. */
  lemma {:induction false} SpedLength(frs: seq<Frame>, m: nat, factor: nat)
    requires 1 <= factor
    ensures |Sped(frs, m * factor, factor)| == (|frs| + factor - 1) / factor
    decreases |frs|
  {
    if frs == [] {
      DivModUnique(factor - 1, factor, 0, factor - 1);
    } else if |frs| <= factor {
      SpedChunk(frs, m, factor);
      DivModUnique(|frs| + factor - 1, factor, 1, |frs| - 1);
    } else {
      hide Sped;
      var first, left := frs[..factor], frs[factor..];
      assert first + left == frs;
      SpedJoin(first, left, m * factor, factor);
      SpedChunk(first, m, factor);
      assert m * factor + factor == (m + 1) * factor;
      SpedLength(left, m + 1, factor);
      AddOne(|left| + factor - 1, factor);
    }
  }

  lemma AddOne(a: nat, factor: nat)
    requires 1 <= factor
    ensures (a + factor) / factor == a / factor + 1
  {
    assert a + factor == (a / factor + 1) * factor + a % factor;
    DivModUnique(a + factor, factor, a / factor + 1, a % factor);
  }

  // ----- encryption

  function XorFrame(fr: Frame, next: nat): (r: Frame)
    ensures |r| == |fr|
    decreases |fr|
  {
    if fr == [] then [] else [XorInt(fr[0], KeyWord(next))] + XorFrame(fr[1..], AfterDraws(next, 4))
  }

  function Crypted(frs: seq<Frame>, next: nat): (r: seq<Frame>)
    ensures |r| == |frs|
    ensures forall i :: 0 <= i < |frs| ==> |r[i]| == |frs[i]|
    decreases |frs|
  {
    if frs == [] then [] else [XorFrame(frs[0], next)] + Crypted(frs[1..], AfterDraws(next, 4 * |frs[0]|))
  }

  /** Some sample of the frame is the complement of its key word. */
  predicate MeetsKey(fr: Frame, next: nat)
    decreases |fr|
  {
    fr != [] && (fr[0] == -1 - KeyWord(next) || MeetsKey(fr[1..], AfterDraws(next, 4)))
  }

  predicate AnyMeetsKey(frs: seq<Frame>, next: nat)
    decreases |frs|
  {
    frs != [] && (MeetsKey(frs[0], next) || AnyMeetsKey(frs[1..], AfterDraws(next, 4 * |frs[0]|)))
  }

  lemma ReadIsInt(x: int, bytes: nat)
    requires 1 <= bytes <= 4 && ReadSample(x, bytes)
    ensures InRange(x, 4)
  {
    Powers();
  }

  lemma {:induction false} XorFrameTwice(fr: Frame, next: nat, bytes: nat)
    requires 1 <= bytes <= 4 && forall c :: 0 <= c < |fr| ==> ReadSample(fr[c], bytes)
    ensures SampleBytes(XorFrame(Reread(XorFrame(fr, next), bytes), next), bytes) == SampleBytes(fr, bytes) <==>
            bytes < 4 || !MeetsKey(fr, next)
    decreases |fr|
  {
    if fr != [] {
      hide XorInt, SampleOf, Encode, KeyWord, AfterDraws, InRange;
      ReadIsInt(fr[0], bytes);
      XorBack(fr[0], KeyWord(next), bytes);
      XorFrameTwice(fr[1..], AfterDraws(next, 4), bytes);
      var once := Reread(XorFrame(fr, next), bytes);
      assert once[1..] == Reread(XorFrame(fr[1..], AfterDraws(next, 4)), bytes) by {
        assert XorFrame(fr, next)[1..] == XorFrame(fr[1..], AfterDraws(next, 4));
      }
      var twice := XorFrame(once, next);
      assert twice[1..] == XorFrame(once[1..], AfterDraws(next, 4));
      var back, was := SampleBytes(twice, bytes), SampleBytes(fr, bytes);
      assert back[..bytes] == Encode(twice[0], bytes) && back[bytes..] == SampleBytes(twice[1..], bytes);
      assert was[..bytes] == Encode(fr[0], bytes) && was[bytes..] == SampleBytes(fr[1..], bytes);
      assert back == back[..bytes] + back[bytes..] && was == was[..bytes] + was[bytes..];
    }
  }

  /** Encrypting twice with a key yields the same bytes, if and only if samples are shorter
      than 32 bits or none of them is the complement of its key word. */
  lemma {:induction false} CryptedTwice(frs: seq<Frame>, next: nat, channels: nat, bytes: nat)
    requires 1 <= bytes <= 4 && ReadFrames(frs, bytes) && Shaped(frs, channels)
    ensures FrameBytes(Crypted(RereadAll(Crypted(frs, next), bytes), next), bytes) == FrameBytes(frs, bytes) <==>
            bytes < 4 || !AnyMeetsKey(frs, next)
    decreases |frs|
  {
    if frs != [] {
      var later := AfterDraws(next, 4 * |frs[0]|);
      XorFrameTwice(frs[0], next, bytes);
      CryptedTwice(frs[1..], later, channels, bytes);
      var once := RereadAll(Crypted(frs, next), bytes);
      assert once[1..] == RereadAll(Crypted(frs[1..], later), bytes) by {
        assert Crypted(frs, next)[1..] == Crypted(frs[1..], later);
      }
      var twice := Crypted(once, next);
      assert twice[1..] == Crypted(once[1..], later);
      var back, was := FrameBytes(twice, bytes), FrameBytes(frs, bytes);
      var n := |frs[0]| * bytes;
      SampleBytesLength(frs[0], bytes);
      SampleBytesLength(twice[0], bytes);
      assert back[..n] == SampleBytes(twice[0], bytes) && back[n..] == FrameBytes(twice[1..], bytes);
      assert was[..n] == SampleBytes(frs[0], bytes) && was[n..] == FrameBytes(frs[1..], bytes);
      assert back == back[..n] + back[n..] && was == was[..n] + was[n..];
    }
  }
}
