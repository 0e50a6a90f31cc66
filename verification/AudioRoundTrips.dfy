/** What recoding announces in the header it writes, and which files come back when a
    transformation is followed by the one that undoes it.
 */
module AudioRoundTrips {
  import opened Options
  import opened Integers
  import opened AudioBytes
  import opened AudioFrames
  import opened AudioFile
  import opened AudioSizes
  import opened AudioInterpolation

  /** Sizes stay within signed 32-bit integers. */
  ghost predicate Modest(a: Audio) {
    Accepted(a) && a.header.size < TWO31
  }

  function Frames32(a: Audio): int
    requires ValidHeader(a.header)
  {
    FrameSizes(a);
    Count(a.header.size, a.FrameSize())
  }

  lemma CountIs(a: Audio)
    requires Modest(a)
    ensures Frames32(a) == a.header.size / a.FrameSize() == |Data(a)|
    ensures 0 <= Frames32(a) && 0 <= Frames32(a) * a.FrameSize() <= a.header.size
    ensures Frames32(a) * a.FrameSize() == a.header.size <==> a.header.size % a.FrameSize() == 0
  {
    hide Frames, Wrap, Annotates;
    FrameSizes(a);
    CountFits(a.header.size, a.FrameSize());
  }

  lemma CountFits(n: int, d: int)
    requires 0 <= n < TWO31 && 1 <= d
    ensures Wrap(n / d) == n / d && 0 <= n / d && 0 <= n / d * d <= n
    ensures n / d * d == n <==> n % d == 0
  {
    var q := n / d;
    DivMonotone(0, n, d);
    DivExact(0, d);
    Times(q, q, 1, d);
    assert n == q * d + n % d;
    Unwrapped(q);
  }

  /** The file that says what was read, no more and no less. */
  function Canonical(a: Audio): seq<Byte>
    requires Modest(a)
  {
    CountIs(a);
    FrameSizes(a);
    Rewritten(a, Frames32(a) * a.FrameSize(), Data(a))
  }

  // ----- when the canonical file is the original

  /** The size is that of whole frames, all of which are there and nothing else, and neither
      header nor samples have four bytes of ones that are taken for the end of the input. */
  ghost predicate Intact(s: seq<Byte>)
    requires Parse(s).Some?
  {
    var a := Parse(s).value;
    && |a.body| == a.header.size && (0 < a.FrameSize() ==> a.header.size % a.FrameSize() == 0)
    && Rest(s, 8)[..4] != ONES && Rest(s, 16)[..4] != ONES
    && (a.Bytes() < 4 || NoOnes(a.body, |a.body| / 4))
  }

  lemma FieldKept(x: nat, s: seq<Byte>)
    requires x < TWO32 - 1 && 4 <= |s|
    ensures Encode(x, 4) == s[..4] <==> x == FieldAt(s) && s[..4] != ONES
  {
    Powers();
    hide Encode, NatOf, Pow256, Wrap;
    var head := s[..4];
    assert head + s[4..] == s;
    if Encode(x, 4) == head {
      FieldBack(x, s[4..]);
      OnesValue(head);
      NatOfEncode(x, 4);
    }
    if x == FieldAt(s) && head != ONES {
      EncodeDecode(head);
      EncodeLow(x, SampleOf(head), 4);
    }
  }

  lemma HeaderKept(h: Header, s: seq<Byte>)
    requires h.magic < TWO32 - 1 && h.offset < TWO32 - 1 && h.size < TWO32 - 1
    requires h.encoding < TWO32 - 1 && h.rate < TWO32 - 1 && h.channels < TWO32 - 1
    requires |s| >= HEADER_SIZE && ValidHeader(HeaderAt(s))
    ensures HeaderBytes(h) == s[..HEADER_SIZE] <==>
            h == HeaderAt(s) && Rest(s, 8)[..4] != ONES && Rest(s, 16)[..4] != ONES
  {
    hide FieldAt, Encode;
    var s1, s2, s3, s4, s5 := s[4..], s[8..], s[12..], s[16..], s[20..];
    assert s1[4..] == s2 && s2[4..] == s3 && s3[4..] == s4 && s4[4..] == s5;
    FieldKept(h.magic, s);
    FieldKept(h.offset, s1);
    FieldKept(h.size, s2);
    FieldKept(h.encoding, s3);
    FieldKept(h.rate, s4);
    FieldKept(h.channels, s5);
    FieldOnes(s);
    FieldOnes(s1);
    FieldOnes(s3);
    FieldOnes(s5);
    SixParts(Encode(h.magic, 4), Encode(h.offset, 4), Encode(h.size, 4), Encode(h.encoding, 4), Encode(h.rate, 4),
        Encode(h.channels, 4), s);
  }

  lemma FieldOnes(s: seq<Byte>)
    ensures |s| >= 4 && s[..4] == ONES ==> FieldAt(s) == 0
  {
  }

  lemma HeadAndTail(head: seq<Byte>, tail: seq<Byte>, s: seq<Byte>, n: nat)
    requires |head| == 4 <= n <= |s|
    ensures head + tail == s[..n] <==> head == s[..4] && tail == s[4..][..n - 4]
  {
    assert s[..n] == s[..4] + s[4..][..n - 4];
    if head + tail == s[..n] {
      assert (head + tail)[..4] == head && (head + tail)[4..] == tail;
      assert s[..n][..4] == s[..4] && s[..n][4..] == s[4..][..n - 4];
    }
  }

  lemma SixParts(a: seq<Byte>, b: seq<Byte>, c: seq<Byte>, d: seq<Byte>, e: seq<Byte>, f: seq<Byte>, s: seq<Byte>)
    requires |a| == |b| == |c| == |d| == |e| == |f| == 4 && 24 <= |s|
    ensures a + (b + (c + (d + (e + f)))) == s[..24] <==>
            a == s[..4] && b == s[4..][..4] && c == s[8..][..4] && d == s[12..][..4] && e == s[16..][..4]
                && f == s[20..][..4]
  {
    assert s[4..][4..] == s[8..] && s[8..][4..] == s[12..] && s[12..][4..] == s[16..] && s[16..][4..] == s[20..];
    HeadAndTail(a, b + (c + (d + (e + f))), s, 24);
    HeadAndTail(b, c + (d + (e + f)), s[4..], 20);
    HeadAndTail(c, d + (e + f), s[8..], 16);
    HeadAndTail(d, e + f, s[12..], 12);
    HeadAndTail(e, f, s[16..], 8);
  }

  lemma ThreeParts(a: seq<Byte>, a': seq<Byte>, b: seq<Byte>, c: seq<Byte>, c': seq<Byte>)
    requires |a| == |a'|
    ensures a + b + c == a' + (b + c') <==> a == a' && c == c'
  {
    var l, r := a + b + c, a' + (b + c');
    if l == r {
      assert l[..|a|] == a && r[..|a|] == a' && l[|a| + |b|..] == c && r[|a| + |b|..] == c';
    }
  }

  lemma BodyKept(a: Audio)
    requires Modest(a)
    ensures FrameBytes(Data(a), a.Bytes()) == a.body <==>
            |a.body| == Frames32(a) * a.FrameSize() && (a.Bytes() < 4 || NoOnes(a.body, |a.body| / 4))
    ensures |FrameBytes(Data(a), a.Bytes())| == Frames32(a) * a.FrameSize()
  {
    CountIs(a);
    FrameSizes(a);
    hide Frames, Data, FrameBytes, NoOnes, Accepted, ValidHeader;
    DataIs(a);
    FramesKept(a.body, a.header.channels, a.Bytes(), Frames32(a));
  }

  lemma DataIs(a: Audio)
    requires Modest(a)
    ensures 0 <= Frames32(a) && 0 <= a.Bytes() && Data(a) == Frames(a.body, a.header.channels, a.Bytes(), Frames32(a))
  {
    CountIs(a);
  }

  /** The canonical file is the file itself if and only if that is intact. */
  lemma IntactExactly(s: seq<Byte>)
    requires Parse(s).Some? && Parse(s).value.header.size < TWO31
    ensures Accepted(Parse(s).value) && (Canonical(Parse(s).value) == s <==> Intact(s))
  {
    ParseAccepts(s);
    var a := Parse(s).value;
    CountIs(a);
    FrameSizes(a);
    var h := a.header.(size := Frames32(a) * a.FrameSize());
    assert a.header == HeaderAt(s);
    hide HeaderAt, HeaderBytes, FrameBytes, Frames, Data, NoOnes;
    HeaderKept(h, s);
    BodyKept(a);
    ThreeParts(HeaderBytes(h), s[..HEADER_SIZE], a.annotation, FrameBytes(Data(a), a.Bytes()), a.body);
  }

  // ----- what is announced

  /** The size in the header of a file, and the number of bytes behind its annotation. */
  function Announced(out: seq<Byte>): nat
    requires |out| >= HEADER_SIZE
  {
    NatOf(out[8..12])
  }

  lemma RewrittenIs(a: Audio, size: nat, frs: seq<Frame>)
    requires 0 <= a.Bytes() && size < TWO32
    ensures var out := Rewritten(a, size, frs);
            |out| == HEADER_SIZE + |a.annotation| + |FrameBytes(frs, a.Bytes())| && Announced(out) == size
  {
    hide Encode, NatOf, FrameBytes;
    var h := a.header.(size := size);
    var out := Rewritten(a, size, frs);
    assert out[..HEADER_SIZE] == HeaderBytes(h);
    assert out[8..12] == HeaderBytes(h)[8..12] == Encode(size, 4);
    NatOfEncode(size, 4);
    Powers();
  }

  /** Nothing overflows when sizes are computed. */
  ghost predicate Roomy(a: Audio, f: nat) {
    Modest(a) && (f <= 512 ==> (f * (Frames32(a) - 1) + 1) * a.FrameSize() < TWO31)
  }

  lemma SlowedBytes(a: Audio, factor: int)
    requires Modest(a) && factor != 0
    ensures |FrameBytes(Slowed(Data(a), a.header.channels, factor), a.Bytes())| ==
            (if Frames32(a) == 0 then 0
                else (if 1 <= factor then factor * (Frames32(a) - 1) + 1 else Frames32(a))) * a.FrameSize()
  {
    CountIs(a);
    FrameSizes(a);
    var frs := Data(a);
    hide Data, Frames, Slowed, SlowedFrom, FrameBytes, Accepted, ValidHeader;
    FrameBytesLength(Slowed(frs, a.header.channels, factor), a.header.channels, a.Bytes());
    SlowedCount(frs, a.header.channels, factor);
  }

  lemma SlowedCount(frs: seq<Frame>, channels: nat, factor: int)
    requires Shaped(frs, channels) && factor != 0
    ensures |Slowed(frs, channels, factor)| == if frs == [] then 0 else if 1 <= factor then factor * (|frs| - 1) + 1
            else |frs|
  {
    if frs != [] {
      SlowedLength(frs[0], frs[1..], factor);
    }
  }

  lemma FirstRun(s: seq<Byte>, mode: Mode, field: nat, key: nat)
    requires Parse(s).Some?
    ensures var a := Parse(s).value;
            && Accepted(a) && 0 < a.FrameSize()
            && Recode(mode, field, key, s) ==
                 Some(Rewritten(a, NewSize(mode, GetFactor(field), Frames32(a), a.FrameSize(), a.header.size),
                                Transformed(mode, GetFactor(field), key, Data(a), a.header.channels)))
  {
    hide FrameBytes, HeaderBytes, NewSize, Transformed, Data, Parse, Count, GetFactor;
    ParseAccepts(s);
    FrameSizes(Parse(s).value);
  }

  /** Bytes announced and written for n frames of d bytes. */
  lemma SlowSizeExact(n: int, f: nat, d: int)
    requires FrameSizeOk(d) && 0 <= n && n * d < TWO31 && 1 <= f <= 1024
    requires f <= 512 ==> (f * (n - 1) + 1) * d < TWO31
    ensures var factor := GetFactor(f - 1);
            NewSize(SlowDown, factor, n, d, 0) ==
                (if n == 0 then 0 else (if 1 <= factor then factor * (n - 1) + 1 else n)) * d <==>
            if f <= 512 then 1 <= n || f == 1 else n == 1
  {
    FactorKept(f);
    hide NewSize, GetFactor;
    if 512 < f {
      SizeIrregular(n, d);
    } else if n == 0 {
      SizeOfNothing(f, d);
    } else {
      SizeRegular(n, f, d);
    }
  }

  /** A slowed file is as long as its header announces, if and only if it has a frame (or the
      factor is 1); if the factor is lost, only if it has exactly one. */
  lemma SlowAnnounces(s: seq<Byte>, f: nat, key: nat)
    requires Parse(s).Some? && 1 <= f <= 1024 && Roomy(Parse(s).value, f)
    ensures var a := Parse(s).value;
            var out := Recode(SlowDown, f - 1, key, s);
            && out.Some? && |out.value| >= HEADER_SIZE
            && (|out.value| == HEADER_SIZE + |a.annotation| + Announced(out.value) <==>
                if f <= 512 then 1 <= Frames32(a) || f == 1 else Frames32(a) == 1)
  {
    hide Data, Slowed, FrameBytes, NewSize, Announced, Recode, Parse, Rewritten, GetFactor, Frames32;
    var a := Parse(s).value;
    var factor := GetFactor(f - 1);
    FirstRun(s, SlowDown, f - 1, key);
    FrameSizes(a);
    CountIs(a);
    SameSize(SlowDown, factor, Frames32(a), a.FrameSize(), a.header.size);
    RewrittenIs(a, NewSize(SlowDown, factor, Frames32(a), a.FrameSize(), 0),
        Slowed(Data(a), a.header.channels, factor));
    SlowedBytes(a, factor);
    SlowSizeExact(Frames32(a), f, a.FrameSize());
  }

  lemma SameSize(mode: Mode, factor: int, n: int, d: int, size: nat)
    requires factor != 0 && size < TWO32 && mode != Crypt
    ensures NewSize(mode, factor, n, d, size) == NewSize(mode, factor, n, d, 0)
  {
  }

  lemma {:induction false} SpedAll(frs: seq<Frame>, i: nat)
    ensures |Sped(frs, i, -1)| == |frs|
  {
    if frs != [] {
      assert CMod(i, -1) == 0;
      SpedAll(frs[1..], i + 1);
    }
  }

  lemma SpedBytes(a: Audio, factor: int)
    requires Modest(a) && (1 <= factor || factor == -1)
    ensures |FrameBytes(Sped(Data(a), 0, factor), a.Bytes())| ==
            (if 1 <= factor then (Frames32(a) + factor - 1) / factor else Frames32(a)) * a.FrameSize()
  {
    CountIs(a);
    FrameSizes(a);
    var frs := Data(a);
    hide Data, Frames, Sped, FrameBytes, Accepted, ValidHeader;
    SpedShaped(frs, a.header.channels, 0, factor);
    FrameBytesLength(Sped(frs, 0, factor), a.header.channels, a.Bytes());
    if 1 <= factor {
      assert 0 * factor == 0;
      SpedLength(frs, 0, factor);
    } else {
      SpedAll(frs, 0);
    }
  }

  /** A file sped up is as long as its header announces, if and only if the factor is not
      lost and does not divide the number of frames.  If it divides it, one frame is missing. */
  lemma SpeedAnnounces(s: seq<Byte>, f: nat, key: nat)
    requires Parse(s).Some? && 1 <= f <= 1024 && Modest(Parse(s).value)
    ensures var a := Parse(s).value;
            var out := Recode(SpeedUp, f - 1, key, s);
            && out.Some? && |out.value| >= HEADER_SIZE
            && (|out.value| == HEADER_SIZE + |a.annotation| + Announced(out.value) <==>
                f <= 512 && Frames32(a) % f != 0)
            && (f <= 512 && Frames32(a) % f == 0 ==>
                |out.value| + a.FrameSize() == HEADER_SIZE + |a.annotation| + Announced(out.value))
  {
    hide Data, Sped, FrameBytes, NewSize, Announced, Recode, Parse, Rewritten, GetFactor, Frames32;
    FactorKept(f);
    var a := Parse(s).value;
    var factor := GetFactor(f - 1);
    FirstRun(s, SpeedUp, f - 1, key);
    FrameSizes(a);
    CountIs(a);
    SameSize(SpeedUp, factor, Frames32(a), a.FrameSize(), a.header.size);
    RewrittenIs(a, NewSize(SpeedUp, factor, Frames32(a), a.FrameSize(), 0), Sped(Data(a), 0, factor));
    SpedBytes(a, factor);
    if 512 < f {
      SpedSizeIrregular(Frames32(a), a.FrameSize());
    } else {
      SpedSizeRegular(Frames32(a), f, a.FrameSize());
    }
  }

  // ----- slowing down, then speeding up

  lemma SpedBack(frs: seq<Frame>, channels: nat, bytes: nat, factor: nat)
    requires 1 <= bytes <= 4 && ReadFrames(frs, bytes) && Shaped(frs, channels) && frs != [] && 1 <= factor
    ensures var slow := Slowed(frs, channels, factor);
            |slow| == factor * (|frs| - 1) + 1
                && Sped(Frames(FrameBytes(slow, bytes), channels, bytes, |slow|), 0, factor) == frs
  {
    hide Frames, FrameBytes, Sped, SlowedFrom, RereadAll;
    var slow := Slowed(frs, channels, factor);
    SlowedCount(frs, channels, factor);
    FramesOfBytes(slow, channels, bytes, []);
    assert FrameBytes(slow, bytes) + [] == FrameBytes(slow, bytes);
    SpedReread(slow, bytes, 0, factor);
    assert 0 * factor == 0;
    SpedSlowed(frs[0], frs[1..], 0, factor);
    assert [frs[0]] + frs[1..] == frs;
    RereadAllSame(frs, bytes);
  }

  lemma SizeTells(a: Audio, size: nat, size': nat, frs: seq<Frame>, frs': seq<Frame>)
    requires 0 <= a.Bytes() && size < TWO32 && size' < TWO32 && Rewritten(a, size, frs) == Rewritten(a, size', frs')
    ensures size == size'
  {
    hide Rewritten, Announced;
    RewrittenIs(a, size, frs);
    RewrittenIs(a, size', frs');
  }

  /** What the second run reads. */
  function Middle(a: Audio, size: nat, frs: seq<Frame>): Audio
    requires 0 <= a.Bytes()
  {
    Audio(a.header.(size := Seen(size)), a.annotation, FrameBytes(frs, a.Bytes()))
  }

  lemma SecondRun(a: Audio, size: nat, frs: seq<Frame>, mode: Mode, field: nat, key: nat)
    requires Accepted(a) && size < TWO32
    ensures var m := Middle(a, size, frs);
            && Accepted(m) && m.FrameSize() == a.FrameSize() && 0 < a.FrameSize()
            && Recode(mode, field, key, Rewritten(a, size, frs)) ==
                 Some(Rewritten(a,
                     NewSize(mode, GetFactor(field), Count(Seen(size), a.FrameSize()), a.FrameSize(), Seen(size)),
                                Transformed(mode, GetFactor(field), key, Data(m), a.header.channels)))
  {
    hide FrameBytes, HeaderBytes, NewSize, Transformed, Data, Parse, Recode, Count, GetFactor;
    FrameSizes(a);
    ParseRewritten(a, size, frs);
    FirstRun(Rewritten(a, size, frs), mode, field, key);
    var m := Middle(a, size, frs);
    forall size'
      ensures m.header.(size := size') == a.header.(size := size')
    {
    }
  }

  /** Slowed down and sped up by the same factor a file comes back as its canonical form,
      header included, if and only if it has a frame and the factor is between 2 and 512. */
  lemma RoundTrip(s: seq<Byte>, f: nat, key: nat, key': nat)
    requires Parse(s).Some? && 1 <= f <= 1024 && Roomy(Parse(s).value, f)
    ensures var a := Parse(s).value;
            var slow := Recode(SlowDown, f - 1, key, s);
            && slow.Some?
            && (Recode(SpeedUp, f - 1, key', slow.value) == Some(Canonical(a)) <==> 1 <= Frames32(a) && 2 <= f <= 512)
  {
    hide Data, Slowed, Sped, FrameBytes, NewSize, Rewritten, Recode, Count, Parse, GetFactor, Frames32;
    var a := Parse(s).value;
    var factor, n, d := GetFactor(f - 1), Frames32(a), a.FrameSize();
    FirstRun(s, SlowDown, f - 1, key);
    FrameSizes(a);
    CountIs(a);
    SameSize(SlowDown, factor, n, d, a.header.size);
    var size := NewSize(SlowDown, factor, n, d, 0);
    var frs := Slowed(Data(a), a.header.channels, factor);
    SecondRun(a, size, frs, SpeedUp, f - 1, key');
    SameSize(SpeedUp, factor, Count(Seen(size), d), d, Seen(size));
    var final, back := FinalSize(n, factor, d), Sped(Data(Middle(a, size, frs)), 0, factor);
    assert Recode(SpeedUp, f - 1, key', Rewritten(a, size, frs)) == Some(Rewritten(a, final, back));
    FinalSizeExact(n, f, d);
    if 1 <= n && 2 <= f <= 512 {
      FactorKept(f);
      DataBack(a, factor);
    } else if Rewritten(a, final, back) == Rewritten(a, n * d, Data(a)) {
      SizeTells(a, final, n * d, back, Data(a));
    }
  }

  lemma FinalSizeExact(n: int, f: nat, d: int)
    requires FrameSizeOk(d) && 0 <= n && n * d < TWO31 && 1 <= f <= 1024
    requires f <= 512 ==> (f * (n - 1) + 1) * d < TWO31
    ensures var factor := GetFactor(f - 1);
            && (FinalSize(n, factor, d) == n * d <==> 1 <= n && 2 <= f <= 512)
            && (1 <= n && 2 <= f <= 512 ==> CountAgain(n, factor, d) == f * (n - 1) + 1)
  {
    FactorKept(f);
    hide FinalSize, CountAgain, GetFactor;
    if 512 < f {
      SizeIrregular(n, d);
    } else if n == 0 {
      SizeOfNothing(f, d);
    } else {
      SizeRegular(n, f, d);
    }
  }

  /** The frames come back. */
  lemma DataBack(a: Audio, factor: nat)
    requires Modest(a) && 1 <= factor && 1 <= Frames32(a)
    requires CountAgain(Frames32(a), factor, a.FrameSize()) == factor * (Frames32(a) - 1) + 1
    ensures var m := Middle(a, NewSize(SlowDown, factor, Frames32(a), a.FrameSize(), 0),
            Slowed(Data(a), a.header.channels, factor));
            ValidHeader(m.header) && Sped(Data(m), 0, factor) == Data(a)
  {
    hide Frames, FrameBytes, Sped, Slowed, NewSize, ReadFrames, Count;
    CountIs(a);
    FrameSizes(a);
    FramesAreRead(a.body, a.header.channels, a.Bytes(), Frames32(a));
    var frs := Data(a);
    SpedBack(frs, a.header.channels, a.Bytes(), factor);
  }

  /** An intact file comes back byte by byte. */
  lemma RoundTripIntact(s: seq<Byte>, f: nat, key: nat, key': nat)
    requires Parse(s).Some? && 1 <= f <= 1024 && Roomy(Parse(s).value, f) && Intact(s)
    ensures var slow := Recode(SlowDown, f - 1, key, s);
            && slow.Some?
            && (Recode(SpeedUp, f - 1, key', slow.value) == Some(s) <==> 1 <= Frames32(Parse(s).value) && 2 <= f <= 512)
  {
    hide Recode, Intact, Canonical, Parse;
    IntactExactly(s);
    RoundTrip(s, f, key, key');
  }

  // ----- encrypting twice

  lemma CryptData(a: Audio, key: nat)
    requires Accepted(a)
    ensures var frs := Crypted(Data(a), key);
            var m := Middle(a, a.header.size, frs);
            ValidHeader(m.header) && Data(m) == RereadAll(frs, a.Bytes())
  {
    FrameSizes(a);
    var frs := Crypted(Data(a), key);
    hide Frames, FrameBytes, RereadAll, Crypted;
    var m := Middle(a, a.header.size, frs);
    assert m.header == a.header;
    FramesOfBytes(frs, a.header.channels, a.Bytes(), []);
    assert FrameBytes(frs, a.Bytes()) + [] == FrameBytes(frs, a.Bytes());
  }

  /** Encrypted twice with the same key a file comes back as it was read, if and only if its
      samples are shorter than 32 bits or none is the complement of its key word. */
  lemma CryptTwice(s: seq<Byte>, field: nat, field': nat, key: nat)
    requires Parse(s).Some?
    ensures var a := Parse(s).value;
            var once := Recode(Crypt, field, key, s);
            && once.Some? && ValidHeader(a.header)
            && (Recode(Crypt, field', key, once.value) == Some(Rewritten(a, a.header.size, Data(a))) <==>
                a.Bytes() < 4 || !AnyMeetsKey(Data(a), key))
  {
    ParseAccepts(s);
    var a := Parse(s).value;
    FrameSizes(a);
    var size, bytes := a.header.size, a.Bytes();
    var n := Positive(Count(size, a.FrameSize()));
    var frs := Crypted(Data(a), key);
    assert Recode(Crypt, field, key, s) == Some(Rewritten(a, size, frs));
    SecondRun(a, size, frs, Crypt, field', key);
    CryptData(a, key);
    FramesAreRead(a.body, a.header.channels, bytes, n);
    CryptedTwice(Data(a), key, a.header.channels, bytes);
    hide Frames, FrameBytes, RereadAll, Crypted, Recode, HeaderBytes;
    var back := Crypted(RereadAll(frs, bytes), key);
    var h := HeaderBytes(a.header);
    assert a.header.(size := size) == a.header;
    Associates(h, a.annotation, FrameBytes(Data(a), bytes));
    ThreeParts(h, h, a.annotation, FrameBytes(back, bytes), FrameBytes(Data(a), bytes));
  }

  /** An intact file comes back byte by byte. */
  lemma CryptTwiceIntact(s: seq<Byte>, field: nat, field': nat, key: nat)
    requires Parse(s).Some? && Modest(Parse(s).value) && Intact(s)
    ensures var a := Parse(s).value;
            var once := Recode(Crypt, field, key, s);
            && once.Some?
            && (Recode(Crypt, field', key, once.value) == Some(s) <==> a.Bytes() < 4 || !AnyMeetsKey(Data(a), key))
  {
    var a := Parse(s).value;
    FrameSizes(a);
    CountIs(a);
    assert Frames32(a) * a.FrameSize() == a.header.size;
    hide Recode, Intact, Parse, Data, Rewritten, AnyMeetsKey;
    IntactExactly(s);
    CryptTwice(s, field, field', key);
  }
}
