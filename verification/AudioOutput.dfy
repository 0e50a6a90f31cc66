/** Files as bytes: which are accepted, and what stands where in those that recoding writes. */
module AudioOutput {
  import opened Options
  import opened Integers
  import opened AudioBytes
  import opened AudioBits
  import opened AudioInterpolation
  import opened AudioFrames
  import opened AudioFile
  import opened AudioSizes
  import opened AudioRoundTrips
  import opened AudioSamples

  // ----- the input

  function Weighted(a: nat, b: nat, c: nat, d: nat): nat {
    a * 0x100_0000 + b * 0x1_0000 + c * 0x100 + d
  }

  /** The value of four bytes, the first one most significant. */
  function ValueAt(s: seq<Byte>, p: nat): nat
    requires p + 4 <= |s|
  {
    Weighted(s[p], s[p + 1], s[p + 2], s[p + 3])
  }

  /** What the program takes that value for. */
  function FieldValue(s: seq<Byte>, p: nat): nat
    requires p + 4 <= |s|
  {
    if s[p..p + 4] == ONES then 0 else ValueAt(s, p)
  }

  lemma FieldIs(s: seq<Byte>, p: nat)
    requires p + 4 <= |s|
    ensures FieldAt(Rest(s, p)) == FieldValue(s, p)
  {
    hide NatOf;
    var four := s[p..p + 4];
    assert Rest(s, p)[..4] == four;
    assert four == [s[p], s[p + 1], s[p + 2], s[p + 3]];
    FourBytes(s[p], s[p + 1], s[p + 2], s[p + 3]);
  }

  lemma HeaderIs(s: seq<Byte>)
    requires HEADER_SIZE <= |s|
    ensures HeaderAt(s) == Header(FieldValue(s, 0), FieldValue(s, 4), FieldValue(s, 8), FieldValue(s, 12),
                                  FieldValue(s, 16), FieldValue(s, 20))
  {
    hide FieldAt, FieldValue;
    FieldIs(s, 0);
    FieldIs(s, 4);
    FieldIs(s, 8);
    FieldIs(s, 12);
    FieldIs(s, 16);
    FieldIs(s, 20);
    RestNone(s);
  }

  /** The bytes of a file with an audio header and an annotation of at most 1024 bytes, both of
      them complete: ".snd", the offset of the samples, their size, an encoding from 2 to 5, the
      rate, and one or two channels.  The annotation has no byte of ones. */
  ghost predicate WellFormed(s: seq<Byte>) {
    && HEADER_SIZE <= |s|
    && s[..4] == [0x2e, 0x73, 0x6e, 0x64]
    && ValueAt(s, 4) % 8 == 0 && HEADER_SIZE <= ValueAt(s, 4) <= HEADER_SIZE + 1024
    && 2 <= ValueAt(s, 12) <= 5 && 1 <= ValueAt(s, 20) <= 2
    && ValueAt(s, 4) <= |s| && forall i :: HEADER_SIZE <= i < ValueAt(s, 4) ==> s[i] != 255
  }

  lemma ValuesTell(s: seq<Byte>, p: nat)
    requires p + 4 <= |s|
    ensures s[p..p + 4] == ONES <==> ValueAt(s, p) == TWO32 - 1
    ensures ValueAt(s, p) < TWO32
  {
    var four := s[p..p + 4];
    assert four == [s[p], s[p + 1], s[p + 2], s[p + 3]];
  }

  lemma MagicTells(s: seq<Byte>)
    requires 4 <= |s|
    ensures FieldValue(s, 0) == AUDIO_MAGIC <==> s[..4] == [0x2e, 0x73, 0x6e, 0x64]
  {
    assert s[0..4] == s[..4] == [s[0], s[1], s[2], s[3]];
  }

  /** Exactly these files are accepted, and this is what is made of them. */
  lemma AcceptedExactly(s: seq<Byte>)
    ensures Parse(s).Some? <==> WellFormed(s)
    ensures WellFormed(s) ==>
            var a := Parse(s).value;
            && a.header.offset == ValueAt(s, 4) && a.header.size == FieldValue(s, 8)
            && a.header.encoding == ValueAt(s, 12) && a.header.rate == FieldValue(s, 16)
            && a.header.channels == ValueAt(s, 20)
            && a.annotation == s[HEADER_SIZE..ValueAt(s, 4)] && a.body == s[ValueAt(s, 4)..]
  {
    hide HeaderAt, ValueAt;
    HeaderRange(s);
    if HEADER_SIZE <= |s| {
      HeaderIs(s);
      MagicTells(s);
      ValuesTell(s, 4);
      ValuesTell(s, 12);
      ValuesTell(s, 20);
    }
  }

  /** The position of sample number p in a file with that header and annotation. */
  function Offset(a: Audio, p: nat): nat
    requires ValidHeader(a.header)
  {
    FrameSizes(a);
    HEADER_SIZE + |a.annotation| + p * a.Bytes()
  }

  /** The samples of an accepted file are read from these positions, and past the end of the
      input they are 0. */
  lemma DataAt(s: seq<Byte>, i: nat, c: nat, p: nat)
    requires Parse(s).Some?
    requires i < |Data(Parse(s).value)| && c < Parse(s).value.header.channels
    requires p == i * Parse(s).value.header.channels + c
    ensures var a := Parse(s).value;
            && ValidHeader(a.header) && 1 <= a.Bytes() <= 4
            && Data(a)[i][c] == SampleAt(Rest(s, Offset(a, p)), a.Bytes())
  {
    hide Frames, SampleAt, Parse, Count, Annotates;
    ParseAccepts(s);
    var a := Parse(s).value;
    FrameSizes(a);
    var start, q := HEADER_SIZE + |a.annotation|, p * a.Bytes();
    FramesAt(a.body, a.header.channels, a.Bytes(), |Data(a)|, i, c, q);
    assert Rest(s, start) == a.body;
    RestTwice(s, start, q);
  }

  /** The samples that are written stand there, too. */
  lemma RewrittenAt(a: Audio, size: nat, frs: seq<Frame>, i: nat, c: nat, p: nat)
    requires ValidHeader(a.header) && 0 <= a.Bytes() && Shaped(frs, a.header.channels)
    requires i < |frs| && c < a.header.channels && p == i * a.header.channels + c
    ensures BytesAt(Rewritten(a, size, frs), Offset(a, p), Encode(frs[i][c], a.Bytes()))
  {
    hide FrameBytes, HeaderBytes, Encode, BytesAt;
    var h := HeaderBytes(a.header.(size := size));
    var q := p * a.Bytes();
    FrameBytesAt(frs, a.header.channels, a.Bytes(), i, c, q);
    Shifted(h + a.annotation, FrameBytes(frs, a.Bytes()), q, Encode(frs[i][c], a.Bytes()));
  }

  lemma DataIsRead(a: Audio)
    requires Accepted(a)
    ensures 1 <= a.Bytes() <= 4 && ReadFrames(Data(a), a.Bytes()) && Shaped(Data(a), a.header.channels)
  {
    hide Count, Annotates, ReadSample;
    FrameSizes(a);
    FramesAreRead(a.body, a.header.channels, a.Bytes(), Positive(Count(a.header.size, a.FrameSize())));
  }

  lemma ReadFits(frs: seq<Frame>, bytes: nat, channels: nat, m: nat, c: nat)
    requires 1 <= bytes <= 4 && ReadFrames(frs, bytes) && Shaped(frs, channels) && m < |frs| && c < channels
    ensures -TWO31 <= frs[m][c] < TWO31 && ReadSample(frs[m][c], bytes)
  {
    Powers();
    assert ReadSample(frs[m][c], bytes);
  }

  // ----- slowing down

  /** The sample of the frame after the m-th; the last frame has none after it. */
  function Following(frs: seq<Frame>, channels: nat, m: nat, c: nat): int
    requires Shaped(frs, channels) && m < |frs| && c < channels
  {
    if m + 1 < |frs| then frs[m + 1][c] else frs[m][c]
  }

  /** A sample that lies the k-th part of factor between two others. */
  function Between(from: int, to: int, k: int, factor: int): int
    requires factor != 0
  {
    from + CDiv((to - from) * k, factor)
  }

  /** Every frame of slowed ones, the last one included. */
  lemma SlowedIs(frs: seq<Frame>, channels: nat, f: nat, m: nat, k: nat, c: nat, p: nat)
    requires Shaped(frs, channels) && 1 <= f && k < f && m < |frs| && c < channels && p == m * f
    requires m + 1 < |frs| || k == 0
    requires -TWO31 <= frs[m][c] < TWO31 && -TWO31 <= Following(frs, channels, m, c) < TWO31
    requires NoOverflow(frs[m][c], Following(frs, channels, m, c), k)
    ensures p + k < |Slowed(frs, channels, f)|
    ensures Slowed(frs, channels, f)[p + k][c] == Between(frs[m][c], Following(frs, channels, m, c), k, f)
    ensures Within(frs[m][c], Slowed(frs, channels, f)[p + k][c], Slowed(frs, channels, f)[p + k][c],
                   Following(frs, channels, m, c))
  {
    if m + 1 < |frs| {
      hide Slowed, Within, NoOverflow;
      SlowedBetween(frs, channels, f, m, k, k, c, p);
    } else {
      FirstPart(frs[m][c], frs[m][c], f);
      hide Within, SlowedFrom, Interpolate;
      SlowedLast(frs[0], frs[1..], f, p);
      assert [frs[0]] + frs[1..] == frs;
      WithinSelf(frs[m][c]);
    }
  }

  lemma WithinSelf(x: int)
    ensures Within(x, x, x, x)
  {
  }

  /** The conditions on a sample of a slowed file: frame m of the input, and the k-th step from
      there to the next one. */
  ghost predicate Place(a: Audio, f: nat, m: nat, k: nat, c: nat) {
    && Accepted(a) && 1 <= f <= 512 && k < f && c < a.header.channels
    && m < |Data(a)| && (m + 1 < |Data(a)| || k == 0)
    && NoOverflow(Data(a)[m][c], Following(Data(a), a.header.channels, m, c), k)
  }

  function SlowSample(a: Audio, f: nat, m: nat, k: nat, c: nat): int
    requires ValidHeader(a.header) && m < |Data(a)| && c < a.header.channels && 1 <= f
  {
    Between(Data(a)[m][c], Following(Data(a), a.header.channels, m, c), k, f)
  }

  lemma SlowedData(a: Audio, f: nat, m: nat, k: nat, c: nat, p: nat)
    requires Place(a, f, m, k, c) && p == m * f
    ensures var slow := Slowed(Data(a), a.header.channels, f);
            && p + k < |slow| && slow[p + k][c] == SlowSample(a, f, m, k, c)
            && InRange(SlowSample(a, f, m, k, c), a.Bytes())
  {
    hide Data, Slowed, NoOverflow, Between, ReadFrames;
    DataIsRead(a);
    var frs := Data(a);
    ReadFits(frs, a.Bytes(), a.header.channels, m, c);
    if m + 1 < |frs| {
      ReadFits(frs, a.Bytes(), a.header.channels, m + 1, c);
    }
    SlowedIs(frs, a.header.channels, f, m, k, c, p);
  }

  /** They move from the one to the other. */
  lemma SlowSamplesMove(a: Audio, f: nat, m: nat, j: nat, k: nat, c: nat)
    requires Place(a, f, m, k, c) && j <= k
    ensures Within(Data(a)[m][c], SlowSample(a, f, m, j, c), SlowSample(a, f, m, k, c),
                   Following(Data(a), a.header.channels, m, c))
  {
    hide Data, CDiv;
    PartOf(Following(Data(a), a.header.channels, m, c) - Data(a)[m][c], j, k, f);
  }

  /** Sample c of frame m * f + k of the slowed file, in its bytes: S + (T - S) * k / f for the
      samples S and T of frames m and m + 1 of the input. */
  lemma SlowWrites(s: seq<Byte>, f: nat, key: nat, m: nat, k: nat, c: nat, p: nat, q: nat)
    requires Parse(s).Some? && Place(Parse(s).value, f, m, k, c) && p == m * f
    requires q == (p + k) * Parse(s).value.header.channels + c
    ensures var a := Parse(s).value;
            var out := Recode(SlowDown, f - 1, key, s);
            && out.Some? && 0 <= a.Bytes()
            && BytesAt(out.value, Offset(a, q),
                       Encode(SlowSample(a, f, m, k, c), a.Bytes()))
  {
    hide Data, Slowed, NewSize, Rewritten, Recode, Parse, GetFactor, Frames32, BytesAt, Encode, SlowSample, Offset;
    var a := Parse(s).value;
    FirstRun(s, SlowDown, f - 1, key);
    FactorKept(f);
    FrameSizes(a);
    SlowedData(a, f, m, k, c, p);
    RewrittenAt(a, NewSize(SlowDown, f, Frames32(a), a.FrameSize(), a.header.size),
        Slowed(Data(a), a.header.channels, f), p + k, c, q);
  }

  lemma {:induction false} RereadAt(fr: Frame, bytes: nat, c: nat)
    requires c < |fr|
    ensures Reread(fr, bytes)[c] == SampleOf(Encode(fr[c], bytes))
  {
    if c != 0 {
      RereadAt(fr[1..], bytes, c - 1);
    }
  }

  lemma {:induction false} RereadAllAt(frs: seq<Frame>, bytes: nat, i: nat, c: nat)
    requires i < |frs| && c < |frs[i]|
    ensures c < |RereadAll(frs, bytes)[i]|
    ensures RereadAll(frs, bytes)[i][c] == SampleOf(Encode(frs[i][c], bytes))
  {
    if i == 0 {
      RereadAt(frs[0], bytes, c);
    } else {
      RereadAllAt(frs[1..], bytes, i - 1, c);
    }
  }

  /** What the next reader makes of a slowed file. */
  lemma SlowedReread(a: Audio, f: nat)
    requires Roomy(a, f) && 1 <= f <= 512 && 1 <= Frames32(a)
    ensures var slow := Slowed(Data(a), a.header.channels, f);
            var size := NewSize(SlowDown, f, Frames32(a), a.FrameSize(), 0);
            var m := Middle(a, size, slow);
            ValidHeader(m.header) && Data(m) == RereadAll(slow, a.Bytes())
  {
    hide Frames, FrameBytes, Slowed, NewSize, RereadAll;
    CountIs(a);
    FrameSizes(a);
    var slow := Slowed(Data(a), a.header.channels, f);
    SlowedCount(Data(a), a.header.channels, f);
    SizeRegular(Frames32(a), f, a.FrameSize());
    FramesOfBytes(slow, a.header.channels, a.Bytes(), []);
    assert FrameBytes(slow, a.Bytes()) + [] == FrameBytes(slow, a.Bytes());
  }

  /** The same for the samples that are read back from the slowed file: they are those, unless
      they are 32 bits of ones. */
  lemma SlowReadsBack(s: seq<Byte>, f: nat, key: nat, m: nat, k: nat, c: nat, p: nat)
    requires Parse(s).Some? && Place(Parse(s).value, f, m, k, c) && p == m * f && Roomy(Parse(s).value, f)
    ensures var a := Parse(s).value;
            var out := Recode(SlowDown, f - 1, key, s);
            && out.Some? && Parse(out.value).Some? && ValidHeader(Parse(out.value).value.header)
            && var back, x := Data(Parse(out.value).value), SlowSample(a, f, m, k, c);
               p + k < |back| && c < |back[p + k]| && (back[p + k][c] == x <==> !(a.Bytes() == 4 && x == -1))
  {
    hide Data, Slowed, NewSize, Rewritten, Recode, Parse, GetFactor, SlowSample, SampleOf, Encode, RereadAll;
    var a := Parse(s).value;
    FirstRun(s, SlowDown, f - 1, key);
    FactorKept(f);
    FrameSizes(a);
    CountIs(a);
    SlowedData(a, f, m, k, c, p);
    var slow := Slowed(Data(a), a.header.channels, f);
    SameSize(SlowDown, f, Frames32(a), a.FrameSize(), a.header.size);
    ParseRewritten(a, NewSize(SlowDown, f, Frames32(a), a.FrameSize(), 0), slow);
    SlowedReread(a, f);
    RereadAllAt(slow, a.Bytes(), p + k, c);
    DecodeEncode(SlowSample(a, f, m, k, c), a.Bytes());
  }

  // ----- speeding up

  /** Frame m of a file sped up is frame m * f of the input. */
  lemma SpeedWrites(s: seq<Byte>, f: nat, key: nat, m: nat, c: nat, p: nat, q: nat)
    requires Parse(s).Some? && 1 <= f <= 512 && p == m * f && c < Parse(s).value.header.channels
    requires q == m * Parse(s).value.header.channels + c
    requires p < |Data(Parse(s).value)|
    ensures var a := Parse(s).value;
            var out := Recode(SpeedUp, f - 1, key, s);
            && out.Some? && ValidHeader(a.header) && 0 <= a.Bytes()
            && BytesAt(out.value, Offset(a, q), Encode(Data(a)[p][c], a.Bytes()))
  {
    hide Data, Sped, NewSize, Rewritten, Recode, Parse, GetFactor, Frames32, BytesAt, Encode, Offset;
    var a := Parse(s).value;
    FirstRun(s, SpeedUp, f - 1, key);
    FactorKept(f);
    FrameSizes(a);
    SpedShaped(Data(a), a.header.channels, 0, f);
    assert 0 * f == 0;
    SpedAt(Data(a), 0, f, m, p);
    RewrittenAt(a, NewSize(SpeedUp, f, Frames32(a), a.FrameSize(), a.header.size),
        Sped(Data(a), 0, f), m, c, q);
  }

  // ----- encryption

  /** Sample number p is written combined with the key word after 4 * p draws. */
  lemma CryptWrites(s: seq<Byte>, field: nat, key: nat, i: nat, c: nat, p: nat)
    requires Parse(s).Some? && i < |Data(Parse(s).value)| && c < Parse(s).value.header.channels
    requires p == i * Parse(s).value.header.channels + c
    ensures var a := Parse(s).value;
            var out := Recode(Crypt, field, key, s);
            && out.Some? && ValidHeader(a.header) && 0 <= a.Bytes()
            && BytesAt(out.value, Offset(a, p),
                       Encode(XorInt(Data(a)[i][c], KeyWord(AfterDraws(key, 4 * p))), a.Bytes()))
  {
    hide Data, Crypted, NewSize, Rewritten, Recode, Parse, GetFactor, Frames32, BytesAt, Encode, Offset, XorInt;
    var a := Parse(s).value;
    FirstRun(s, Crypt, field, key);
    FrameSizes(a);
    CryptedAt(Data(a), a.header.channels, key, i, c, p);
    RewrittenAt(a, NewSize(Crypt, GetFactor(field), Frames32(a), a.FrameSize(), a.header.size),
        Crypted(Data(a), key), i, c, p);
  }
}
