/** The recoder as a program: streams, frame buffers, the state of the generator, and the loops
    over them.  Every method is tied to the function that it computes.
 */
module AudioProgram {
  import opened Options
  import opened Integers
  import opened AudioBytes
  import opened AudioInterpolation
  import opened AudioFrames
  import opened AudioFile

  // ----- facts about single steps

  /** Integers read from the input: 0 when the input ends before them. */
  function IntAt(s: seq<Byte>, n: nat): int {
    if |s| < n then 0 else IntOf(s[..n])
  }

  /** The integer x with its k-th byte set to ones. */
  function OrByte(x: int, k: nat): int {
    Wrap(x + (255 - x / Pow256(k) % 256) * Pow256(k))
  }

  lemma {:induction false} EncodeFront(x: int, n: nat)
    ensures Encode(x, n + 1) == [x / Pow256(n) % 256] + Encode(x, n)
    decreases n
  {
    if n != 0 {
      EncodeFront(x / 256, n - 1);
      DivDiv(x, 256, Pow256(n - 1));
    } else {
      assert Encode(x, 1) == Encode(x / 256, 0) + [x % 256];
    }
  }

  lemma NatOfSnoc(bytes: seq<Byte>, b: Byte)
    ensures NatOf(bytes + [b]) == NatOf(bytes) * 256 + b
  {
    assert (bytes + [b])[..|bytes|] == bytes;
  }

  lemma {:induction false} KeyBytesSnoc(next: nat, n: nat)
    ensures AfterDraws(next, n + 1) == Advance(AfterDraws(next, n))
    ensures KeyBytes(next, n + 1) == KeyBytes(next, n) + [Drawn(AfterDraws(next, n + 1)) / 128]
    decreases n
  {
    hide Advance, Drawn;
    if n != 0 {
      KeyBytesSnoc(Advance(next), n - 1);
    } else {
      assert KeyBytes(next, 1) == [Drawn(Advance(next)) / 128] + KeyBytes(Advance(next), 0);
      assert AfterDraws(next, 1) == AfterDraws(Advance(next), 0);
    }
  }

  lemma {:induction false} XorFrameSnoc(fr: Frame, x: int, next: nat)
    ensures XorFrame(fr + [x], next) == XorFrame(fr, next) + [XorInt(x, KeyWord(AfterDraws(next, 4 * |fr|)))]
    decreases |fr|
  {
    hide XorInt, KeyWord, AfterDraws;
    if fr != [] {
      XorFrameSnoc(fr[1..], x, AfterDraws(next, 4));
      Uncons(fr, [x]);
      DrawsSplit(next, 4, 4 * |fr[1..]|);
    } else {
      assert fr + [x] == [x];
      NoDraws(next);
    }
  }

  /** One more byte of a value that is read. */
  lemma ReadStep(s: seq<Byte>, c: nat, stdin: int)
    requires c < |s| && c < 4 && stdin == (if c == 0 then 0 else Wrap(NatOf(s[..c]) * 256))
    ensures stdin + s[c] == -1 <==> c == 3 && s[..4] == ONES
    ensures stdin + s[c] == (if c < 3 then NatOf(s[..c + 1]) else Wrap(NatOf(s[..c + 1])))
  {
    Powers();
    NatOfBound(s[..c]);
    hide NatOf;
    assert s[..c + 1] == s[..c] + [s[c]];
    NatOfSnoc(s[..c], s[c]);
    NoBytes();
    if c == 3 {
      OnesValue(s[..4]);
    }
    assert c == 0 ==> s[..c] == [];
  }

  lemma NoBytes()
    ensures NatOf([]) == 0
  {
  }

  class Recoder {
    const mode: Mode
    const field: nat
    const key: nat
    var input: seq<Byte>
    var output: seq<Byte>
    var next: nat

    constructor (mode: Mode, field: nat, key: nat, input: seq<Byte>)
      ensures this.mode == mode && this.field == field && this.key == key && this.input == input && output == []
      ensures next == 1
    {
      this.mode, this.field, this.key, this.input := mode, field, key, input;
      output, next := [], 1;
    }

    // ----- audioHelper.c

    /** -1 is the end of the input. */
    method GetChar() returns (c: int)
      modifies this`input
      ensures input == Rest(old(input), 1)
      ensures c == if old(input) == [] then -1 else old(input)[0]
    {
      if input == [] {
        return -1;
      }
      c := input[0];
      input := input[1..];
    }

    method GetStdinInt(n: nat) returns (stdin: int)
      requires 1 <= n <= 4
      modifies this`input
      ensures stdin == IntAt(old(input), n) && input == Rest(old(input), n)
    {
      hide NatOf, Wrap;
      ghost var s := input;
      stdin := 0;
      var i := n;
      while i > 0
        invariant 0 <= i <= n && n - i <= |s| && input == s[n - i..]
        invariant i > 0 ==> stdin == if i == n then 0 else Wrap(NatOf(s[..n - i]) * 256)
        invariant i == 0 ==> stdin == IntAt(s, n)
      {
        var c := GetChar();
        if c == -1 {
          return 0;
        }
        ReadStep(s, n - i, stdin);
        stdin := stdin + c;
        if stdin == -1 {
          return 0;
        }
        if i > 1 {
          SmallValue(s[..n - i + 1]);
          stdin := Wrap(stdin * 256);
        }
        i := i - 1;
      }
    }

    method SignExtend(v: int, bytes: nat) returns (i: int)
      requires 1 <= bytes <= 4 && -TWO31 <= v < TWO31 && (bytes < 4 ==> 0 <= v < Pow256(bytes))
      ensures i == if bytes < 4 && v >= Pow256(bytes) / 2 then v - Pow256(bytes) else v
    {
      Powers();
      hide OrByte;
      i := v;
      var bit := v / Pow256(bytes - 1) / 128 != 0;
      if bit {
        var k := 4;
        while k > bytes
          invariant bytes <= k <= 4
          invariant i == if k == 4 then v else v - Pow256(k)
        {
          ExtendStep(i, v, k, bytes);
          i := OrByte(i, k - 1);
          k := k - 1;
        }
      }
    }

    method PutChar(b: Byte)
      modifies this`output
      ensures output == old(output) + [b]
    {
      output := output + [b];
    }

    method PutByteInt(i: int, bytes: nat)
      modifies this`output
      ensures output == old(output) + Encode(i, bytes)
    {
      hide Pow256, Encode;
      var k := bytes;
      while k >= 1
        invariant 0 <= k <= bytes
        invariant output + Encode(i, k) == old(output) + Encode(i, bytes)
      {
        EncodeFront(i, k - 1);
        Associates(output, [i / Pow256(k - 1) % 256], Encode(i, k - 1));
        PutChar(i / Pow256(k - 1) % 256);
        k := k - 1;
      }
      assert output + Encode(i, 0) == output;
    }

    method PutCharInt(x: nat)
      modifies this`output
      ensures output == old(output) + Encode(x, 4)
    {
      hide Pow256, Encode, Wrap;
      var i := Wrap(x);
      LowOfLow(x, 4);
      EncodeLow(i, x, 4);
      var k := 1;
      while k <= 4
        invariant 1 <= k <= 5
        invariant output + Encode(i, 5 - k) == old(output) + Encode(i, 4)
      {
        EncodeFront(i, 4 - k);
        Associates(output, [i / Pow256(4 - k) % 256], Encode(i, 4 - k));
        PutChar(i / Pow256(4 - k) % 256);
        k := k + 1;
      }
      assert output + Encode(i, 0) == output;
    }

    // ----- audio.c

    method ReadField() returns (x: nat)
      modifies this`input
      ensures x == FieldAt(old(input)) && input == Rest(old(input), 4)
    {
      var v := GetStdinInt(4);
      x := v % TWO32;
    }

    method ReadHeader() returns (h: Header, ok: bool)
      modifies this`input
      ensures h == HeaderAt(old(input)) && input == Rest(old(input), HEADER_SIZE) && ok == ValidHeader(h)
    {
      hide FieldAt;
      var magic := ReadField();
      var offset := ReadField();
      var size := ReadField();
      var encoding := ReadField();
      var rate := ReadField();
      var channels := ReadField();
      h := Header(magic, offset, size, encoding, rate, channels);
      ok := h.magic == AUDIO_MAGIC && h.offset % 8 == 0 && 8 <= h.offset && 2 <= h.encoding <= 5
          && (h.channels == 1 || h.channels == 2);
    }

    method WriteHeader(h: Header)
      modifies this`output
      ensures output == old(output) + HeaderBytes(h)
    {
      hide Encode;
      PutCharInt(h.magic);
      PutCharInt(h.offset);
      PutCharInt(h.size);
      PutCharInt(h.encoding);
      PutCharInt(h.rate);
      PutCharInt(h.channels);
      assert output == old(output) + HeaderBytes(h);
    }

    method ReadAnnotation(ap: array<Byte>, size: nat) returns (ok: bool)
      requires ap.Length == ANNOTATION_MAX
      modifies this`input, ap
      ensures ok == Annotates(old(input), size)
      ensures ok ==> size <= ANNOTATION_MAX && size <= |old(input)|
      ensures ok ==> ap[..size] == old(input)[..size] && input == Rest(old(input), size)
    {
      if size % 8 != 0 || size > ANNOTATION_MAX {
        return false;
      }
      var i := 0;
      while i < size
        invariant 0 <= i <= size && i <= |old(input)| && input == old(input)[i..]
        invariant ap[..i] == old(input)[..i] && 255 !in old(input)[..i]
      {
        var c := GetChar();
        if c == -1 {
          return false;
        }
        ap[i] := c;
        if c == 255 {
          assert size <= |old(input)| ==> old(input)[..size][i] == 255;
          return false;
        }
        i := i + 1;
        assert old(input)[..i] == old(input)[..i - 1] + [c];
      }
      return true;
    }

    method WriteAnnotation(ap: array<Byte>, size: nat)
      requires size <= ap.Length
      modifies this`output
      ensures output == old(output) + ap[..size]
    {
      var i := 0;
      while i < size
        invariant 0 <= i <= size && output == old(output) + ap[..i]
      {
        PutChar(ap[i]);
        assert ap[..i + 1] == ap[..i] + [ap[i]];
        i := i + 1;
      }
    }

    method ReadFrame(fp: array<int>, channels: nat, bytes: nat)
      requires channels <= fp.Length && 1 <= bytes <= 4
      modifies this`input, fp
      ensures fp[..channels] == Samples(old(input), bytes, channels) && input == Rest(old(input), channels * bytes)
    {
      hide IntAt, Rest, Samples, SampleAt;
      ghost var s := input;
      var i := 0;
      SamplesStart(s, bytes);
      while i < channels
        invariant 0 <= i <= channels && input == Rest(s, i * bytes)
        invariant fp[..i] == Samples(s, bytes, i)
      {
        ghost var was := input;
        var v := GetStdinInt(bytes);
        IntRange(was, bytes);
        var x := SignExtend(v, bytes);
        SamplesSnoc(s, bytes, i);
        fp[i] := x;
        assert fp[..i + 1] == fp[..i] + [x];
        i := i + 1;
      }
    }

    method WriteFrame(fp: array<int>, channels: nat, bytes: nat)
      requires channels <= fp.Length
      modifies this`output
      ensures output == old(output) + SampleBytes(fp[..channels], bytes)
    {
      hide Encode;
      var i := 0;
      while i < channels
        invariant 0 <= i <= channels && output == old(output) + SampleBytes(fp[..i], bytes)
      {
        PutByteInt(fp[i], bytes);
        assert fp[..i + 1] == fp[..i] + [fp[i]];
        SampleBytesJoin(fp[..i], [fp[i]], bytes);
        Associates(old(output), SampleBytes(fp[..i], bytes), Encode(fp[i], bytes));
        assert SampleBytes([fp[i]], bytes) == Encode(fp[i], bytes) + SampleBytes([], bytes);
        i := i + 1;
      }
    }

    // ----- myrand.c

    method Seed(seed: nat)
      modifies this`next
      ensures next == seed
    {
      next := seed;
    }

    method MyRand() returns (r: nat)
      modifies this`next
      ensures next == Advance(old(next)) && r == Drawn(next) && r < 32768
    {
      next := (next * 1103515245 + 12345) % TWO64;
      r := next / 65536 % TWO32 % 32768;
    }

    method MyRand32() returns (word: int)
      modifies this`next
      ensures word == KeyWord(old(next)) && next == AfterDraws(old(next), 4)
    {
      hide Advance, Drawn, KeyBytes, NatOf, AfterDraws;
      var r := 0;
      var i := 0;
      NoDraws(next);
      NoBytes();
      assert KeyBytes(next, 0) == [];
      while i < 4
        invariant 0 <= i <= 4 && next == AfterDraws(old(next), i)
        invariant r == NatOf(KeyBytes(old(next), i))
      {
        KeyBytesSnoc(old(next), i);
        var v := MyRand();
        SmallValue(KeyBytes(old(next), i));
        NatOfSnoc(KeyBytes(old(next), i), v / 128);
        WordBound(KeyBytes(old(next), i + 1));
        r := (r * 256 + v / 128) % TWO32;
        i := i + 1;
      }
      word := Wrap(r);
    }

    // ----- transformations.c

    method SetNewDataSize(h: Header, frameSize: int, frames: int) returns (h': Header)
      requires h.size < TWO32
      ensures h' == h.(size := NewSize(mode, GetFactor(field), frames, frameSize, h.size))
    {
      var factor := GetFactor(field);
      h' := h;
      if mode == Mode.SlowDown {
        h' := h.(size := ((frames + (factor - 1) * (frames - 1)) * frameSize) % TWO32);
      } else if mode == Mode.SpeedUp {
        h' := h.(size := ((CDiv(frames, factor) + 1) * frameSize) % TWO32);
      }
    }

    method CryptFrame(h: Header, fp: array<int>)
      requires ValidHeader(h) && fp.Length == 8
      modifies this`input, this`output, this`next, fp
      ensures input == Rest(old(input), h.channels * (h.encoding - 1))
      ensures next == AfterDraws(old(next), 4 * h.channels)
      ensures output ==
              old(output) +
                  SampleBytes(XorFrame(Samples(old(input), h.encoding - 1, h.channels), old(next)), h.encoding - 1)
    {
      hide Samples, SampleBytes, AfterDraws, KeyWord, XorInt, Rest;
      var outputFrame := new int[8];
      ReadFrame(fp, h.channels, h.encoding - 1);
      var c := 0;
      NoDraws(next);
      while c < h.channels
        invariant 0 <= c <= h.channels && next == AfterDraws(old(next), 4 * c)
        invariant outputFrame[..c] == XorFrame(fp[..c], old(next))
        invariant fp[..h.channels] == Samples(old(input), h.encoding - 1, h.channels)
        invariant input == Rest(old(input), h.channels * (h.encoding - 1)) && output == old(output)
      {
        var word := MyRand32();
        XorFrameSnoc(fp[..c], fp[c], old(next));
        DrawsSplit(old(next), 4 * c, 4);
        outputFrame[c] := XorInt(fp[c], word);
        assert fp[..c + 1] == fp[..c] + [fp[c]];
        assert outputFrame[..c + 1] == outputFrame[..c] + [outputFrame[c]];
        c := c + 1;
      }
      WriteFrame(outputFrame, h.channels, h.encoding - 1);
    }

    method SpeedUp(h: Header, fp: array<int>, i: nat)
      requires ValidHeader(h) && fp.Length == 8
      modifies this`input, this`output, fp
      ensures input == Rest(old(input), h.channels * (h.encoding - 1))
      ensures output == old(output) +
                (if CMod(i, GetFactor(field)) != 0 then []
                 else SampleBytes(Samples(old(input), h.encoding - 1, h.channels), h.encoding - 1))
    {
      ReadFrame(fp, h.channels, h.encoding - 1);
      if CMod(i, GetFactor(field)) == 0 {
        WriteFrame(fp, h.channels, h.encoding - 1);
      }
    }

    method CopyFrame(from: array<int>, to: array<int>, channels: nat)
      requires channels <= from.Length && channels <= to.Length && from != to
      modifies from
      ensures from[..channels] == to[..channels]
    {
      var c := 0;
      while c < channels
        invariant 0 <= c <= channels && from[..c] == to[..c]
      {
        from[c] := to[c];
        assert from[..c + 1] == from[..c] + [from[c]] && to[..c + 1] == to[..c] + [to[c]];
        c := c + 1;
      }
    }

    /** Writes the frames that come between from and to. */
    method Insert(h: Header, from: array<int>, to: array<int>)
      requires ValidHeader(h) && from.Length == 8 && to.Length == 8
      modifies this`output
      ensures output ==
              old(output) +
                  FrameBytes(Inserted(from[..h.channels], to[..h.channels], 1, GetFactor(field)), h.encoding - 1)
    {
      hide Interpolate, FrameBytes, SampleBytes, GetFactor;
      var factor, bytes := GetFactor(field), h.encoding - 1;
      ghost var s, t := from[..h.channels], to[..h.channels];
      var outputFrame := new int[8];
      var k := 1;
      while k < factor
        invariant 1 <= k
        invariant output + FrameBytes(Inserted(s, t, k, factor), bytes) ==
                  old(output) + FrameBytes(Inserted(s, t, 1, factor), bytes)
        invariant from[..h.channels] == s && to[..h.channels] == t
        decreases factor - k
      {
        var c := 0;
        while c < h.channels
          invariant 0 <= c <= h.channels && from[..h.channels] == s && to[..h.channels] == t
          invariant forall b :: 0 <= b < c ==> outputFrame[b] == Interpolate(s[b], t[b], k, factor)
          invariant output + FrameBytes(Inserted(s, t, k, factor), bytes) ==
                    old(output) + FrameBytes(Inserted(s, t, 1, factor), bytes)
        {
          assert from[c] == s[c] && to[c] == t[c];
          outputFrame[c] := Interpolate(from[c], to[c], k, factor);
          c := c + 1;
        }
        assert outputFrame[..h.channels] == Mix(s, t, k, factor);
        FrameBytesCons(Mix(s, t, k, factor), Inserted(s, t, k + 1, factor), bytes);
        Associates(output, SampleBytes(Mix(s, t, k, factor), bytes), FrameBytes(Inserted(s, t, k + 1, factor), bytes));
        WriteFrame(outputFrame, h.channels, bytes);
        k := k + 1;
      }
      FrameBytesNone(bytes);
      assert output + [] == output;
    }

    method SlowDown(h: Header, from: array<int>, to: array<int>, i: nat, frames: int)
      requires ValidHeader(h) && from.Length == 8 && to.Length == 8 && from != to
      modifies this`input, this`output, from, to
      ensures var bytes, channels := h.encoding - 1, h.channels;
              var first := if i == 0 then Samples(old(input), bytes, channels) else old(from[..channels]);
              var left := if i == 0 then Rest(old(input), channels * bytes) else old(input);
              if i + 1 < frames then
                && input == Rest(left, channels * bytes)
                && from[..channels] == Samples(left, bytes, channels)
                && output == old(output) + SampleBytes(first, bytes) +
                             FrameBytes(Inserted(first, Samples(left, bytes, channels), 1, GetFactor(field)), bytes)
              else
                input == left && from[..channels] == first && output == old(output) + SampleBytes(first, bytes)
    {
      hide FrameBytes, SampleBytes, GetFactor, Rest, Samples, Inserted;
      if i == 0 {
        ReadFrame(from, h.channels, h.encoding - 1);
      }
      WriteFrame(from, h.channels, h.encoding - 1);
      if i + 1 < frames {
        ReadFrame(to, h.channels, h.encoding - 1);
        Insert(h, from, to);
        CopyFrame(from, to, h.channels);
      }
    }

    // ----- hw1.c

    /** The loop over the frames. */
    method RecodeFrames(h: Header, frames: int)
      requires ValidHeader(h)
      modifies this`input, this`output, this`next
      ensures var bytes := h.encoding - 1;
              var frs := Frames(old(input), h.channels, bytes, Positive(frames));
              output == old(output) + FrameBytes(Transformed(mode, GetFactor(field), old(next), frs, h.channels), bytes)
    {
      hide Pending, FrameBytes, SampleBytes, GetFactor, Rest, Samples, Inserted, Frames, Transformed, CMod, XorFrame,
        AfterDraws;
      var inputFrame, nextFrame := new int[8], new int[8];
      ghost var factor, n, channels, bytes := GetFactor(field), Positive(frames), h.channels, h.encoding - 1;
      ghost var target := output +
          FrameBytes(Pending(mode, factor, inputFrame[..channels], input, 0, n, next, bytes), bytes);
      PendingStart(mode, factor, inputFrame[..channels], input, n, next, bytes);
      var i := 0;
      while i < frames
        invariant 0 <= i <= n
        invariant output +
                  FrameBytes(Pending(mode, factor, inputFrame[..channels], input, i, n, next, bytes), bytes) == target
      {
        ghost var from, s, was, draws := inputFrame[..channels], input, output, next;
        if mode == Mode.SpeedUp {
          SpeedUp(h, inputFrame, i);
          PendingSpeed(factor, from, inputFrame[..channels], s, i, n, draws, bytes);
        } else if mode == Mode.SlowDown {
          SlowDown(h, inputFrame, nextFrame, i, frames);
          PendingSlow(factor, from, s, i, n, draws, bytes);
        } else {
          CryptFrame(h, inputFrame);
          PendingCrypt(factor, from, inputFrame[..channels], s, i, n, draws, bytes);
        }
        assert output +
            FrameBytes(Pending(mode, factor, inputFrame[..channels], input, i + 1, n, next, bytes), bytes) ==
               was + FrameBytes(Pending(mode, factor, from, s, i, n, draws, bytes), bytes);
        i := i + 1;
      }
      PendingEnd(mode, factor, inputFrame[..channels], input, n, next, bytes);
      assert output + [] == output;
    }

    /** With a preserved annotation. */
    method Run() returns (ok: bool)
      modifies this
      ensures ok == Recode(mode, field, key, old(input)).Some?
      ensures output == if ok then old(output) + Recode(mode, field, key, old(input)).value else old(output)
    {
      hide HeaderAt, HeaderBytes, FrameBytes, Transformed, NewSize, GetFactor, Frames, Annotates, Wrap, Shaped,
        Positive;
      var h, valid := ReadHeader();
      HeaderRange(old(input));
      if !valid {
        return false;
      }
      var annotation := new Byte[ANNOTATION_MAX];
      var size := (h.offset - HEADER_SIZE) % TWO32;
      var read := ReadAnnotation(annotation, size);
      if !read {
        return false;
      }
      ghost var a := Audio(h, annotation[..size], input);
      assert Parse(old(input)) == Some(a);
      ParseAccepts(old(input));
      FrameSizes(a);
      var frameSize := h.channels * (h.encoding - 1);
      var frames := Wrap(h.size / frameSize);
      var h' := SetNewDataSize(h, frameSize, frames);
      WriteHeader(h');
      WriteAnnotation(annotation, h'.offset - HEADER_SIZE);
      Seed(key);
      RecodeFrames(h', frames);
      assert output == old(output) + Recoded(mode, field, key, a);
      return true;
    }
  }

  // ----- what is still to be written

  /** The frames that the loop has yet to write when it comes to frame i of n, with from in its
      buffer and s unread. */
  ghost function Pending(mode: Mode, factor: int, from: Frame, s: seq<Byte>, i: nat, n: nat, next: nat,
                         bytes: nat): seq<Frame>
    requires factor != 0 && i <= n
  {
    match mode
    case SpeedUp => Sped(Frames(s, |from|, bytes, n - i), i, factor)
    case Crypt => Crypted(Frames(s, |from|, bytes, n - i), next)
    case SlowDown =>
      if i == 0 then Slowed(Frames(s, |from|, bytes, n), |from|, factor)
      else if i == n then []
      else SlowedFrom(from, Frames(s, |from|, bytes, n - i - 1), factor)
  }

  lemma PendingStart(mode: Mode, factor: int, from: Frame, s: seq<Byte>, n: nat, next: nat, bytes: nat)
    requires factor != 0
    ensures Pending(mode, factor, from, s, 0, n, next, bytes) ==
            Transformed(mode, factor, next, Frames(s, |from|, bytes, n), |from|)
  {
  }

  lemma PendingEnd(mode: Mode, factor: int, from: Frame, s: seq<Byte>, n: nat, next: nat, bytes: nat)
    requires factor != 0
    ensures FrameBytes(Pending(mode, factor, from, s, n, n, next, bytes), bytes) == []
  {
  }

  lemma PendingSpeed(factor: int, from: Frame, from': Frame, s: seq<Byte>, i: nat, n: nat, next: nat, bytes: nat)
    requires factor != 0 && i < n && |from'| == |from|
    ensures FrameBytes(Pending(SpeedUp, factor, from, s, i, n, next, bytes), bytes) ==
            (if CMod(i, factor) == 0 then SampleBytes(Samples(s, bytes, |from|), bytes) else []) +
            FrameBytes(Pending(SpeedUp, factor, from', Rest(s, |from| * bytes), i + 1, n, next, bytes), bytes)
  {
    hide CMod, FrameBytes, SampleBytes, Samples;
    var fr, frs := Samples(s, bytes, |from|), Frames(Rest(s, |from| * bytes), |from|, bytes, n - i - 1);
    SpedCons(fr, frs, i, factor);
    FrameBytesCons(fr, Sped(frs, i + 1, factor), bytes);
  }

  lemma PendingCrypt(factor: int, from: Frame, from': Frame, s: seq<Byte>, i: nat, n: nat, next: nat, bytes: nat)
    requires factor != 0 && i < n && |from'| == |from|
    ensures FrameBytes(Pending(Crypt, factor, from, s, i, n, next, bytes), bytes) ==
            SampleBytes(XorFrame(Samples(s, bytes, |from|), next), bytes) +
            FrameBytes(Pending(Crypt, factor, from', Rest(s, |from| * bytes), i + 1, n, AfterDraws(next, 4 * |from|),
                bytes), bytes)
  {
    hide FrameBytes, SampleBytes, Samples, XorFrame, AfterDraws;
    var fr, frs := Samples(s, bytes, |from|), Frames(Rest(s, |from| * bytes), |from|, bytes, n - i - 1);
    assert ([fr] + frs)[1..] == frs;
    FrameBytesCons(XorFrame(fr, next), Crypted(frs, AfterDraws(next, 4 * |from|)), bytes);
  }

  lemma PendingSlow(factor: int, from: Frame, s: seq<Byte>, i: nat, n: nat, next: nat, bytes: nat)
    requires factor != 0 && i < n
    ensures var first := if i == 0 then Samples(s, bytes, |from|) else from;
            var left := if i == 0 then Rest(s, |from| * bytes) else s;
            FrameBytes(Pending(SlowDown, factor, from, s, i, n, next, bytes), bytes) ==
            if i + 1 < n then
              var second := Samples(left, bytes, |from|);
              SampleBytes(first, bytes) + FrameBytes(Inserted(first, second, 1, factor), bytes) +
              FrameBytes(Pending(SlowDown, factor, second, Rest(left, |from| * bytes), i + 1, n, next, bytes), bytes)
            else
              SampleBytes(first, bytes) +
                  FrameBytes(Pending(SlowDown, factor, first, left, i + 1, n, next, bytes), bytes)
  {
    hide FrameBytes, SampleBytes, Samples, Inserted;
    var first := if i == 0 then Samples(s, bytes, |from|) else from;
    var left := if i == 0 then Rest(s, |from| * bytes) else s;
    var frs := Frames(left, |from|, bytes, n - i - 1);
    assert ([first] + frs)[1..] == frs;
    assert Pending(SlowDown, factor, from, s, i, n, next, bytes) == SlowedFrom(first, frs, factor);
    FrameBytesNone(bytes);
    if i + 1 < n {
      var second := Samples(left, bytes, |from|);
      var between, after := Inserted(first, second, 1, factor), SlowedFrom(second, frs[1..], factor);
      assert frs[1..] == Frames(Rest(left, |from| * bytes), |from|, bytes, n - i - 2);
      Associates([first], between, after);
      FrameBytesCons(first, between + after, bytes);
      FrameBytesJoin(between, after, bytes);
      Associates(SampleBytes(first, bytes), FrameBytes(between, bytes), FrameBytes(after, bytes));
    } else {
      assert [first] + [] == [first];
      FrameBytesCons(first, [], bytes);
    }
  }

  lemma FrameBytesCons(fr: Frame, frs: seq<Frame>, bytes: nat)
    ensures FrameBytes([fr] + frs, bytes) == SampleBytes(fr, bytes) + FrameBytes(frs, bytes)
  {
    Uncons([fr], frs);
    assert [fr][1..] + frs == frs;
  }

  lemma FrameBytesNone(bytes: nat)
    ensures FrameBytes([], bytes) == []
  {
  }

  lemma WordBound(bytes: seq<Byte>)
    requires |bytes| <= 4
    ensures NatOf(bytes) < TWO32
  {
    Powers();
    NatOfBound(bytes);
  }

  lemma IntRange(s: seq<Byte>, n: nat)
    requires 1 <= n <= 4
    ensures -TWO31 <= IntAt(s, n) < TWO31 && (n < 4 ==> 0 <= IntAt(s, n) < Pow256(n))
    ensures SampleAt(s, n) == if n < 4 && IntAt(s, n) >= Pow256(n) / 2 then IntAt(s, n) - Pow256(n) else IntAt(s, n)
  {
    Powers();
    if n <= |s| {
      NatOfBound(s[..n]);
    }
  }

  lemma SamplesStart(s: seq<Byte>, bytes: nat)
    ensures Samples(s, bytes, 0) == [] && Rest(s, 0 * bytes) == s
  {
  }

  lemma SamplesSnoc(s: seq<Byte>, bytes: nat, n: nat)
    ensures Samples(s, bytes, n + 1) == Samples(s, bytes, n) + [SampleAt(Rest(s, n * bytes), bytes)]
    ensures Rest(Rest(s, n * bytes), bytes) == Rest(s, (n + 1) * bytes)
  {
    SamplesJoin(s, bytes, n, 1);
    RestTwice(s, n * bytes, bytes);
    assert (n + 1) * bytes == n * bytes + bytes;
  }

  lemma SmallValue(bytes: seq<Byte>)
    requires |bytes| <= 3
    ensures NatOf(bytes) < 0x100_0000
  {
    Powers();
    NatOfBound(bytes);
  }

  lemma ExtendStep(i: int, v: int, k: nat, bytes: nat)
    requires 1 <= bytes < k <= 4 && 0 <= v < Pow256(bytes)
    requires i == if k == 4 then v else v - Pow256(k)
    ensures OrByte(i, k - 1) == v - Pow256(k - 1)
  {
    Powers();
    var p := Pow256(k - 1);
    hide Pow256;
    if k == 4 {
      DivModUnique(i, p, 0, v);
    } else {
      assert i == -256 * p + v;
      DivModUnique(i, p, -256, v);
    }
  }
}
