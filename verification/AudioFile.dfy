/** Whole files: header, annotation and frames, and what recoding with a preserved annotation
    makes of them.
 */
module AudioFile {
  import opened Options
  import opened Integers
  import opened AudioBytes
  import opened AudioFrames

  const AUDIO_MAGIC: nat := 0x2e736e64
  const ANNOTATION_MAX: nat := 1024
  const HEADER_SIZE: nat := 24

  datatype Header = Header(magic: nat, offset: nat, size: nat, encoding: nat, rate: nat, channels: nat)

  /** A file that was accepted; body is what follows the annotation. */
  datatype Audio = Audio(header: Header, annotation: seq<Byte>, body: seq<Byte>) {
    function Bytes(): int {
      header.encoding - 1
    }

    function FrameSize(): int {
      header.channels * Bytes()
    }
  }

  // ----- the header

  /** A header field; four bytes of ones, like a missing field, are read as 0. */
  function FieldAt(s: seq<Byte>): (x: nat)
    ensures x < TWO32
  {
    if |s| < 4 then 0 else IntOf(s[..4]) % TWO32
  }

  function HeaderAt(s: seq<Byte>): Header {
    var s1 := Rest(s, 4);
    var s2 := Rest(s1, 4);
    var s3 := Rest(s2, 4);
    var s4 := Rest(s3, 4);
    Header(FieldAt(s), FieldAt(s1), FieldAt(s2), FieldAt(s3), FieldAt(s4), FieldAt(Rest(s4, 4)))
  }

  function HeaderBytes(h: Header): (s: seq<Byte>)
    ensures |s| == HEADER_SIZE
  {
    Encode(h.magic, 4) +
        (Encode(h.offset, 4) +
            (Encode(h.size, 4) + (Encode(h.encoding, 4) + (Encode(h.rate, 4) + Encode(h.channels, 4)))))
  }

  /** The offset is compared with the size of a pointer, not with that of a header. */
  predicate ValidHeader(h: Header) {
    && h.magic == AUDIO_MAGIC
    && h.offset % 8 == 0 && 8 <= h.offset
    && 2 <= h.encoding <= 5
    && 1 <= h.channels <= 2
  }

  /** `read_annotation`: a byte of ones is taken for the end of the input. */
  predicate Annotates(s: seq<Byte>, size: nat) {
    size % 8 == 0 && size <= ANNOTATION_MAX && size <= |s| && 255 !in s[..size]
  }

  function Parse(s: seq<Byte>): Option<Audio> {
    var h := HeaderAt(s);
    var left := Rest(s, HEADER_SIZE);
    var size := (h.offset - HEADER_SIZE) % TWO32;
    if ValidHeader(h) && Annotates(left, size) then Some(Audio(h, left[..size], left[size..])) else None
  }

  /** What is known of an accepted file. */
  ghost predicate Accepted(a: Audio) {
    var h := a.header;
    && ValidHeader(h)
    && |a.annotation| == h.offset - HEADER_SIZE && Annotates(a.annotation, |a.annotation|)
    && h.size < TWO32 - 1 && h.rate < TWO32 - 1
  }

  lemma FieldNotOnes(s: seq<Byte>)
    ensures FieldAt(s) < TWO32 - 1
  {
    if |s| >= 4 {
      var head := s[..4];
      Powers();
      NatOfBound(head);
      OnesValue(head);
      hide NatOf;
      assert FieldAt(s) == if head == ONES then 0 else Wrap(NatOf(head)) % TWO32;
      assert Wrap(NatOf(head)) % TWO32 == NatOf(head);
    }
  }

  lemma HeaderRange(s: seq<Byte>)
    ensures var h := HeaderAt(s); h.offset < TWO32 - 1 && h.size < TWO32 - 1 && h.rate < TWO32 - 1
    ensures HeaderAt(s).channels != 0 ==> |s| >= HEADER_SIZE
  {
    hide FieldAt;
    var s2 := Rest(Rest(s, 4), 4);
    FieldNotOnes(Rest(s, 4));
    FieldNotOnes(s2);
    FieldNotOnes(Rest(Rest(s2, 4), 4));
    FieldMissing(Rest(Rest(Rest(s2, 4), 4), 4));
  }

  lemma ParseAccepts(s: seq<Byte>)
    requires Parse(s).Some?
    ensures Accepted(Parse(s).value)
    ensures |s| >= HEADER_SIZE && s == s[..HEADER_SIZE] + (Parse(s).value.annotation + Parse(s).value.body)
  {
    hide HeaderAt;
    HeaderRange(s);
    var a := Parse(s).value;
    var left := Rest(s, HEADER_SIZE);
    assert left == a.annotation + a.body;
    assert s == s[..HEADER_SIZE] + left;
    assert a.annotation == a.annotation[..|a.annotation|];
  }

  lemma FieldMissing(s: seq<Byte>)
    ensures FieldAt(s) != 0 ==> |s| >= 4
  {
  }

  // ----- what is written

  function Rewritten(a: Audio, size: int, frs: seq<Frame>): seq<Byte>
    requires 0 <= size && 0 <= a.Bytes()
  {
    HeaderBytes(a.header.(size := size)) + a.annotation + FrameBytes(frs, a.Bytes())
  }

  /** A size of all ones is seen as 0 by the next reader. */
  function Seen(x: nat): nat {
    if x == TWO32 - 1 then 0 else x
  }

  lemma FieldBack(x: nat, tail: seq<Byte>)
    requires x < TWO32
    ensures FieldAt(Encode(x, 4) + tail) == Seen(x) && Rest(Encode(x, 4) + tail, 4) == tail
  {
    hide NatOf, Encode, Pow256;
    var bytes := Encode(x, 4);
    assert (bytes + tail)[..4] == bytes;
    Powers();
    NatOfEncode(x, 4);
    OnesValue(bytes);
    assert Wrap(x) % TWO32 == x;
  }

  lemma HeaderBack(h: Header, tail: seq<Byte>)
    requires ValidHeader(h) && h.offset < TWO32 - 1 && h.size < TWO32 && h.rate < TWO32 - 1
    ensures HeaderAt(HeaderBytes(h) + tail) == h.(size := Seen(h.size))
    ensures Rest(HeaderBytes(h) + tail, HEADER_SIZE) == tail
  {
    hide FieldAt, Encode;
    var t5 := Encode(h.channels, 4) + tail;
    var t4 := Encode(h.rate, 4) + t5;
    var t3 := Encode(h.encoding, 4) + t4;
    var t2 := Encode(h.size, 4) + t3;
    var t1 := Encode(h.offset, 4) + t2;
    assert HeaderBytes(h) + tail == Encode(h.magic, 4) + t1;
    FieldBack(h.magic, t1);
    FieldBack(h.offset, t2);
    FieldBack(h.size, t3);
    FieldBack(h.encoding, t4);
    FieldBack(h.rate, t5);
    FieldBack(h.channels, tail);
  }

  /** What is written is accepted again. */
  lemma ParseRewritten(a: Audio, size: nat, frs: seq<Frame>)
    requires Accepted(a) && size < TWO32
    ensures Parse(Rewritten(a, size, frs)) ==
            Some(Audio(a.header.(size := Seen(size)), a.annotation, FrameBytes(frs, a.Bytes())))
  {
    hide HeaderAt, HeaderBytes, FrameBytes;
    var h := a.header.(size := size);
    var body := FrameBytes(frs, a.Bytes());
    var tail := a.annotation + body;
    var s := Rewritten(a, size, frs);
    Associates(HeaderBytes(h), a.annotation, body);
    HeaderBack(h, tail);
    var n := |a.annotation|;
    assert tail[..n] == a.annotation && tail[n..] == body && a.annotation[..n] == a.annotation;
  }

  // ----- recoding

  datatype Mode = SpeedUp | SlowDown | Crypt

  /** The factor in its field of the option word: one less than given on the command line, or
      512 if none was. */
  function FactorField(f: Option<nat>): int {
    match f
    case Some(n) => n - 1
    case None => 0x200
  }

  /** `getFactor` tests a bit that belongs to the factor. */
  function GetFactor(field: nat): (factor: int)
    ensures factor != 0
  {
    if field / 0x200 % 2 == 1 then -1 else field % 0x800 + 1
  }

  /** Of the factors that are accepted only those up to 512 come back. */
  lemma FactorKept(f: nat)
    requires 1 <= f <= 1024
    ensures GetFactor(FactorField(Some(f))) == f <==> f <= 512
    ensures GetFactor(FactorField(Some(f))) == if f <= 512 then f else GetFactor(FactorField(None))
    ensures GetFactor(FactorField(None)) == -1
  {
  }

  /** The number of frames, which goes through a signed integer. */
  function Count(size: nat, frameSize: int): int
    requires 0 < frameSize
  {
    Wrap(size / frameSize)
  }

  /** `setNewDataSize`. */
  function NewSize(mode: Mode, factor: int, frames: int, frameSize: int, size: nat): (r: nat)
    requires factor != 0 && size < TWO32
    ensures r < TWO32
  {
    match mode
    case SlowDown => ((frames + (factor - 1) * (frames - 1)) * frameSize) % TWO32
    case SpeedUp => ((CDiv(frames, factor) + 1) * frameSize) % TWO32
    case Crypt => size
  }

  function Transformed(mode: Mode, factor: int, key: nat, frs: seq<Frame>, channels: nat): seq<Frame>
    requires factor != 0 && Shaped(frs, channels)
  {
    match mode
    case SlowDown => Slowed(frs, channels, factor)
    case SpeedUp => Sped(frs, 0, factor)
    case Crypt => Crypted(frs, key)
  }

  /** The frames of an accepted file. */
  function Data(a: Audio): (frs: seq<Frame>)
    requires ValidHeader(a.header)
    ensures |frs| == Positive(Count(a.header.size, a.FrameSize())) && Shaped(frs, a.header.channels)
  {
    FrameSizes(a);
    Frames(a.body, a.header.channels, a.Bytes(), Positive(Count(a.header.size, a.FrameSize())))
  }

  lemma FrameSizes(a: Audio)
    requires ValidHeader(a.header)
    ensures 1 <= a.Bytes() <= 4 && a.FrameSize() in {1, 2, 3, 4, 6, 8}
    ensures a.FrameSize() == if a.header.channels == 1 then a.Bytes() else 2 * a.Bytes()
  {
  }

  function Recoded(mode: Mode, field: nat, key: nat, a: Audio): seq<Byte>
    requires ValidHeader(a.header) && a.header.size < TWO32
  {
    FrameSizes(a);
    var factor := GetFactor(field);
    var size := NewSize(mode, factor, Count(a.header.size, a.FrameSize()), a.FrameSize(), a.header.size);
    Rewritten(a, size, Transformed(mode, factor, key, Data(a), a.header.channels))
  }

  /** `recode` with a preserved annotation: the output, or None if the input is refused. */
  function Recode(mode: Mode, field: nat, key: nat, s: seq<Byte>): Option<seq<Byte>> {
    match Parse(s)
    case None => None
    case Some(a) => assert Accepted(a) by { ParseAccepts(s); } Some(Recoded(mode, field, key, a))
  }
}
