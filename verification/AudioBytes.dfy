/** Samples as bytes: big-endian decoding and encoding, sign extension, exclusive or, and the
    generator that encryption draws its key stream from.
 */
module AudioBytes {
  import opened Integers

  type Byte = b: nat | b < 256

  const TWO64: int := 0x1_0000_0000_0000_0000

  /** Division as C defines it, truncating toward zero, and its remainder. */
  function CDiv(a: int, b: int): int
    requires b != 0
  {
    if 0 <= a then (if 0 < b then a / b else -(a / -b))
    else if 0 < b then -(-a / b) else -a / -b
  }

  function CMod(a: int, b: int): int
    requires b != 0
  {
    a - b * CDiv(a, b)
  }

  function Pow256(n: nat): (p: nat)
    ensures 1 <= p
  {
    if n == 0 then 1 else 256 * Pow256(n - 1)
  }

  /** The value of bytes in big-endian order. */
  function NatOf(bytes: seq<Byte>): nat {
    if bytes == [] then 0 else NatOf(bytes[..|bytes| - 1]) * 256 + bytes[|bytes| - 1]
  }

  /** `putByteInt`: the n low bytes of x, the most significant first. */
  function Encode(x: int, n: nat): (bytes: seq<Byte>)
    ensures |bytes| == n
    decreases n
  {
    if n == 0 then [] else Encode(x / 256, n - 1) + [x % 256]
  }

  // ----- decoding and encoding

  lemma {:induction false} NatOfBound(bytes: seq<Byte>)
    ensures NatOf(bytes) < Pow256(|bytes|)
  {
    if bytes != [] {
      NatOfBound(bytes[..|bytes| - 1]);
    }
  }

  lemma DivModUnique(x: int, d: int, q: int, r: int)
    requires 0 <= r < d && x == q * d + r
    ensures x / d == q && x % d == r
  {
    var m := x / d - q;
    assert m * d == r - x % d by {
      assert x == x / d * d + x % d;
      assert m * d == x / d * d - q * d;
    }
    assert (1 <= m ==> d <= m * d) && (m <= -1 ==> m * d <= -d);
  }

  lemma AddMultiple(x: int, d: int, k: int)
    requires 0 < d
    ensures (x + k * d) % d == x % d
  {
    assert x + k * d == (x / d + k) * d + x % d;
    DivModUnique(x + k * d, d, x / d + k, x % d);
  }

  /** The remainder by a product, from that of the quotient by one factor. */
  lemma ModSplit(x: int, p: int, base: int)
    requires 1 <= p && 1 <= base
    ensures 1 <= base * p && x % (base * p) == x / base % p * base + x % base
  {
    var q := x / base;
    TwoDivisions(x, q, x % base, q / p, q % p, p, base);
    DivModUnique(x, base * p, q / p, q % p * base + x % base);
  }

  lemma TwoDivisions(x: int, q: int, r: int, m: int, s: int, p: int, base: int)
    requires x == q * base + r && 0 <= r < base && q == m * p + s && 0 <= s < p
    ensures x == m * (base * p) + (s * base + r) && 0 <= s * base + r < base * p
  {
    Distribute(m, p, base, s);
    assert (s + 1) * base <= p * base;
    assert 0 <= s * base;
  }

  lemma Distribute(m: int, p: int, base: int, s: int)
    ensures (m * p + s) * base == m * (base * p) + s * base
  {
    assert (m * p + s) * base == m * p * base + s * base;
    assert m * p * base == m * (p * base);
  }

  lemma DivDiv(x: int, a: int, b: int)
    requires 1 <= a && 1 <= b
    ensures 1 <= a * b && x / a / b == x / (a * b)
  {
    var q := x / a;
    TwoDivisions(x, q, x % a, q / b, q % b, b, a);
    DivModUnique(x, a * b, q / b, q % b * a + x % a);
  }

  lemma {:induction false} NatOfEncode(x: int, n: nat)
    ensures NatOf(Encode(x, n)) == x % Pow256(n)
    decreases n
  {
    if n != 0 {
      var bytes := Encode(x, n);
      assert bytes[..|bytes| - 1] == Encode(x / 256, n - 1);
      NatOfEncode(x / 256, n - 1);
      ModSplit(x, Pow256(n - 1), 256);
    }
  }

  lemma {:induction false} EncodeNatOf(bytes: seq<Byte>)
    ensures Encode(NatOf(bytes), |bytes|) == bytes
  {
    if bytes != [] {
      var init := bytes[..|bytes| - 1];
      EncodeNatOf(init);
      assert bytes == init + [bytes[|bytes| - 1]];
      assert NatOf(bytes) / 256 == NatOf(init) && NatOf(bytes) % 256 == bytes[|bytes| - 1];
    }
  }

  /** Only the low bytes of a value are encoded, and they are all of it that is. */
  lemma EncodeLow(x: int, y: int, n: nat)
    ensures Encode(x, n) == Encode(y, n) <==> x % Pow256(n) == y % Pow256(n)
  {
    NatOfEncode(x, n);
    NatOfEncode(y, n);
    EncodeNatOf(Encode(x, n));
    EncodeNatOf(Encode(y, n));
  }

  lemma Powers()
    ensures Pow256(0) == 1 && Pow256(1) == 0x100 && Pow256(2) == 0x1_0000 && Pow256(3) == 0x100_0000
    ensures Pow256(4) == TWO32
  {
  }

  const ONES: seq<Byte> := [255, 255, 255, 255]

  /** `getStdinInt`: the value of up to four bytes; four bytes of ones are taken for the end
      of the input. */
  function IntOf(bytes: seq<Byte>): int {
    if bytes == ONES then 0 else if |bytes| == 4 then Wrap(NatOf(bytes)) else NatOf(bytes)
  }

  /** A sample: the value of its bytes, with the sign extended. */
  function SampleOf(bytes: seq<Byte>): int {
    var v := IntOf(bytes);
    if |bytes| < 4 && v >= Pow256(|bytes|) / 2 then v - Pow256(|bytes|) else v
  }

  predicate InRange(x: int, n: nat) {
    -(Pow256(n) / 2) <= x < Pow256(n) / 2
  }

  lemma OnesValue(bytes: seq<Byte>)
    requires |bytes| == 4
    ensures NatOf(bytes) == TWO32 - 1 <==> bytes == ONES
  {
    assert NatOf(ONES) == TWO32 - 1 by {
      assert ONES[..3] == [255, 255, 255] && ONES[..3][..2] == [255, 255] && ONES[..3][..2][..1] == [255];
      assert NatOf([255]) == 255;
      assert NatOf([255, 255]) == 0xFFFF;
      assert NatOf([255, 255, 255]) == 0xFF_FFFF;
    }
    EncodeNatOf(bytes);
    EncodeNatOf(ONES);
  }

  /** What decoding yields: a value of the right size that agrees with the bytes, unless they
      are four bytes of ones. */
  lemma SampleIs(bytes: seq<Byte>)
    requires 1 <= |bytes| <= 4
    ensures InRange(SampleOf(bytes), |bytes|)
    ensures bytes != ONES ==> SampleOf(bytes) % Pow256(|bytes|) == NatOf(bytes)
    ensures bytes == ONES ==> SampleOf(bytes) == 0
    ensures |bytes| == 4 ==> SampleOf(bytes) != -1
  {
    Powers();
    NatOfBound(bytes);
    if |bytes| == 4 {
      OnesValue(bytes);
    } else {
      hide Pow256, NatOf;
      var v, p := NatOf(bytes), Pow256(|bytes|);
      DivModUnique(SampleOf(bytes), p, if v >= p / 2 then -1 else 0, v);
    }
  }

  lemma NoMultiple(k: int, p: int)
    requires -p < k * p < p
    ensures k == 0
  {
    assert (1 <= k ==> p <= k * p) && (k <= -1 ==> k * p <= -p);
  }

  lemma SameResidue(x: int, y: int, p: int)
    requires -p < x - y < p && x % p == y % p
    ensures x == y
  {
    var a, b := x / p, y / p;
    assert x == a * p + x % p && y == b * p + y % p;
    assert (a - b) * p == a * p - b * p;
    NoMultiple(a - b, p);
  }

  lemma SameInRange(x: int, y: int, n: nat)
    requires 1 <= n <= 4 && InRange(x, n) && InRange(y, n) && x % Pow256(n) == y % Pow256(n)
    ensures x == y
  {
    SameResidue(x, y, Pow256(n));
  }

  /** A value survives being written and read if and only if it fits in its bytes and is not
      the 32-bit value of which all bits are ones. */
  lemma DecodeEncode(x: int, n: nat)
    requires 1 <= n <= 4
    ensures SampleOf(Encode(x, n)) == x <==> InRange(x, n) && !(n == 4 && x == -1)
  {
    Powers();
    var bytes := Encode(x, n);
    SampleIs(bytes);
    NatOfEncode(x, n);
    if InRange(x, n) && !(n == 4 && x == -1) {
      if n == 4 {
        OnesValue(bytes);
      }
      SameInRange(SampleOf(bytes), x, n);
    }
  }

  /** Bytes survive being read and written if and only if they are not four bytes of ones. */
  lemma EncodeDecode(bytes: seq<Byte>)
    requires 1 <= |bytes| <= 4
    ensures Encode(SampleOf(bytes), |bytes|) == bytes <==> bytes != ONES
  {
    hide Encode, SampleOf, NatOf, Pow256;
    Powers();
    SampleIs(bytes);
    EncodeNatOf(bytes);
    EncodeLow(SampleOf(bytes), NatOf(bytes), |bytes|);
    NatOfBound(bytes);
    if bytes == ONES {
      OnesValue(ONES);
    }
    DivModUnique(NatOf(bytes), Pow256(|bytes|), 0, NatOf(bytes));
  }

  // ----- exclusive or

  function Pow2(n: nat): (p: nat)
    ensures 1 <= p
  {
    if n == 0 then 1 else 2 * Pow2(n - 1)
  }

  function LowBit(a: nat, b: nat): nat {
    if a % 2 == b % 2 then 0 else 1
  }

  /** Bit by bit. */
  function Xor(a: nat, b: nat): nat {
    if a == 0 && b == 0 then 0 else LowBit(a, b) + 2 * Xor(a / 2, b / 2)
  }

  lemma XorStep(a: nat, b: nat)
    ensures Xor(a, b) / 2 == Xor(a / 2, b / 2) && Xor(a, b) % 2 == LowBit(a, b)
  {
  }

  lemma Halves(a: nat, b: nat)
    requires a / 2 == b / 2 && a % 2 == b % 2
    ensures a == b
  {
  }

  lemma {:induction false} XorTwice(a: nat, b: nat)
    ensures Xor(Xor(a, b), b) == a
  {
    if a != 0 || b != 0 {
      XorTwice(a / 2, b / 2);
      hide Xor;
      XorStep(a, b);
      XorStep(Xor(a, b), b);
      Halves(Xor(Xor(a, b), b), a);
    }
  }

  lemma HalfOfMod(a: nat, p: nat)
    requires 1 <= p
    ensures a % (2 * p) / 2 == a / 2 % p && a % (2 * p) % 2 == a % 2
  {
    ModSplit(a, p, 2);
  }

  lemma {:induction false} XorMod(a: nat, b: nat, n: nat)
    ensures Xor(a, b) % Pow2(n) == Xor(a % Pow2(n), b % Pow2(n))
    decreases n
  {
    if n != 0 {
      XorMod(a / 2, b / 2, n - 1);
      hide Xor;
      HalfOfMod(a, Pow2(n - 1));
      HalfOfMod(b, Pow2(n - 1));
      HalfOfMod(Xor(a, b), Pow2(n - 1));
      XorStep(a, b);
      XorStep(a % Pow2(n), b % Pow2(n));
      Halves(Xor(a, b) % Pow2(n), Xor(a % Pow2(n), b % Pow2(n)));
    }
  }

  /** With all ones it is the complement. */
  lemma {:induction false} XorOnes(n: nat, b: nat)
    requires b < Pow2(n)
    ensures Xor(Pow2(n) - 1, b) == Pow2(n) - 1 - b
  {
    if n != 0 {
      XorOnes(n - 1, b / 2);
      XorStep(Pow2(n) - 1, b);
      hide Xor;
      assert (Pow2(n) - 1) / 2 == Pow2(n - 1) - 1 && (Pow2(n) - 1) % 2 == 1;
    }
  }

  lemma PowersOfTwo()
    ensures Pow2(8) == Pow256(1) && Pow2(16) == Pow256(2) && Pow2(24) == Pow256(3) && Pow2(32) == Pow256(4) == TWO32
  {
    assert Pow2(8) == 0x100;
    assert Pow2(16) == 0x1_0000;
    assert Pow2(24) == 0x100_0000;
  }

  lemma XorModBytes(a: nat, b: nat, n: nat)
    requires 1 <= n <= 4
    ensures Xor(a, b) % Pow256(n) == Xor(a % Pow256(n), b % Pow256(n))
  {
    hide *;
    PowersOfTwo();
    XorMod(a, b, 8 * n);
  }

  /** Exclusive or of 32-bit signed integers. */
  function XorInt(x: int, r: int): (z: int)
    ensures -TWO31 <= z < TWO31
  {
    Wrap(Xor(x % TWO32, r % TWO32))
  }

  lemma LowOfLow(x: int, n: nat)
    requires 1 <= n <= 4
    ensures x % TWO32 % Pow256(n) == x % Pow256(n) && Wrap(x) % Pow256(n) == x % Pow256(n)
  {
    Powers();
    hide Pow256;
    var p := Pow256(n);
    var c := if n == 1 then 0x100_0000 else if n == 2 then 0x1_0000 else if n == 3 then 0x100 else 1;
    assert c * p == TWO32;
    var q, w := x / TWO32, (x + TWO31) / TWO32;
    assert x % TWO32 == x + -q * TWO32 && Wrap(x) == x + -w * TWO32;
    Distribute(-q, c, p, 0);
    Distribute(-w, c, p, 0);
    AddMultiple(x, p, -q * c);
    AddMultiple(x, p, -w * c);
  }

  lemma XorIntLow(x: int, r: int, n: nat)
    requires 1 <= n <= 4
    ensures XorInt(x, r) % Pow256(n) == Xor(x % Pow256(n), r % Pow256(n))
  {
    LowOfLow(x, n);
    LowOfLow(r, n);
    LowOfLow(Xor(x % TWO32, r % TWO32), n);
    XorModBytes(x % TWO32, r % TWO32, n);
  }

  lemma WrapOnes(v: int)
    requires 0 <= v < TWO32
    ensures Wrap(v) == -1 <==> v == TWO32 - 1
  {
  }

  lemma Residue(x: int)
    requires InRange(x, 4)
    ensures x % TWO32 == if 0 <= x then x else x + TWO32
  {
    Powers();
  }

  /** All ones come out exactly if one operand is the complement of the other. */
  lemma XorIntOnes(x: int, r: int)
    requires InRange(x, 4) && InRange(r, 4)
    ensures XorInt(x, r) == -1 <==> x == -1 - r
  {
    Powers();
    PowersOfTwo();
    hide Xor, Pow2, Pow256, Wrap;
    Residue(x);
    Residue(r);
    var a, b := x % TWO32, r % TWO32;
    XorTwice(a, b);
    XorOnes(32, b);
    XorTwice(TWO32 - 1, b);
    XorLess(a, b);
    WrapOnes(Xor(a, b));
  }

  lemma XorLess(a: nat, b: nat)
    requires a < TWO32 && b < TWO32
    ensures Xor(a, b) < TWO32
  {
    PowersOfTwo();
    XorBound(a, b, 32);
  }

  lemma {:induction false} XorBound(a: nat, b: nat, n: nat)
    requires a < Pow2(n) && b < Pow2(n)
    ensures Xor(a, b) < Pow2(n)
    decreases n
  {
    if n != 0 {
      XorBound(a / 2, b / 2, n - 1);
    }
  }

  /** What was written does not look like the end of the input, so it is decrypted. */
  lemma XorBackLow(x: int, r: int, n: nat)
    requires 1 <= n <= 4 && Encode(XorInt(x, r), n) != ONES
    ensures Encode(XorInt(SampleOf(Encode(XorInt(x, r), n)), r), n) == Encode(x, n)
  {
    hide *;
    var y := XorInt(x, r);
    var z := SampleOf(Encode(y, n));
    SampleIs(Encode(y, n));
    NatOfEncode(y, n);
    XorIntLow(x, r, n);
    XorIntLow(z, r, n);
    EncodeLow(XorInt(z, r), x, n);
    XorTwice(x % Pow256(n), r % Pow256(n));
  }

  /** 32 bits of ones are read as 0, and decrypted to the key word itself. */
  lemma XorBackOnes(x: int, r: int)
    requires InRange(x, 4) && InRange(r, 4) && x == -1 - r
    ensures Encode(XorInt(SampleOf(ONES), r), 4) != Encode(x, 4)
  {
    SampleIs(ONES);
    Powers();
    hide Xor, Encode, Pow256;
    XorZero(r % TWO32);
    assert 0 % TWO32 == 0;
    LowOfLow(r % TWO32, 4);
    EncodeLow(XorInt(0, r), x, 4);
    Residue(x);
    Residue(r);
  }

  /** Encrypting a sample, writing it, reading it and decrypting it gives the bytes of the
      sample, if and only if it was not 32 bits of ones that were written. */
  lemma XorBack(x: int, r: int, n: nat)
    requires 1 <= n <= 4 && InRange(x, 4) && InRange(r, 4)
    ensures Encode(XorInt(SampleOf(Encode(XorInt(x, r), n)), r), n) == Encode(x, n) <==> !(n == 4 && x == -1 - r)
  {
    OnesWritten(XorInt(x, r), n);
    hide *;
    XorIntOnes(x, r);
    if Encode(XorInt(x, r), n) == ONES {
      XorBackOnes(x, r);
    } else {
      XorBackLow(x, r, n);
    }
  }

  lemma OnesWritten(y: int, n: nat)
    requires n <= 4 && -TWO31 <= y < TWO31
    ensures Encode(y, n) == ONES <==> n == 4 && y == -1
  {
    Powers();
    if n == 4 {
      OnesValue(Encode(y, 4));
      NatOfEncode(y, 4);
    }
  }

  lemma {:induction false} XorZero(b: nat)
    ensures Xor(0, b) == b
  {
    if b != 0 {
      XorZero(b / 2);
    }
  }

  // ----- the generator

  function Advance(next: nat): nat {
    (next * 1103515245 + 12345) % TWO64
  }

  /** `myrand`, of which only the upper 8 of 15 bits are used. */
  function Drawn(next: nat): nat {
    next / 65536 % TWO32 % 32768
  }

  function AfterDraws(next: nat, n: nat): nat
    decreases n
  {
    if n == 0 then next else AfterDraws(Advance(next), n - 1)
  }

  function KeyBytes(next: nat, n: nat): (bytes: seq<Byte>)
    ensures |bytes| == n
    decreases n
  {
    if n == 0 then [] else [Drawn(Advance(next)) / 128] + KeyBytes(Advance(next), n - 1)
  }

  /** `myrand32`: four such bytes, the first one most significant. */
  function KeyWord(next: nat): (word: int)
    ensures InRange(word, 4)
  {
    Powers();
    Wrap(NatOf(KeyBytes(next, 4)))
  }

  lemma {:induction false} DrawsSplit(next: nat, a: nat, b: nat)
    ensures AfterDraws(AfterDraws(next, a), b) == AfterDraws(next, a + b)
    decreases a
  {
    if a != 0 {
      DrawsSplit(Advance(next), a - 1, b);
    }
  }

  lemma NoDraws(next: nat)
    ensures AfterDraws(next, 0) == next
  {
  }
}
