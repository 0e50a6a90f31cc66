/** What bytes, bits and the key stream are, digit by digit. */
module AudioBits {
  import opened Integers
  import opened AudioBytes

  // ----- bytes

  /** Byte i of an encoded value, counted from the most significant one. */
  lemma {:induction false} EncodeAt(x: int, n: nat, i: nat)
    requires i < n
    ensures Encode(x, n)[i] == x / Pow256(n - 1 - i) % 256
    decreases n
  {
    if i < n - 1 {
      EncodeAt(x / 256, n - 1, i);
      DivDiv(x, 256, Pow256(n - 2 - i));
    }
  }

  /** The first byte weighs most. */
  lemma {:induction false} FrontWeighs(bytes: seq<Byte>)
    requires bytes != []
    ensures NatOf(bytes) == bytes[0] * Pow256(|bytes| - 1) + NatOf(bytes[1..])
  {
    var last := |bytes| - 1;
    if last != 0 {
      FrontWeighs(bytes[..last]);
      assert bytes[..last][1..] == bytes[1..][..last - 1];
      var p := Pow256(last - 1);
      assert bytes[0] * p * 256 == bytes[0] * (256 * p);
    }
  }

  /** Values as written in hexadecimal. */
  lemma BigEndian()
    ensures Encode(0x0102_0304, 4) == [1, 2, 3, 4] && NatOf([1, 2, 3, 4]) == 0x0102_0304
    ensures SampleOf([0x80]) == -128 && SampleOf([0x7f, 0xff]) == 32767 && SampleOf([0xff, 0xff, 0xfe]) == -2
  {
    hide NatOf, Encode, Pow256;
    Powers();
    FourBytes(1, 2, 3, 4);
    EncodeNatOf([1, 2, 3, 4]);
    FewBytes(0x80, 0, 0);
    FewBytes(0x7f, 0xff, 0);
    FewBytes(0xff, 0xff, 0xfe);
  }

  lemma FewBytes(a: Byte, b: Byte, c: Byte)
    ensures NatOf([a]) == a && NatOf([a, b]) == a * 256 + b && NatOf([a, b, c]) == (a * 256 + b) * 256 + c
  {
    assert [a, b, c][..2] == [a, b] && [a, b][..1] == [a];
  }

  // ----- bits

  /** Bit k of an exclusive or is set if and only if it is set in one operand only. */
  lemma {:induction false} XorBit(a: nat, b: nat, k: nat)
    ensures Xor(a, b) / Pow2(k) % 2 == if a / Pow2(k) % 2 == b / Pow2(k) % 2 then 0 else 1
    decreases k
  {
    XorStep(a, b);
    if k != 0 {
      XorBit(a / 2, b / 2, k - 1);
      DivDiv(a, 2, Pow2(k - 1));
      DivDiv(b, 2, Pow2(k - 1));
      DivDiv(Xor(a, b), 2, Pow2(k - 1));
    }
  }

  /** For signed integers the same holds of the 32 bits that represent them. */
  lemma XorIntIs(x: int, r: int)
    ensures XorInt(x, r) % TWO32 == Xor(x % TWO32, r % TWO32)
  {
    XorLess(x % TWO32, r % TWO32);
    var v := Xor(x % TWO32, r % TWO32);
    LowOfLow(v, 4);
    Powers();
  }

  // ----- the state of the generator

  function Pow(a: nat, n: nat): nat {
    if n == 0 then 1 else a * Pow(a, n - 1)
  }

  /** The sum of the powers of a below the n-th. */
  function Geometric(a: nat, n: nat): nat {
    if n == 0 then 0 else Geometric(a, n - 1) + Pow(a, n - 1)
  }

  lemma ModInside(p: int, y: int, z: int, m: int)
    requires 0 < m
    ensures (p * (y % m) + z) % m == (p * y + z) % m
  {
    var k := -(p * (y / m));
    assert y == y / m * m + y % m;
    assert p * y == p * (y / m * m) + p * (y % m);
    assert p * (y / m * m) == p * (y / m) * m;
    assert p * (y % m) + z == p * y + z + k * m;
    AddMultiple(p * y + z, m, k);
  }

  lemma {:induction false} DrawsAre(next: nat, n: nat)
    ensures 0 < n ==> AfterDraws(next, n) == (Pow(1103515245, n) * next + 12345 * Geometric(1103515245, n)) % TWO64
    decreases n
  {
    if n == 1 {
      assert AfterDraws(Advance(next), 0) == Advance(next);
      assert Pow(1103515245, 0) == 1;
    } else if n != 0 {
      var a, p, g := 1103515245, Pow(1103515245, n - 1), Geometric(1103515245, n - 1);
      DrawsAre(Advance(next), n - 1);
      ModInside(p, next * a + 12345, 12345 * g, TWO64);
      assert p * (next * a + 12345) + 12345 * g == a * p * next + 12345 * (g + p) by {
        assert p * (next * a) == a * p * next;
      }
    }
  }

  /** The state after n draws, in closed form. */
  lemma DrawsExactly(next: nat, n: nat)
    requires next < TWO64
    ensures AfterDraws(next, n) ==
            (Pow(1103515245, n) * next + 12345 * Geometric(1103515245, n)) % 0x1_0000_0000_0000_0000
  {
    DrawsAre(next, n);
  }

  // ----- the key stream

  lemma ModOfMod(x: nat, c: nat, d: nat)
    requires 1 <= c && 1 <= d
    ensures 1 <= c * d && x % (c * d) % d == x % d
  {
    ModSplit(x, c, d);
    assert d * c == c * d;
    AddMultiple(x % d, d, x / d % c);
    DivModUnique(x % d, d, 0, x % d);
  }

  lemma DivOfMod(x: nat, c: nat, d: nat)
    requires 1 <= c && 1 <= d
    ensures 1 <= d * c && x % (d * c) / d == x / d % c
  {
    ModSplit(x, c, d);
    DivModUnique(x % (d * c), d, x / d % c, x % d);
  }

  lemma DrawnBits(state: nat)
    ensures Drawn(state) / 128 == state / 0x80_0000 % 256
  {
    var u := state / 65536;
    ModOfMod(u, 0x2_0000, 32768);
    DivOfMod(u, 256, 128);
    DivDiv(state, 65536, 128);
  }

  /** Byte i of the key stream is bits 23 to 30 of the state after i + 1 draws. */
  lemma {:induction false} KeyBytesAt(next: nat, n: nat, i: nat)
    requires i < n
    ensures KeyBytes(next, n)[i] == AfterDraws(next, i + 1) / 0x80_0000 % 256
    decreases n
  {
    hide Advance, Drawn;
    DrawnBits(Advance(next));
    if i == 0 {
      NoDraws(Advance(next));
    } else {
      KeyBytesAt(Advance(next), n - 1, i - 1);
    }
  }

  /** The same for a key word, byte 0 being its most significant one. */
  lemma KeyWordAt(next: nat, i: nat)
    requires i < 4
    ensures KeyWord(next) / Pow256(3 - i) % 256 == AfterDraws(next, i + 1) / 0x80_0000 % 256
  {
    var bytes := KeyBytes(next, 4);
    hide KeyBytes, AfterDraws, Encode;
    EncodeAt(KeyWord(next), 4, i);
    LowOfLow(NatOf(bytes), 4);
    EncodeLow(KeyWord(next), NatOf(bytes), 4);
    EncodeNatOf(bytes);
    KeyBytesAt(next, 4, i);
  }

  lemma KeyCons(state: nat, n: nat, state': nat, b: Byte)
    requires Advance(state) == state' && Drawn(state') / 128 == b
    ensures KeyBytes(state, n + 1) == [b] + KeyBytes(state', n)
  {
  }

  lemma FirstBytes()
    ensures KeyBytes(1, 4) == [0x83, 0x2C, 0x4F, 0x88]
  {
    hide KeyBytes, Advance, Drawn;
    FirstDraws();
    DrawnBits(1103527590);
    DrawnBits(1217759518843121895);
    DrawnBits(15426401326682203284);
    DrawnBits(14214738562022873917);
    KeyCons(1, 3, 1103527590, 0x83);
    KeyCons(1103527590, 2, 1217759518843121895, 0x2C);
    KeyCons(1217759518843121895, 1, 15426401326682203284, 0x4F);
    KeyCons(15426401326682203284, 0, 14214738562022873917, 0x88);
    var none := KeyBytes(14214738562022873917, 0);
    assert none == [];
  }

  lemma FourBytes(a: Byte, b: Byte, c: Byte, d: Byte)
    ensures NatOf([a, b, c, d]) == a * 0x100_0000 + b * 0x1_0000 + c * 0x100 + d
  {
    var s := [a, b, c, d];
    assert s[..3] == [a, b, c] && s[..3][..2] == [a, b] && s[..3][..2][..1] == [a];
    assert NatOf([a]) == a;
    assert NatOf([a, b]) == a * 256 + b;
    assert NatOf([a, b, c]) == (a * 256 + b) * 256 + c;
  }

  /** The first key word for the key 1. */
  lemma FirstKeyWord()
    ensures KeyWord(1) == 0x832C_4F88 - 0x1_0000_0000
  {
    hide KeyBytes, NatOf;
    FirstBytes();
    FourBytes(0x83, 0x2C, 0x4F, 0x88);
  }

  lemma FirstDraws()
    ensures Advance(1) == 1103527590 && Advance(1103527590) == 1217759518843121895
    ensures Advance(1217759518843121895) == 15426401326682203284
    ensures Advance(15426401326682203284) == 14214738562022873917
  {
  }
}
