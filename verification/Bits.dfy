/** Little-endian bit arithmetic: the value of a run of bits, the bits of a value,
    and the packing of a bit sequence into the bytes the reader is given. */
module Bits {

  type Byte = b: nat | b < 256

  function Pow2(k: nat): (p: nat)
    ensures p >= 1
  {
    if k == 0 then 1 else 2 * Pow2(k - 1)
  }

  /** Two to the 64: the source keeps values in 64-bit words. */
  const WORD: nat := 0x1_0000_0000_0000_0000

  const U32: nat := 0x1_0000_0000

  function Bit(b: bool): nat { if b then 1 else 0 }

  /** The number whose binary digits are s, least significant first. */
  function FromBits(s: seq<bool>): nat {
    if s == [] then 0 else Bit(s[0]) + 2 * FromBits(s[1..])
  }

  /** The w low binary digits of v, least significant first. */
  function ToBits(v: nat, w: nat): (s: seq<bool>)
    ensures |s| == w
  {
    if w == 0 then [] else [v % 2 == 1] + ToBits(v / 2, w - 1)
  }

  /** Bit number i of the byte sequence, counting from the low bit of byte 0. */
  function BitAt(data: seq<Byte>, i: nat): bool
    requires i < 8 * |data|
  {
    (data[i / 8] / Pow2(i % 8)) % 2 == 1
  }

  function StreamBits(data: seq<Byte>): (s: seq<bool>)
    ensures |s| == 8 * |data|
    ensures forall i :: 0 <= i < |s| ==> s[i] == BitAt(data, i)
  {
    seq(8 * |data|, i requires 0 <= i < 8 * |data| => BitAt(data, i))
  }

  function Pack(s: seq<bool>): (data: seq<Byte>)
    requires |s| % 8 == 0
    ensures |data| == |s| / 8
  {
    seq(|s| / 8, i requires 0 <= i < |s| / 8 => PackByte(s, i))
  }

  function PackByte(s: seq<bool>, i: nat): Byte
    requires i < |s| / 8
  {
    FromBitsBound(s[8 * i..8 * i + 8]);
    assert Pow2(8) == 256 by { Pow2Values(); }
    FromBits(s[8 * i..8 * i + 8])
  }

  /** Bitwise or of two naturals, the source's operator |. */
  function BitOr(a: nat, b: nat): nat {
    if a == 0 then b
    else if b == 0 then a
    else (if a % 2 == 1 || b % 2 == 1 then 1 else 0) + 2 * BitOr(a / 2, b / 2)
  }

  // ----- powers of two

  lemma Pow2Values()
    ensures Pow2(1) == 2 && Pow2(3) == 8 && Pow2(5) == 32 && Pow2(6) == 64 && Pow2(8) == 256
    ensures Pow2(32) == 0x1_0000_0000
    ensures Pow2(64) == WORD
  {
    assert Pow2(4) == 16;
    assert Pow2(8) == 256;
    assert Pow2(12) == 4096;
    assert Pow2(16) == 65536;
    Pow2Add(16, 16);
    Pow2Add(32, 32);
  }

  /** Multiplication facts, stated without Pow2 so that they are checked on plain integers. */
  lemma MulMonotone(d: nat, q: int, q': int)
    requires q <= q'
    ensures d * q <= d * q'
  {
  }

  lemma MulDistribute(a: int, b: int, c: int)
    ensures a * (b + c) == a * b + a * c
  {
  }

  lemma {:induction false} Pow2Add(a: nat, b: nat)
    ensures Pow2(a + b) == Pow2(a) * Pow2(b)
  {
    if a == 0 {
    } else {
      Pow2Add(a - 1, b);
      assert Pow2(a + b) == 2 * Pow2(a - 1 + b);
      MulAssoc(2, Pow2(a - 1), Pow2(b));
    }
  }

  lemma MulAssoc(x: int, y: int, z: int)
    ensures (x * y) * z == x * (y * z)
  {
  }

  lemma {:induction false} Pow2Monotone(a: nat, b: nat)
    requires a <= b
    ensures Pow2(a) <= Pow2(b)
    decreases b
  {
    if a < b { Pow2Monotone(a, b - 1); }
  }

  // ----- values and bits

  lemma {:induction false} FromBitsBound(s: seq<bool>)
    ensures FromBits(s) < Pow2(|s|)
  {
    if s != [] { FromBitsBound(s[1..]); }
  }

  lemma {:induction false} FromToBits(v: nat, w: nat)
    requires v < Pow2(w)
    ensures FromBits(ToBits(v, w)) == v
  {
    if w > 0 {
      FromToBits(v / 2, w - 1);
      assert ToBits(v, w)[1..] == ToBits(v / 2, w - 1);
    }
  }

  lemma {:induction false} FromBitsConcat(a: seq<bool>, b: seq<bool>)
    ensures FromBits(a + b) == FromBits(a) + Pow2(|a|) * FromBits(b)
  {
    if a == [] {
      assert a + b == b;
    } else {
      assert (a + b)[1..] == a[1..] + b;
      FromBitsConcat(a[1..], b);
      MulAssoc(2, Pow2(|a| - 1), FromBits(b));
    }
  }

  lemma FromOneBit(b: bool)
    ensures FromBits([b]) == Bit(b)
  {
    assert [b][1..] == [];
  }

  lemma FromBitsSnoc(a: seq<bool>, b: bool)
    ensures FromBits(a + [b]) == FromBits(a) + Bit(b) * Pow2(|a|)
  {
    hide FromBits, Pow2;
    FromBitsConcat(a, [b]);
    FromOneBit(b);
  }

  /** Bit j of a value built from bits is bit j of the sequence. */
  lemma {:induction false} BitOfFromBits(s: seq<bool>, j: nat)
    requires j < |s|
    ensures (FromBits(s) / Pow2(j)) % 2 == Bit(s[j])
  {
    hide FromBits, Pow2;
    Unfolded(s, j);
    var v := FromBits(s[1..]);
    LowBit(Bit(s[0]), v);
    if j > 0 {
      BitOfFromBits(s[1..], j - 1);
      DivTwice(Bit(s[0]) + 2 * v, Pow2(j - 1));
    }
  }

  lemma Unfolded(s: seq<bool>, j: nat)
    requires s != []
    ensures FromBits(s) == Bit(s[0]) + 2 * FromBits(s[1..])
    ensures if j == 0 then Pow2(j) == 1 else Pow2(j) == 2 * Pow2(j - 1)
  {
  }

  lemma LowBit(b: nat, v: nat)
    requires b < 2
    ensures (b + 2 * v) / 1 % 2 == b && (b + 2 * v) / 2 == v
  {
  }

  lemma DivTwice(x: nat, p: nat)
    requires p > 0
    ensures x / (2 * p) == (x / 2) / p
  {
    var q, r := (x / 2) / p, (x / 2) % p;
    assert x == 2 * (x / 2) + x % 2;
    assert x / 2 == p * q + r;
    assert x == (2 * p) * q + (2 * r + x % 2) by { MulAssoc(2, p, q); }
    DivUnique(x, 2 * p, q, 2 * r + x % 2);
  }

  lemma DivUnique(x: int, d: nat, q: int, r: nat)
    requires d > 0 && r < d
    requires x == d * q + r
    ensures x / d == q && x % d == r
  {
    QuotientUnique(d, q, r, x / d, x % d);
  }

  lemma QuotientUnique(d: nat, q: int, r: int, q': int, r': int)
    requires 0 <= r < d && 0 <= r' < d
    requires d * q + r == d * q' + r'
    ensures q == q' && r == r'
  {
    if q < q' {
      MulGap(d, q, q');
    } else if q' < q {
      MulGap(d, q', q);
    }
  }

  lemma MulGap(d: nat, q: int, q': int)
    requires q < q'
    ensures d * q + d <= d * q'
  {
    var k := q' - q - 1;
    assert d * q' == d * q + d + d * k;
  }

  /** Packing loses nothing: the bits of the packed bytes are the original bits. */
  lemma PackRoundTrip(s: seq<bool>)
    requires |s| % 8 == 0
    ensures StreamBits(Pack(s)) == s
  {
    forall i | 0 <= i < |s|
      ensures StreamBits(Pack(s))[i] == s[i]
    {
      var q := i / 8;
      BitOfFromBits(s[8 * q..8 * q + 8], i % 8);
      assert s[8 * q..8 * q + 8][i % 8] == s[i];
    }
  }

  // ----- bitwise or

  /** Or-ing a shifted value above a smaller one is addition. */
  lemma {:induction false} OrDisjoint(a: nat, c: nat, k: nat)
    requires a < Pow2(k)
    ensures BitOr(a, c * Pow2(k)) == a + c * Pow2(k)
  {
    var b := c * Pow2(k);
    if k == 0 {
      assert a == 0;
    } else if a == 0 || b == 0 {
    } else {
      assert b == 2 * (c * Pow2(k - 1)) by { assert Pow2(k) == 2 * Pow2(k - 1); }
      assert b / 2 == c * Pow2(k - 1) && b % 2 == 0;
      OrDisjoint(a / 2, c, k - 1);
    }
  }
}
