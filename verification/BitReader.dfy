/** The reader with its moving bit cursor, proved against the reading functions. */
module Reader {
  import opened Bits
  import opened Primitives

  /** Or-ing in one more bit extends the value of the bits read so far. */
  lemma BitStep(data: seq<Byte>, off: nat, i: nat)
    requires off + i < 8 * |data|
    ensures var s := StreamBits(data);
            BitOr(FromBits(s[off..off + i]), data[(off + i) / 8] / Pow2((off + i) % 8) % 2 * Pow2(i))
            == FromBits(s[off..off + i + 1])
  {
    var s := StreamBits(data);
    var low, bit := s[off..off + i], data[(off + i) / 8] / Pow2((off + i) % 8) % 2;
    assert bit == Bit(s[off + i]);
    FromBitsBound(low);
    OrDisjoint(FromBits(low), bit, i);
    FromBitsSnoc(low, s[off + i]);
    assert s[off..off + i + 1] == low + [s[off + i]];
  }

  lemma NoBits(s: seq<bool>, off: nat)
    requires off <= |s|
    ensures FromBits(s[off..off + 0]) == 0
  {
  }

  class BitReader {
    const data: seq<Byte>
    const bitLimit: nat
    var bitOffset: nat

    ghost predicate Valid()
      reads this
    {
      bitLimit == 8 * |data| && bitOffset <= bitLimit
    }

    ghost function Stream(): seq<bool> { StreamBits(data) }

    constructor (bytes: seq<Byte>)
      ensures Valid() && data == bytes && bitOffset == 0
    {
      data := bytes;
      bitLimit := 8 * |bytes|;
      bitOffset := 0;
    }

    method ReadBits(width: nat) returns (ok: bool, value: nat)
      requires Valid()
      modifies this`bitOffset
      ensures Valid()
      ensures var r := ReadFixed(Stream(), old(bitOffset), width);
              ok == r.Got? && (ok ==> value == r.value && bitOffset == r.off)
      ensures !ok ==> bitOffset == old(bitOffset)
    {
      hide FromBits, BitOr, StreamBits, BitAt;
      value := 0;
      if width > 64 || width > bitLimit - bitOffset {
        return false, value;
      }
      ghost var s := Stream();
      NoBits(s, bitOffset);
      var i := 0;
      while i < width
        invariant 0 <= i <= width && bitOffset == old(bitOffset)
        invariant value == FromBits(s[bitOffset..bitOffset + i])
      {
        var bit := data[(bitOffset + i) / 8] / Pow2((bitOffset + i) % 8) % 2;
        BitStep(data, bitOffset, i);
        value := BitOr(value, bit * Pow2(i));
        i := i + 1;
      }
      bitOffset := bitOffset + width;
      ok := true;
    }

    method ReadVbrBits(width: nat) returns (ok: bool, value: nat)
      requires Valid()
      modifies this`bitOffset
      ensures Valid()
      ensures var r := ReadVbr(Stream(), old(bitOffset), width);
              ok == r.Got? && (ok ==> value == r.value && bitOffset == r.off)
    {
      hide ReadFixed, BitOr, StreamBits, Shr, Shl64;
      value := 0;
      if width < 2 || width > 32 {
        return false, value;
      }
      var shift: nat := 0;
      while true
        invariant Valid()
        invariant ReadVbr(Stream(), old(bitOffset), width) == VbrLoop(Stream(), bitOffset, width, shift, value)
        decreases bitLimit - bitOffset
      {
        var got, piece := ReadBits(width);
        if !got {
          return false, value;
        }
        var payload := piece % Pow2(width - 1);
        if shift >= 64 || Shr(Shl64(payload, shift), shift) != payload {
          return false, value;
        }
        value := BitOr(value, Shl64(payload, shift));
        if piece / Pow2(width - 1) % 2 == 0 {
          return true, value;
        }
        shift := shift + width - 1;
      }
    }

    method Align32() returns (ok: bool)
      requires Valid()
      modifies this`bitOffset
      ensures Valid()
      ensures ok == (Aligned(old(bitOffset)) <= bitLimit)
      ensures bitOffset == if ok then Aligned(old(bitOffset)) else old(bitOffset)
    {
      var aligned := Aligned(bitOffset);
      if aligned > bitLimit {
        return false;
      }
      bitOffset := aligned;
      return true;
    }

    method SkipBits(bits: nat) returns (ok: bool)
      requires Valid()
      modifies this`bitOffset
      ensures Valid()
      ensures ok == (old(bitOffset) + bits <= bitLimit)
      ensures bitOffset == if ok then old(bitOffset) + bits else old(bitOffset)
    {
      if bits > bitLimit - bitOffset {
        return false;
      }
      bitOffset := bitOffset + bits;
      return true;
    }

    method Seek(target: nat) returns (ok: bool)
      requires Valid()
      modifies this`bitOffset
      ensures Valid()
      ensures ok == (target <= bitLimit)
      ensures bitOffset == if ok then target else old(bitOffset)
    {
      if target > bitLimit {
        return false;
      }
      bitOffset := target;
      return true;
    }
  }
}
