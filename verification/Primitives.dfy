/** The primitives of the LLVM bitstream: fixed-width and variable-width integers.
    Each reader is a function of the whole stream and a bit offset. */
module Primitives {
  import opened Options
  import opened Bits

  /** Result of a reading function: the value and the offset after it. */
  datatype Read<+T> = Bad | Got(value: T, off: nat)

  /** The bits e stand in the stream s at offset off. */
  ghost predicate At(s: seq<bool>, off: nat, e: seq<bool>) {
    off + |e| <= |s| && s[off..off + |e|] == e
  }

  lemma AtConcat(s: seq<bool>, off: nat, a: seq<bool>, b: seq<bool>)
    ensures At(s, off, a + b) <==> At(s, off, a) && At(s, off + |a|, b)
  {
    if off + |a + b| <= |s| {
      assert s[off..off + |a + b|] == s[off..off + |a|] + s[off + |a|..off + |a| + |b|];
      if At(s, off, a + b) {
        assert s[off..off + |a|] == (a + b)[..|a|];
        assert s[off + |a|..off + |a| + |b|] == (a + b)[|a|..];
      }
    }
  }

  // ----- fixed-width integers

  function ReadFixed(s: seq<bool>, off: nat, w: nat): (r: Read<nat>)
    ensures r.Got? ==> r.off == off + w <= |s|
  {
    if w > 64 || off + w > |s| then Bad else Got(FromBits(s[off..off + w]), off + w)
  }

  /** A value that fits its width is read back from its bits, wherever they stand. */
  lemma FixedRoundTrip(s: seq<bool>, off: nat, v: nat, w: nat)
    requires w <= 64 && v < Pow2(w)
    requires At(s, off, ToBits(v, w))
    ensures ReadFixed(s, off, w) == Got(v, off + w)
  {
    FromToBits(v, w);
  }

  // ----- alignment to 32 bits

  function Aligned(off: nat): (a: nat)
    ensures off <= a < off + 32 && a % 32 == 0
  {
    (off + 31) / 32 * 32
  }

  function Padding(off: nat): seq<bool> {
    ToBits(0, Aligned(off) - off)
  }

  // ----- variable-width integers

  /** The source's left shift in a 64-bit register. */
  function Shl64(x: nat, k: nat): nat { x * Pow2(k) % WORD }

  function Shr(x: nat, k: nat): nat { Quotient(x, Pow2(k)) }

  function Quotient(x: nat, d: nat): nat
    requires d > 0
  {
    x / d
  }

  function ReadVbr(s: seq<bool>, off: nat, w: nat): (r: Read<nat>)
    ensures r.Got? ==> off < r.off <= |s|
  {
    if w < 2 || w > 32 then Bad else VbrLoop(s, off, w, 0, 0)
  }

  function VbrLoop(s: seq<bool>, off: nat, w: nat, shift: nat, acc: nat): (r: Read<nat>)
    requires 2 <= w <= 32
    ensures r.Got? ==> off < r.off <= |s|
    decreases |s| - off
  {
    match ReadFixed(s, off, w)
    case Bad => Bad
    case Got(piece, next) =>
      var payload := piece % Pow2(w - 1);
      if shift >= 64 || Shr(Shl64(payload, shift), shift) != payload then Bad
      else
        var v := BitOr(acc, Shl64(payload, shift));
        if piece / Pow2(w - 1) % 2 == 0 then Got(v, next)
        else VbrLoop(s, next, w, shift + w - 1, v)
  }

  /** The payloads of the chunks up to the first one without a continue bit;
      None when the stream ends first. */
  function VbrChunks(s: seq<bool>, off: nat, w: nat): (r: Option<seq<nat>>)
    requires 2 <= w <= 32
    ensures r.Some? ==> r.value != []
    decreases |s| - off
  {
    if off + w > |s| then None
    else
      var payload := FromBits(s[off..off + w - 1]);
      if !s[off + w - 1] then Some([payload])
      else match VbrChunks(s, off + w, w)
           case None => None
           case Some(rest) => Some([payload] + rest)
  }

  /** The sum of chunk i times two to the i times (w - 1). */
  function ChunkValue(cs: seq<nat>, w: nat): nat
    requires w >= 1
  {
    if cs == [] then 0 else cs[0] + Pow2(w - 1) * ChunkValue(cs[1..], w)
  }

  /** On any bits at all, the reader succeeds exactly when the chunk list is complete, starts no
      chunk at bit 64 or above and has a 64-bit value; then the result is that exact sum. */
  lemma VbrExact(s: seq<bool>, off: nat, w: nat)
    requires 2 <= w <= 32
    ensures ReadVbr(s, off, w)
         == match VbrChunks(s, off, w)
            case None => Bad
            case Some(cs) =>
              if (|cs| - 1) * (w - 1) < 64 && ChunkValue(cs, w) < WORD
              then Got(ChunkValue(cs, w), off + w * |cs|)
              else Bad
  {
    VbrLoopExact(s, off, w, 0, 0);
    match VbrChunks(s, off, w)
    case None =>
    case Some(cs) =>
      AccumClosed(cs, w, 0, 0);
      LastShiftClosed(cs, w, 0);
      EndClosed(cs, w, off);
  }

  /** The same three quantities as the loop builds them, chunk by chunk. */
  function Accum(cs: seq<nat>, w: nat, shift: nat, acc: nat): nat
    requires w >= 1
  {
    if cs == [] then acc else Accum(cs[1..], w, shift + w - 1, acc + cs[0] * Pow2(shift))
  }

  function LastShift(cs: seq<nat>, w: nat, shift: nat): nat
    requires w >= 1
  {
    if |cs| <= 1 then shift else LastShift(cs[1..], w, shift + w - 1)
  }

  function End(cs: seq<nat>, w: nat, off: nat): nat {
    if cs == [] then off else End(cs[1..], w, off + w)
  }

  lemma {:induction false} AccumClosed(cs: seq<nat>, w: nat, shift: nat, acc: nat)
    requires w >= 1
    ensures Accum(cs, w, shift, acc) == acc + Pow2(shift) * ChunkValue(cs, w)
  {
    if cs != [] {
      AccumClosed(cs[1..], w, shift + w - 1, acc + cs[0] * Pow2(shift));
      Pow2Add(shift, w - 1);
      HornerStep(Pow2(shift), cs[0], Pow2(w - 1), ChunkValue(cs[1..], w));
    }
  }

  lemma {:induction false} LastShiftClosed(cs: seq<nat>, w: nat, shift: nat)
    requires w >= 1 && cs != []
    ensures LastShift(cs, w, shift) == shift + (|cs| - 1) * (w - 1)
  {
    if |cs| > 1 {
      LastShiftClosed(cs[1..], w, shift + w - 1);
      MulDistribute(w - 1, 1, |cs| - 2);
    }
  }

  lemma {:induction false} EndClosed(cs: seq<nat>, w: nat, off: nat)
    ensures End(cs, w, off) == off + w * |cs|
  {
    if cs != [] {
      EndClosed(cs[1..], w, off + w);
      MulDistribute(w, 1, |cs| - 1);
    }
  }

  lemma HornerStep(t: nat, p: nat, b: nat, v: nat)
    ensures t * (p + b * v) == p * t + (t * b) * v
  {
    MulDistribute(t, p, b * v);
    MulAssoc(t, b, v);
  }

  ghost predicate LoopAgrees(s: seq<bool>, off: nat, w: nat, shift: nat, acc: nat)
    requires 2 <= w <= 32
  {
    VbrLoop(s, off, w, shift, acc)
    == match VbrChunks(s, off, w)
       case None => Bad
       case Some(cs) =>
         if LastShift(cs, w, shift) < 64 && Accum(cs, w, shift, acc) < WORD
         then Got(Accum(cs, w, shift, acc), End(cs, w, off))
         else Bad
  }

  /** One round of the reader's loop below bit 64, in terms of the payload and the continue flag. */
  lemma VbrRound(s: seq<bool>, off: nat, w: nat, shift: nat, acc: nat)
    requires 2 <= w <= 32 && acc < Pow2(shift) && off + w <= |s| && shift < 64
    ensures var payload := FromBits(s[off..off + w - 1]);
            var v := acc + payload * Pow2(shift);
            && VbrLoop(s, off, w, shift, acc) ==
               (if payload * Pow2(shift) >= WORD then Bad
                else if s[off + w - 1] then VbrLoop(s, off + w, w, shift + w - 1, v)
                else Got(v, off + w))
            && v < Pow2(shift + w - 1)
            && (payload * Pow2(shift) < WORD ==> v < WORD)
  {
    hide BitOr, FromBits, Pow2;
    var payload := FromBits(s[off..off + w - 1]);
    PieceParts(s, off, w);
    ShiftCheck(payload, Pow2(shift), WORD);
    AccBound(acc, payload, shift, w - 1);
    if payload * Pow2(shift) < WORD {
      OrDisjoint(acc, payload, shift);
      AccFits(acc, payload, shift);
    }
  }

  lemma {:induction false} VbrLoopExact(s: seq<bool>, off: nat, w: nat, shift: nat, acc: nat)
    requires 2 <= w <= 32 && acc < Pow2(shift)
    ensures LoopAgrees(s, off, w, shift, acc)
    decreases |s| - off
  {
    if off + w > |s| {
    } else if shift >= 64 {
      match VbrChunks(s, off, w)
      case None =>
      case Some(cs) => LastShiftGrows(cs, w, shift);
    } else {
      VbrStepExact(s, off, w, shift, acc);
    }
  }

  lemma {:induction false} VbrStepExact(s: seq<bool>, off: nat, w: nat, shift: nat, acc: nat)
    requires 2 <= w <= 32 && acc < Pow2(shift) && off + w <= |s| && shift < 64
    ensures LoopAgrees(s, off, w, shift, acc)
    decreases |s| - off, 0
  {
    hide VbrLoop, FromBits, Pow2;
    var payload := FromBits(s[off..off + w - 1]);
    var v := acc + payload * Pow2(shift);
    VbrRound(s, off, w, shift, acc);
    if payload * Pow2(shift) >= WORD {
      match VbrChunks(s, off, w)
      case None =>
      case Some(cs) => AccumGrows(cs[1..], w, shift + w - 1, acc + cs[0] * Pow2(shift));
    } else if s[off + w - 1] {
      VbrLoopExact(s, off + w, w, shift + w - 1, v);
      match VbrChunks(s, off + w, w)
      case None =>
      case Some(rest) => assert ([payload] + rest)[1..] == rest;
    } else {
      assert [payload][1..] == [];
      assert Accum([payload], w, shift, acc) == Accum([], w, shift + w - 1, v) == v;
      assert End([payload], w, off) == End([], w, off + w) == off + w;
    }
  }

  lemma {:induction false} LastShiftGrows(cs: seq<nat>, w: nat, shift: nat)
    requires w >= 1
    ensures LastShift(cs, w, shift) >= shift
    decreases |cs|
  {
    if |cs| > 1 { LastShiftGrows(cs[1..], w, shift + w - 1); }
  }

  lemma {:induction false} AccumGrows(cs: seq<nat>, w: nat, shift: nat, acc: nat)
    requires w >= 1
    ensures Accum(cs, w, shift, acc) >= acc
    decreases |cs|
  {
    if cs != [] { AccumGrows(cs[1..], w, shift + w - 1, acc + cs[0] * Pow2(shift)); }
  }

  /** The low w - 1 bits of a piece are the payload, the top one the continue flag. */
  lemma PieceParts(s: seq<bool>, off: nat, w: nat)
    requires 2 <= w && off + w <= |s|
    ensures FromBits(s[off..off + w]) % Pow2(w - 1) == FromBits(s[off..off + w - 1])
    ensures FromBits(s[off..off + w]) / Pow2(w - 1) % 2 == Bit(s[off + w - 1])
    ensures FromBits(s[off..off + w - 1]) < Pow2(w - 1)
  {
    var low := s[off..off + w - 1];
    assert s[off..off + w] == low + [s[off + w - 1]];
    FromBitsSnoc(low, s[off + w - 1]);
    FromBitsBound(low);
    DivUnique(FromBits(s[off..off + w]), Pow2(w - 1), Bit(s[off + w - 1]), FromBits(low));
  }

  /** The source's test, shift left by t = 2^k in a word of m values, shift right and compare,
      detects exactly the overflow. */
  lemma ShiftCheck(p: nat, t: nat, m: nat)
    requires t > 0 && m > 0
    ensures p * t < m ==> p * t % m == p * t
    ensures (p * t % m) / t == p <==> p * t < m
  {
    if p * t < m {
      DivUnique(p * t, m, 0, p * t);
      DivUnique(p * t, t, p, 0);
    } else {
      var y := p * t % m;
      assert t * (y / t) <= y < p * t;
    }
  }

  lemma AccBound(acc: nat, p: nat, k: nat, n: nat)
    requires acc < Pow2(k) && p < Pow2(n)
    ensures acc + p * Pow2(k) < Pow2(k + n)
  {
    Pow2Add(k, n);
    MulGap(Pow2(k), p, Pow2(n));
  }

  lemma AccFits(acc: nat, p: nat, k: nat)
    requires k < 64 && acc < Pow2(k) && p * Pow2(k) < WORD
    ensures acc + p * Pow2(k) < WORD
  {
    hide Pow2;
    Pow2Add(k, 64 - k);
    Pow2Values();
    BelowMultiple(acc, p, Pow2(k), Pow2(64 - k));
  }

  lemma BelowMultiple(acc: nat, p: nat, t: nat, n: nat)
    requires acc < t && p * t < t * n
    ensures acc + p * t < t * n
  {
    if p >= n {
      MulMonotone(t, n, p);
    } else {
      MulGap(t, p, n);
    }
  }

  // ----- the encoder of the format and the round trip

  function EncVbr(v: nat, w: nat): (e: seq<bool>)
    requires w >= 2
    ensures |e| >= w
  {
    var p := Pow2(w - 1);
    assert p >= 2;
    if v < p then ToBits(v, w - 1) + [false]
    else
      VbrShrinks(v, p);
      ToBits(v % p, w - 1) + [true] + EncVbr(v / p, w)
  }

  lemma VbrShrinks(v: nat, p: nat)
    requires p >= 2 && v >= p
    ensures v / p < v
  {
    MulMonotone(v / p, 2, p);
  }

  /** The digits of v in base two to the w - 1, least significant first, no leading zeros. */
  function Digits(v: nat, w: nat): (ds: seq<nat>)
    requires w >= 2
    ensures ds != []
  {
    var p := Pow2(w - 1);
    assert p >= 2;
    if v < p then [v] else
      VbrShrinks(v, p);
      [v % p] + Digits(v / p, w)
  }

  lemma {:induction false} DigitsValue(v: nat, w: nat)
    requires w >= 2
    ensures ChunkValue(Digits(v, w), w) == v
  {
    hide Pow2;
    var p := Pow2(w - 1);
    BaseAtLeastTwo(w);
    if v < p {
      OneChunk(v, w);
    } else {
      VbrShrinks(v, p);
      DigitsValue(v / p, w);
      assert Digits(v, w)[1..] == Digits(v / p, w);
      Recomposed(v, p);
    }
  }

  lemma BaseAtLeastTwo(w: nat)
    requires w >= 2
    ensures Pow2(w - 1) >= 2
  {
  }

  lemma OneChunk(v: nat, w: nat)
    requires w >= 2
    ensures ChunkValue([v], w) == v
  {
    hide Pow2;
    assert [v][1..] == [];
  }

  lemma Recomposed(v: nat, p: nat)
    requires p > 0
    ensures v == v % p + p * (v / p)
  {
  }

  lemma {:induction false} DigitsCount(v: nat, w: nat)
    requires w >= 2
    ensures |Digits(v, w)| > 1 ==> v >= Pow2((|Digits(v, w)| - 1) * (w - 1))
    ensures |EncVbr(v, w)| == w * |Digits(v, w)|
  {
    var p := Pow2(w - 1);
    assert p >= 2;
    if v >= p {
      VbrShrinks(v, p);
      DigitsCount(v / p, w);
      var n := |Digits(v / p, w)|;
      MulDistribute(w, 1, n);
      DigitsNeeded(v, w, n);
    }
  }

  /** The chunks read at an encoding are the digits of the value. */
  lemma {:induction false} EncVbrChunks(s: seq<bool>, off: nat, v: nat, w: nat)
    requires 2 <= w <= 32 && At(s, off, EncVbr(v, w))
    ensures VbrChunks(s, off, w) == Some(Digits(v, w))
    decreases v
  {
    hide Pow2;
    var p := Pow2(w - 1);
    BaseAtLeastTwo(w);
    if v < p {
      ChunkParts(s, off, v, w, false);
    } else {
      VbrShrinks(v, p);
      AtConcat(s, off, ToBits(v % p, w - 1) + [true], EncVbr(v / p, w));
      ChunkParts(s, off, v % p, w, true);
      EncVbrChunks(s, off + w, v / p, w);
    }
  }

  lemma ChunkParts(s: seq<bool>, off: nat, d: nat, w: nat, more: bool)
    requires w >= 2 && d < Pow2(w - 1) && At(s, off, ToBits(d, w - 1) + [more])
    ensures off + w <= |s| && FromBits(s[off..off + w - 1]) == d && s[off + w - 1] == more
  {
    AtConcat(s, off, ToBits(d, w - 1), [more]);
    assert s[off + w - 1] == s[off + w - 1..off + w][0];
    FromToBits(d, w - 1);
  }

  lemma DigitsNeeded(v: nat, w: nat, n: nat)
    requires w >= 2 && n >= 1 && v >= Pow2(w - 1)
    requires n > 1 ==> v / Pow2(w - 1) >= Pow2((n - 1) * (w - 1))
    ensures v >= Pow2(n * (w - 1))
  {
    hide Pow2;
    OneMore(n, w - 1);
    if n > 1 {
      Pow2Add((n - 1) * (w - 1), w - 1);
      QuotientAtLeast(v, Pow2(w - 1), Pow2((n - 1) * (w - 1)));
    }
  }

  lemma OneMore(n: nat, d: nat)
    requires n >= 1
    ensures n * d == (n - 1) * d + d && (n == 1 ==> n * d == d)
  {
  }

  lemma QuotientAtLeast(v: nat, p: nat, q: nat)
    requires p > 0 && v / p >= q
    ensures v >= q * p
  {
    MulMonotone(p, q, v / p);
  }

  /** For every width from 2 to 32 and every 64-bit value: the encoding, at any bit offset of any
      stream, is read back as the value and the reader advances by exactly its length. */
  lemma VbrRoundTrip(s: seq<bool>, off: nat, v: nat, w: nat)
    requires 2 <= w <= 32 && v < WORD
    requires At(s, off, EncVbr(v, w))
    ensures ReadVbr(s, off, w) == Got(v, off + |EncVbr(v, w)|)
  {
    EncVbrChunks(s, off, v, w);
    VbrExact(s, off, w);
    var cs := Digits(v, w);
    DigitsValue(v, w);
    DigitsCount(v, w);
    if (|cs| - 1) * (w - 1) >= 64 {
      assert |cs| > 1;
      Pow2Values();
      Pow2Monotone(64, (|cs| - 1) * (w - 1));
    }
  }
}
