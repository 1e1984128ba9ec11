/** The parser reads back exactly what the writer wrote. */
module RoundTrip {
  import opened Options
  import opened Bits
  import opened Primitives
  import opened Bitcode
  import opened Writer
  import opened Structure

  // ----- abbreviation definitions

  lemma FlagRead(s: seq<bool>, off: nat, flag: bool)
    requires At(s, off, [flag])
    ensures ReadFixed(s, off, 1) == Got(Bit(flag), off + 1)
  {
    FromOneBit(flag);
  }

  lemma OpRoundTrip(s: seq<bool>, off: nat, op: AbbrevOp)
    requires OpFits(op) && At(s, off, EncOp(op))
    ensures ReadAbbrevOp(s, off) == Got(op, off + |EncOp(op)|)
  {
    hide ReadFixed, ReadVbr, EncVbr, At, ToBits;
    match op
    case Literal(v) =>
      AtConcat(s, off, [true], EncVbr(v, 8));
      FlagRead(s, off, true);
      VbrRoundTrip(s, off + 1, v, 8);
    case Fixed(w) => WidthOp(s, off, op, w, 1);
    case Vbr(w) => WidthOp(s, off, op, w, 2);
    case Array => EncodingOnly(s, off, 3);
    case Char6 => EncodingOnly(s, off, 4);
    case Blob => EncodingOnly(s, off, 5);
  }

  lemma WidthOp(s: seq<bool>, off: nat, op: AbbrevOp, w: nat, k: nat)
    requires w < WORD && (k == 1 || k == 2) && op == (if k == 1 then Fixed(w) else Vbr(w))
    requires At(s, off, [false] + (ToBits(k, 3) + EncVbr(w, 5)))
    ensures ReadAbbrevOp(s, off) == Got(op, off + 4 + |EncVbr(w, 5)|)
  {
    hide ReadFixed, ReadVbr, EncVbr, At, ToBits;
    EncodingRead(s, off, k, EncVbr(w, 5));
    VbrRoundTrip(s, off + 4, w, 5);
  }

  lemma EncodingRead(s: seq<bool>, off: nat, k: nat, rest: seq<bool>)
    requires k < 8 && At(s, off, [false] + (ToBits(k, 3) + rest))
    ensures ReadFixed(s, off, 1) == Got(0, off + 1) && ReadFixed(s, off + 1, 3) == Got(k, off + 4)
    ensures At(s, off + 4, rest)
  {
    Pow2Values();
    AtConcat(s, off, [false], ToBits(k, 3) + rest);
    AtConcat(s, off + 1, ToBits(k, 3), rest);
    FlagRead(s, off, false);
    FixedRoundTrip(s, off + 1, k, 3);
  }

  lemma EncodingOnly(s: seq<bool>, off: nat, k: nat)
    requires k < 8 && At(s, off, [false] + ToBits(k, 3))
    ensures ReadFixed(s, off, 1) == Got(0, off + 1) && ReadFixed(s, off + 1, 3) == Got(k, off + 4)
  {
    assert ToBits(k, 3) + [] == ToBits(k, 3);
    EncodingRead(s, off, k, []);
  }

  lemma {:induction false} OpsRoundTrip(s: seq<bool>, off: nat, a: Abbrev, acc: Abbrev)
    requires (forall i :: 0 <= i < |a| ==> OpFits(a[i])) && At(s, off, EncOps(a))
    ensures ReadAbbrevOps(s, off, |a|, acc) == Got(acc + a, off + |EncOps(a)|)
    decreases |a|
  {
    hide ReadAbbrevOp, EncOp, At;
    if a == [] {
      assert acc + a == acc;
    } else {
      AtConcat(s, off, EncOp(a[0]), EncOps(a[1..]));
      OpRoundTrip(s, off, a[0]);
      OpsRoundTrip(s, off + |EncOp(a[0])|, a[1..], acc + [a[0]]);
      assert acc + [a[0]] + a[1..] == acc + a;
    }
  }

  lemma AbbrevRoundTrip(s: seq<bool>, off: nat, a: Abbrev)
    requires AbbrevFits(a) && At(s, off, EncAbbrev(a))
    ensures ReadAbbrev(s, off) == Got(a, off + |EncAbbrev(a)|)
  {
    hide ReadVbr, EncVbr, EncOps, ReadAbbrevOps, At;
    AtConcat(s, off, EncVbr(|a|, 5), EncOps(a));
    VbrRoundTrip(s, off, |a|, 5);
    OpsRoundTrip(s, off + |EncVbr(|a|, 5)|, a, []);
    assert [] + a == a;
  }

  // ----- records

  lemma ScalarRoundTrip(s: seq<bool>, off: nat, op: AbbrevOp, v: nat)
    requires ScalarFits(op, v) && At(s, off, EncScalar(op, v))
    ensures ReadScalar(s, off, op) == Got(v, off + |EncScalar(op, v)|)
  {
    hide ReadFixed, ReadVbr, EncVbr, ToBits, At, Pow2;
    Pow2Values();
    match op
    case Literal(_) =>
    case Fixed(w) => FixedRoundTrip(s, off, v, w);
    case Vbr(w) => VbrRoundTrip(s, off, v, w);
    case Char6 => FixedRoundTrip(s, off, v, 6);
  }

  lemma {:induction false} ItemsRoundTrip(s: seq<bool>, off: nat, op: AbbrevOp, vs: seq<nat>, acc: seq<nat>)
    requires AllFit(op, vs) && At(s, off, EncItems(op, vs))
    ensures ReadArray(s, off, op, |vs|, acc) == Got(acc + vs, off + |EncItems(op, vs)|)
    decreases |vs|
  {
    hide ReadScalar, EncScalar, ScalarFits, At;
    if vs == [] {
      assert acc + vs == acc;
    } else {
      AtConcat(s, off, EncScalar(op, vs[0]), EncItems(op, vs[1..]));
      ScalarRoundTrip(s, off, op, vs[0]);
      ItemsRoundTrip(s, off + |EncScalar(op, vs[0])|, op, vs[1..], acc + [vs[0]]);
      Assoc(acc, [vs[0]], vs[1..]);
      assert [vs[0]] + vs[1..] == vs;
    }
  }

  lemma BlobRoundTrip(s: seq<bool>, off: nat, bits: seq<bool>)
    requires BlobFits(bits) && At(s, off, EncBlob(off, bits))
    ensures ReadBlob(s, off) == Got(|bits| / 8, off + |EncBlob(off, bits)|)
  {
    hide ReadVbr, EncVbr, Aligned, Padding, At;
    var len := EncVbr(|bits| / 8, 6);
    var pad := Padding(off + |len|);
    var end := off + |len| + |pad| + |bits|;
    AtConcat(s, off, len, pad + (bits + Padding(end)));
    AtConcat(s, off + |len|, pad, bits + Padding(end));
    AtConcat(s, off + |len| + |pad|, bits, Padding(end));
    VbrRoundTrip(s, off, |bits| / 8, 6);
    PaddingLength(off + |len|);
    PaddingLength(end);
    AtEnd(s, end, Padding(end));
  }

  lemma PaddingLength(off: nat)
    ensures off + |Padding(off)| == Aligned(off)
  {
  }

  lemma {:induction false} FieldsRoundTrip(
    s: seq<bool>, off: nat, ops: Abbrev, values: seq<nat>, blob: Option<seq<bool>>, acc: seq<nat>)
    requires Fits(ops, values, blob) && At(s, off, EncFields(off, ops, values, blob))
    ensures ReadFields(s, off, ops, acc, 0)
         == Got(Rec(acc + values, if blob.Some? then 1 else 0, true), off + |EncFields(off, ops, values, blob)|)
    decreases |ops|
  {
    hide ReadFields, ReadArray, ReadScalar, ReadBlob, ReadVbr, EncVbr, EncScalar, EncItems, EncBlob, ScalarFits, At;
    if ops == [] {
      FieldsNone(s, off, acc, 0);
      assert acc + values == acc;
    } else if ops[0].Array? {
      AtConcat(s, off, EncVbr(|values|, 6), EncItems(ops[1], values));
      VbrRoundTrip(s, off, |values|, 6);
      var o1 := off + |EncVbr(|values|, 6)|;
      ItemsRoundTrip(s, o1, ops[1], values, acc);
      FieldsArray(s, off, ops, acc, 0);
      assert ops[2..] == [];
      FieldsNone(s, o1 + |EncItems(ops[1], values)|, acc + values, 0);
    } else if ops[0].Blob? {
      BlobRoundTrip(s, off, blob.value);
      FieldsBlob(s, off, ops, acc, 0);
      assert ops[1..] == [] && acc + values == acc;
      FieldsNone(s, off + |EncBlob(off, blob.value)|, acc, 1);
    } else {
      var e := EncScalar(ops[0], values[0]);
      AtConcat(s, off, e, EncFields(off + |e|, ops[1..], values[1..], blob));
      ScalarRoundTrip(s, off, ops[0], values[0]);
      FieldsScalar(s, off, ops, acc, 0);
      FieldsRoundTrip(s, off + |e|, ops[1..], values[1..], blob, acc + [values[0]]);
      Assoc(acc, [values[0]], values[1..]);
      assert [values[0]] + values[1..] == values;
    }
  }

  lemma PlainRoundTrip(s: seq<bool>, off: nat, values: seq<nat>)
    requires PlainFits(values) && At(s, off, EncPlain(values))
    ensures ReadUnabbreviated(s, off) == Got(Rec(values, 0, false), off + |EncPlain(values)|)
  {
    hide ReadVbr, EncVbr, EncItems, ReadArray, At;
    assert ScalarFits(Vbr(6), values[0]);
    var code, count, rest := EncVbr(values[0], 6), EncVbr(|values| - 1, 6), EncItems(Vbr(6), values[1..]);
    AtConcat(s, off, code, count + rest);
    AtConcat(s, off + |code|, count, rest);
    VbrRoundTrip(s, off, values[0], 6);
    VbrRoundTrip(s, off + |code|, |values| - 1, 6);
    ItemsRoundTrip(s, off + |code| + |count|, Vbr(6), values[1..], [values[0]]);
    assert [values[0]] + values[1..] == values;
  }

  // ----- elements

  /** What the lexer must report for an element that is not a nested block. */
  function Expected(it: Item): Lexeme
    requires !it.Child?
  {
    if it.Define? then LDefine(it.abbrev) else LRecord(it.rec)
  }

  lemma IdRead(s: seq<bool>, off: nat, c: Scope, n: nat, rest: seq<bool>)
    requires IdFits(c, n) && At(s, off, ToBits(n, c.width) + rest)
    ensures ReadFixed(s, off, c.width) == Got(n, off + c.width) && At(s, off + c.width, rest)
  {
    AtConcat(s, off, ToBits(n, c.width), rest);
    FixedRoundTrip(s, off, n, c.width);
  }

  /** A plain record reads the same whatever abbreviations are in force. */
  lemma WriteLexed(
    s: seq<bool>, off: nat, c: Scope, reg: Registry, h: History, values: seq<nat>, blob: Option<seq<bool>>,
    via: Option<nat>, abbrevs: seq<Abbrev>)
    requires var p := EncWrite(off, c, reg, h, values, blob, via); p.Some? && At(s, off, p.value.bits)
    requires via.Some? ==> abbrevs == Available(c, h)
    ensures var p := EncWrite(off, c, reg, h, values, blob, via).value;
            p.item.Record? && Lex(s, off, c.width, abbrevs) == Got(Expected(p.item), off + |p.bits|)
  {
    hide ReadFixed, ReadFields, ReadUnabbreviated, EncFields, EncPlain, Fits, PlainFits, At, ToBits, Pow2;
    match via
    case None =>
      IdRead(s, off, c, UNABBREV_RECORD, EncPlain(values));
      PlainRoundTrip(s, off + c.width, values);
    case Some(k) =>
      var a := Available(c, h)[k];
      IdRead(s, off, c, k + FIRST_APPLICATION_ABBREV, EncFields(off + c.width, a, values, blob));
      FieldsRoundTrip(s, off + c.width, a, values, blob, []);
      assert [] + values == values;
  }

  /** The same logical record, written plainly or through any matching abbreviation, at any place
      of any streams, is read back as the same values: same code, same operand count. */
  lemma AbbreviationKeepsMeaning(
    s: seq<bool>, off: nat, t: seq<bool>, off': nat, c: Scope, reg: Registry, h: History, values: seq<nat>, k: nat)
    requires var p := EncWrite(off, c, reg, h, values, None, None); p.Some? && At(s, off, p.value.bits)
    requires var q := EncWrite(off', c, reg, h, values, None, Some(k)); q.Some? && At(t, off', q.value.bits)
    ensures var plain, short := Lex(s, off, c.width, Available(c, h)), Lex(t, off', c.width, Available(c, h));
            && plain.Got? && short.Got? && plain.value.LRecord? && short.value.LRecord?
            && plain.value.rec.values == short.value.rec.values == values
            && var a, b := Summary(c.id, plain.value.rec), Summary(c.id, short.value.rec);
               a.code == b.code == values[0] % U32 && a.operandCount == b.operandCount == |values| - 1
  {
    hide Lex, Fits, PlainFits, EncFields, EncPlain, At, Summary;
    WriteLexed(s, off, c, reg, h, values, None, None, Available(c, h));
    WriteLexed(t, off', c, reg, h, values, None, Some(k), Available(c, h));
    SummaryOf(c.id, values, 0, false);
    SummaryOf(c.id, values, 0, true);
  }

  lemma SummaryOf(id: nat, values: seq<nat>, blobs: nat, abbreviated: bool)
    requires values != [] && |values| + blobs < U32 && blobs <= 1 && (!abbreviated ==> blobs == 0)
    ensures Summary(id, Rec(values, blobs, abbreviated))
         == RecordInfo(id, values[0] % U32, |values| - 1 + blobs, abbreviated)
  {
  }

  lemma DefineLexed(
    s: seq<bool>, off: nat, c: Scope, reg: Registry, h: History, a: Abbrev, abbrevs: seq<Abbrev>)
    requires var p := EncDefine(c, reg, h, a); p.Some? && At(s, off, p.value.bits)
    ensures var p := EncDefine(c, reg, h, a).value;
            Lex(s, off, c.width, abbrevs) == Got(LDefine(a), off + |p.bits|)
  {
    hide ReadFixed, ReadAbbrev, EncAbbrev, At, ToBits, Pow2;
    IdRead(s, off, c, DEFINE_ABBREV, EncAbbrev(a));
    AbbrevRoundTrip(s, off + c.width, a);
  }

  lemma HeaderLexed(s: seq<bool>, off: nat, c: Scope, abbrevs: seq<Abbrev>, block: Block, words: nat)
    requires IdFits(c, ENTER_SUBBLOCK) && block.id < WORD && block.width < WORD && words < U32
    requires At(s, off, EncHeader(off, c.width, block))
    requires At(s, off + |EncHeader(off, c.width, block)|, ToBits(words, 32))
    ensures Lex(s, off, c.width, abbrevs)
         == Got(LEnter(block.id, block.width, words), off + |EncHeader(off, c.width, block)| + 32)
  {
    hide ReadFixed, ReadVbr, EncVbr, ToBits, At, Pow2;
    var id, width := EncVbr(block.id, 8), EncVbr(block.width, 4);
    var head := ToBits(ENTER_SUBBLOCK, c.width) + (id + width);
    AtConcat(s, off, head, Padding(off + |head|));
    IdRead(s, off, c, ENTER_SUBBLOCK, id + width);
    AtConcat(s, off + c.width, id, width);
    VbrRoundTrip(s, off + c.width, block.id, 8);
    VbrRoundTrip(s, off + c.width + |id|, block.width, 4);
    assert off + |EncHeader(off, c.width, block)| == Aligned(off + |head|);
    Pow2Values();
    FixedRoundTrip(s, Aligned(off + |head|), words, 32);
    AtEnd(s, Aligned(off + |head|), ToBits(words, 32));
  }

  lemma AtEnd(s: seq<bool>, off: nat, e: seq<bool>)
    requires At(s, off, e)
    ensures off + |e| <= |s|
  {
  }

  // ----- blocks

  ghost predicate Matches(b: Frame, c: Scope) {
    b.id == c.id && b.width == c.width && b.depth == c.depth && b.entry == c.entry
  }

  lemma {:induction false} ElementRead(
    s: seq<bool>, b: Frame, c: Scope, off: nat, reg: Registry, h: History, e: Element)
    requires FrameOk(s, b) && Matches(b, c) && Tracks(c, h)
    requires var p := EncElement(off, c, reg, h, e);
             && p.Some? && NoneForZero(p.value.reg)
             && At(s, off, p.value.bits) && off + |p.value.bits| <= b.limit
    ensures var p := EncElement(off, c, reg, h, e).value;
            && ParseItems(s, b, off, reg, h) == ParseItems(s, b, off + |p.bits|, p.reg, h + [p.item])
            && Tracks(c, h + [p.item])
    decreases e, 0
  {
    hide ParseItems, Lex, EncWrite, EncDefine, EncBlock, EncHeader, At, Tracks, Available, InForce, NoneForZero;
    InForceAvailable(b, c, h);
    var p := EncElement(off, c, reg, h, e).value;
    match e
    case Write(values, blob, via) =>
      WriteLexed(s, off, c, reg, h, values, blob, via, Available(c, h));
      WriteReg(off, c, reg, h, values, blob, via);
      StepRecord(s, b, off, reg, h, p.item.rec, off + |p.bits|);
      TracksWrite(c, h, p.item.rec);
    case DefineAbbrev(a) =>
      DefineLexed(s, off, c, reg, h, a, Available(c, h));
      DefineMeans(c, reg, h, a);
      StepDefine(s, b, off, reg, h, a, off + |p.bits|);
    case SubBlock(block) =>
      ChildRead(s, b, c, off, reg, h, block);
  }

  lemma WriteReg(
    off: nat, c: Scope, reg: Registry, h: History, values: seq<nat>, blob: Option<seq<bool>>, via: Option<nat>)
    requires EncWrite(off, c, reg, h, values, blob, via).Some?
    ensures var p := EncWrite(off, c, reg, h, values, blob, via).value;
            && p.reg == reg
            && p.item == Record(Rec(values, if blob.Some? then 1 else 0, via.Some?))
            && values != [] && |values| + (if blob.Some? then 1 else 0) < U32 && (via.None? ==> blob.None?)
  {
    hide EncFields, EncPlain, Fits, PlainFits;
  }

  lemma DefineMeans(c: Scope, reg: Registry, h: History, a: Abbrev)
    requires EncDefine(c, reg, h, a).Some?
    ensures EncDefine(c, reg, h, a).value.item == Define(a)
    ensures Tracks(c, h) && NoneForZero(EncDefine(c, reg, h, a).value.reg) ==>
              EncDefine(c, reg, h, a).value.reg == AfterDefine(reg, c.id, h, a) && Tracks(c, h + [Define(a)])
  {
    hide OwnDefs, SetBid, EncAbbrev, AbbrevFits, Definitions, Target;
    if Tracks(c, h) {
      Snoc(c.id, h, Define(a));
      SnocFormat(h, Define(a));
    }
  }

  /** Nothing is registered for block id 0, which the reader takes for "no SETBID". */
  predicate NoneForZero(reg: Registry) { BLOCKINFO_ID !in reg }

  /** The writer's registry never forgets a block id. */
  lemma {:induction false} BlockKeepsZero(off: nat, reg: Registry, depth: nat, block: Block)
    requires EncBlock(off, reg, depth, block).Some? && NoneForZero(EncBlock(off, reg, depth, block).value.out.reg)
    ensures NoneForZero(reg)
    decreases block, 2
  {
    hide EncElements, Padding, Aligned, Kids, Records, RecordCount;
    ElementsKeepZero(off, Scope(block.id, block.width, depth, Lookup(reg, block.id)), reg, [], block.body);
  }

  lemma {:induction false} ElementKeepsZero(off: nat, c: Scope, reg: Registry, h: History, e: Element)
    requires EncElement(off, c, reg, h, e).Some? && NoneForZero(EncElement(off, c, reg, h, e).value.reg)
    ensures NoneForZero(reg)
    decreases e, 0
  {
    hide EncBlock, EncHeader, EncWrite, EncAbbrev, AbbrevFits, Target;
    match e
    case Write(values, blob, via) => WriteReg(off, c, reg, h, values, blob, via);
    case DefineAbbrev(a) =>
    case SubBlock(block) => BlockKeepsZero(off + |EncHeader(off, c.width, block)| + 32, reg, c.depth + 1, block);
  }

  lemma {:induction false} ElementsKeepZero(off: nat, c: Scope, reg: Registry, h: History, es: seq<Element>)
    requires EncElements(off, c, reg, h, es).Some? && NoneForZero(EncElements(off, c, reg, h, es).value.reg)
    ensures NoneForZero(reg)
    decreases es, 1
  {
    hide EncElement, NoneForZero;
    if es != [] {
      var p := EncElement(off, c, reg, h, es[0]).value;
      ElementsKeepZero(off + |p.bits|, c, p.reg, h + [p.item], es[1..]);
      ElementKeepsZero(off, c, reg, h, es[0]);
    }
  }

  /** The reader's view of the items, from its own definitions, is the format's. */
  ghost predicate Tracks(c: Scope, h: History) {
    && (c.id == BLOCKINFO_ID ==>
          OwnDefs(c.id, h) == [] && SetBid(c.id, h) == (if Target(h).Some? then Target(h).value else 0))
    && (c.id != BLOCKINFO_ID ==> OwnDefs(c.id, h) == Definitions(h))
  }

  lemma SnocFormat(h: History, it: Item)
    requires ValidItem(it)
    ensures Definitions(h + [it]) == Definitions(h) + (if it.Define? then [it.abbrev] else [])
    ensures Target(h + [it]) ==
            if it.Record? && |it.rec.values| >= 2 && it.rec.values[0] % U32 == SETBID_CODE
              then Some(it.rec.values[1] % U32) else Target(h)
  {
    assert (h + [it])[..|h|] == h;
  }

  lemma TracksWrite(c: Scope, h: History, rec: Rec)
    requires Tracks(c, h) && rec.values != []
    ensures Tracks(c, h + [Record(rec)])
  {
    hide OwnDefs, SetBid, Definitions, Target;
    Snoc(c.id, h, Record(rec));
    SnocFormat(h, Record(rec));
  }

  lemma TracksChild(c: Scope, h: History, it: Item)
    requires Tracks(c, h) && it.Child?
    ensures Tracks(c, h + [it])
  {
    hide OwnDefs, SetBid, Definitions, Target;
    Snoc(c.id, h, it);
    SnocFormat(h, it);
  }

  lemma TracksNothing(c: Scope)
    ensures Tracks(c, [])
  {
  }

  lemma {:induction false} ChildRead(
    s: seq<bool>, b: Frame, c: Scope, off: nat, reg: Registry, h: History, block: Block)
    requires FrameOk(s, b) && Matches(b, c) && Tracks(c, h)
    requires var p := EncElement(off, c, reg, h, SubBlock(block));
             p.Some? && NoneForZero(p.value.reg) && At(s, off, p.value.bits) && off + |p.value.bits| <= b.limit
    ensures var p := EncElement(off, c, reg, h, SubBlock(block)).value;
            && ParseItems(s, b, off, reg, h) == ParseItems(s, b, off + |p.bits|, p.reg, h + [p.item])
            && Tracks(c, h + [p.item])
    decreases block, 3
  {
    hide ParseItems, ParseBlock, Lex, EncHeader, EncBlock, ToBits, At, Tracks, Available, InForce, NoneForZero;
    InForceAvailable(b, c, h);
    var header := EncHeader(off, c.width, block);
    var start := off + |header| + 32;
    var coded := EncBlock(start, reg, c.depth + 1, block).value;
    var words := |coded.bits| / 32;
    AtConcat(s, off, header, ToBits(words, 32) + coded.bits);
    AtConcat(s, off + |header|, ToBits(words, 32), coded.bits);
    BlockAligned(off, c.width, reg, c.depth + 1, block);
    HeaderLexed(s, off, c, Available(c, h), block, words);
    BlockRead(s, start, reg, c.depth + 1, block, start + words * 32);
    StepChild(s, b, off, reg, h, block.id, block.width, words, start);
    TracksChild(c, h, ChildOf(block.id, coded.out));
  }

  lemma InForceAvailable(b: Frame, c: Scope, h: History)
    requires Matches(b, c) && Tracks(c, h)
    ensures InForce(b, h) == Available(c, h)
  {
    hide OwnDefs, Definitions;
  }

  /** A whole number of 32-bit words. */
  ghost predicate Whole(n: int) { n % 32 == 0 }

  lemma WholeSum(a: int, b: int)
    requires Whole(a)
    ensures Whole(a + b) <==> Whole(b)
  {
  }

  /** A block body starts aligned and is a whole number of words. */
  lemma BlockAligned(off: nat, width: nat, reg: Registry, depth: nat, block: Block)
    ensures Whole(off + |EncHeader(off, width, block)|)
    ensures var start := off + |EncHeader(off, width, block)| + 32;
            var coded := EncBlock(start, reg, depth, block);
            coded.Some? ==> Whole(|coded.value.bits|) && 1 <= block.width <= 32
                            && coded.value.out.off == start + |coded.value.bits|
  {
    hide EncBlock;
    HeaderLength(off, width, block);
    WholeSum(off + |EncHeader(off, width, block)|, 32);
    CodedLength(off + |EncHeader(off, width, block)| + 32, reg, depth, block);
  }

  lemma HeaderLength(off: nat, width: nat, block: Block)
    ensures Whole(off + |EncHeader(off, width, block)|)
  {
    hide EncVbr, Aligned, Padding, ToBits;
    var head := ToBits(ENTER_SUBBLOCK, width) + (EncVbr(block.id, 8) + EncVbr(block.width, 4));
    PaddingLength(off + |head|);
  }

  lemma CodedLength(start: nat, reg: Registry, depth: nat, block: Block)
    requires Whole(start)
    ensures var coded := EncBlock(start, reg, depth, block);
            coded.Some? ==> Whole(|coded.value.bits|) && 1 <= block.width <= 32
                            && coded.value.out.off == start + |coded.value.bits|
  {
    hide EncElements, Aligned, Padding, Kids, Records, RecordCount, Whole, ToBits;
    var coded := EncBlock(start, reg, depth, block);
    if coded.Some? {
      var c := Scope(block.id, block.width, depth, Lookup(reg, block.id));
      var body := EncElements(start, c, reg, [], block.body).value;
      PaddingLength(start + |body.bits| + block.width);
      WholeAligned(start + |body.bits| + block.width);
      WholeSum(start, |coded.value.bits|);
    }
  }

  lemma WholeAligned(off: nat)
    ensures Whole(Aligned(off))
  {
  }

  lemma {:induction false} BlockRead(s: seq<bool>, start: nat, reg: Registry, depth: nat, block: Block, limit: nat)
    requires var coded := EncBlock(start, reg, depth, block);
             && coded.Some? && NoneForZero(coded.value.out.reg)
             && At(s, start, coded.value.bits) && start + |coded.value.bits| <= limit <= |s|
    ensures ParseBlock(s, start, reg, block.id, block.width, depth, limit)
         == Some(EncBlock(start, reg, depth, block).value.out)
    decreases block, 2
  {
    hide ParseItems, Lex, EncElements, ToBits, Padding, At, Kids, Records, RecordCount;
    var entry := Lookup(reg, block.id);
    var c := Scope(block.id, block.width, depth, entry);
    var b := Frame(block.id, block.width, depth, start, limit, entry);
    var body := EncElements(start, c, reg, [], block.body).value;
    var stop := start + |body.bits|;
    AtConcat(s, start, body.bits, ToBits(END_BLOCK, block.width) + Padding(stop + block.width));
    PaddingLength(stop + block.width);
    TracksNothing(c);
    ElementsRead(s, b, c, start, reg, [], block.body);
    EndLexed(s, stop, c, InForce(b, body.h));
    StepEnd(s, b, stop, body.reg, body.h);
  }

  lemma EndLexed(s: seq<bool>, off: nat, c: Scope, abbrevs: seq<Abbrev>)
    requires 1 <= c.width <= 32 && At(s, off, ToBits(END_BLOCK, c.width) + Padding(off + c.width))
    ensures Lex(s, off, c.width, abbrevs) == Got(LEnd, Aligned(off + c.width))
  {
    hide ReadFixed, ToBits, Padding;
    IdRead(s, off, c, END_BLOCK, Padding(off + c.width));
    PaddingLength(off + c.width);
  }

  lemma {:induction false} ElementsRead(
    s: seq<bool>, b: Frame, c: Scope, off: nat, reg: Registry, h: History, es: seq<Element>)
    requires FrameOk(s, b) && Matches(b, c) && Tracks(c, h)
    requires var body := EncElements(off, c, reg, h, es);
             && body.Some? && NoneForZero(body.value.reg)
             && At(s, off, body.value.bits) && off + |body.value.bits| <= b.limit
    ensures var body := EncElements(off, c, reg, h, es).value;
            ParseItems(s, b, off, reg, h) == ParseItems(s, b, off + |body.bits|, body.reg, body.h)
    decreases es, 1
  {
    hide ParseItems, EncElement, At, Tracks, NoneForZero;
    if es != [] {
      var p := EncElement(off, c, reg, h, es[0]).value;
      ElementsKeepZero(off + |p.bits|, c, p.reg, h + [p.item], es[1..]);
      var rest := EncElements(off + |p.bits|, c, p.reg, h + [p.item], es[1..]).value;
      AtConcat(s, off, p.bits, rest.bits);
      ElementRead(s, b, c, off, reg, h, es[0]);
      ElementsRead(s, b, c, off + |p.bits|, p.reg, h + [p.item], es[1..]);
    }
  }

  // ----- what was written, without bits

  lemma ShapesConcat(a: seq<BlockInfo>, b: seq<BlockInfo>)
    ensures Shapes(a + b) == Shapes(a) + Shapes(b)
  {
  }

  ghost predicate Means(c: Scope, h: History, h': History, es: seq<Element>) {
    && Shapes(Kids(h')) == Shapes(Kids(h)) + InnerShapes(c.depth + 1, es)
    && Records(c.id, h') == Records(c.id, h) + TreeRecords(c.id, es)
    && RecordCount(h') == RecordCount(h) + Writes(es)
  }

  lemma {:induction false} BlockMeans(off: nat, reg: Registry, depth: nat, block: Block)
    requires EncBlock(off, reg, depth, block).Some?
    ensures var o := EncBlock(off, reg, depth, block).value.out;
            Shapes(o.blocks) == ShapesOf(depth, block) && o.records == TreeRecords(block.id, block.body)
    decreases block, 2
  {
    hide EncElements, TreeRecords, InnerShapes, Writes, Padding, Aligned;
    var c := Scope(block.id, block.width, depth, Lookup(reg, block.id));
    var body := EncElements(off, c, reg, [], block.body).value;
    ElementsMean(off, c, reg, [], block.body);
    var o := EncBlock(off, reg, depth, block).value.out;
    ShapesConcat([o.blocks[0]], Kids(body.h));
    assert Shapes([o.blocks[0]]) == [ShapeOf(o.blocks[0])];
    assert Shapes([]) + InnerShapes(depth + 1, block.body) == InnerShapes(depth + 1, block.body);
    assert [] + TreeRecords(c.id, block.body) == TreeRecords(c.id, block.body);
  }

  lemma {:induction false} ElementMeans(off: nat, c: Scope, reg: Registry, h: History, e: Element)
    requires EncElement(off, c, reg, h, e).Some?
    ensures var it := EncElement(off, c, reg, h, e).value.item;
            && Shapes(if it.Child? then it.blocks else []) == ElementShapes(c.depth + 1, e)
            && RecordsOf(c.id, it) == ElementRecords(c.id, e)
            && (it.Record? <==> e.Write?)
    decreases e, 0
  {
    hide EncBlock, EncHeader, EncWrite, EncDefine;
    match e
    case Write(values, blob, via) =>
      WriteReg(off, c, reg, h, values, blob, via);
      SummaryOf(c.id, values, if blob.Some? then 1 else 0, via.Some?);
    case DefineAbbrev(a) =>
      DefineMeans(c, reg, h, a);
    case SubBlock(block) =>
      BlockMeans(off + |EncHeader(off, c.width, block)| + 32, reg, c.depth + 1, block);
  }

  lemma {:induction false} ElementsMean(off: nat, c: Scope, reg: Registry, h: History, es: seq<Element>)
    requires EncElements(off, c, reg, h, es).Some?
    ensures Means(c, h, EncElements(off, c, reg, h, es).value.h, es)
    decreases es, 1
  {
    hide EncElement, ElementShapes, ElementRecords, Kids, Records, RecordCount;
    if es == [] {
      assert Shapes(Kids(h)) + InnerShapes(c.depth + 1, es) == Shapes(Kids(h));
      assert Records(c.id, h) + TreeRecords(c.id, es) == Records(c.id, h);
    } else {
      var p := EncElement(off, c, reg, h, es[0]).value;
      ElementMeans(off, c, reg, h, es[0]);
      ElementsMean(off + |p.bits|, c, p.reg, h + [p.item], es[1..]);
      Snoc(c.id, h, p.item);
      ShapesConcat(Kids(h), if p.item.Child? then p.item.blocks else []);
      Assoc(Shapes(Kids(h)), ElementShapes(c.depth + 1, es[0]), InnerShapes(c.depth + 1, es[1..]));
      Assoc(Records(c.id, h), ElementRecords(c.id, es[0]), TreeRecords(c.id, es[1..]));
    }
  }

  lemma Assoc<T>(a: seq<T>, b: seq<T>, c: seq<T>)
    ensures (a + b) + c == a + (b + c)
  {
  }

  // ----- files

  lemma NestedLength(off: nat, c: Scope, reg: Registry, h: History, block: Block)
    requires Whole(off)
    ensures var p := EncElement(off, c, reg, h, SubBlock(block)); p.Some? ==> Whole(|p.value.bits|)
  {
    hide EncBlock, EncHeader, ToBits, Whole;
    var header := EncHeader(off, c.width, block);
    BlockAligned(off, c.width, reg, c.depth + 1, block);
    var coded := EncBlock(off + |header| + 32, reg, c.depth + 1, block);
    if coded.Some? {
      WholeSum(off, |header|);
      WholeSum(|header|, 32 + |coded.value.bits|);
      WordWhole();
      WholeSum(32, |coded.value.bits|);
    }
  }

  lemma WordWhole()
    ensures Whole(32) && Whole(0)
  {
  }

  lemma {:induction false} NestedAligned(off: nat, c: Scope, reg: Registry, h: History, es: seq<Element>)
    requires Whole(off) && (forall i :: 0 <= i < |es| ==> es[i].SubBlock?)
    ensures var body := EncElements(off, c, reg, h, es); body.Some? ==> Whole(|body.value.bits|)
    decreases |es|
  {
    hide EncElement, Whole;
    WordWhole();
    if es != [] && EncElements(off, c, reg, h, es).Some? {
      var p := EncElement(off, c, reg, h, es[0]).value;
      NestedLength(off, c, reg, h, es[0].block);
      WholeSum(off, |p.bits|);
      NestedAligned(off + |p.bits|, c, p.reg, h + [p.item], es[1..]);
      WholeSum(|p.bits|, |EncElements(off + |p.bits|, c, p.reg, h + [p.item], es[1..]).value.bits|);
    }
  }

  /** The bits fill whole words and, packed into bytes, parse to exactly out. */
  ghost predicate ReadsAs(bits: seq<bool>, out: Out) {
    |bits| % 32 == 0 && |bits| % 8 == 0 && Parse(StreamBits(Pack(bits))) == Some(out)
  }

  /** A file the writer can produce parses from its bytes to exactly what the writer predicts, the
      blocks in preorder with their ids, widths, depths, record counts and bit ranges, the records in
      stream order with codes and operand counts, and the registry; with the one exception of files
      that register abbreviations for block id 0, which never do. */
  lemma FileRoundTrip(blocks: seq<Block>)
    requires EncFile(blocks).Some?
    ensures var coded := EncFile(blocks).value;
            && (ReadsAs(coded.bits, coded.out) <==> NoneForZero(coded.out.reg))
            && Shapes(coded.out.blocks) == [Shape(0xffff_ffff, 2, 0, 0)] + InnerShapes(1, AsElements(blocks))
            && coded.out.records == TreeRecords(0xffff_ffff, AsElements(blocks))
  {
    hide EncFile, Parse, ReadsAs, InnerShapes, TreeRecords, Shapes, AsElements, NoneForZero;
    var coded := EncFile(blocks).value;
    FileWhole(blocks);
    if NoneForZero(coded.out.reg) { FileBits(blocks); }
    PackedReads(coded.bits, coded.out);
    if ReadsAs(coded.bits, coded.out) { ZeroNeverRead(coded.bits, coded.out); }
    FileMeans(blocks);
  }

  lemma PackedReads(bits: seq<bool>, out: Out)
    requires |bits| % 32 == 0
    ensures ReadsAs(bits, out) <==> Parse(bits) == Some(out)
  {
    hide Parse, Pack, StreamBits;
    WordsAreBytes(|bits|);
    PackRoundTrip(bits);
  }

  lemma WordsAreBytes(n: nat)
    requires n % 32 == 0
    ensures n % 8 == 0
  {
  }

  /** No run registers anything for block id 0. */
  lemma ZeroNeverRead(bits: seq<bool>, out: Out)
    requires ReadsAs(bits, out)
    ensures NoneForZero(out.reg)
  {
    hide ParseBlock, ReadFixed;
    PackedReads(bits, out);
    BlockRegistry(bits, 32, map[], ROOT_ID, 2, 0, |bits|);
  }

  lemma FileWhole(blocks: seq<Block>)
    requires EncFile(blocks).Some?
    ensures |EncFile(blocks).value.bits| % 32 == 0
  {
    hide EncElements, ToBits, Kids, Records, RecordCount;
    NestedAligned(32, Scope(ROOT_ID, 2, 0, Lookup(map[], ROOT_ID)), map[], [], AsElements(blocks));
  }

  lemma FileBits(blocks: seq<Block>)
    requires EncFile(blocks).Some? && NoneForZero(EncFile(blocks).value.out.reg)
    ensures Parse(EncFile(blocks).value.bits) == Some(EncFile(blocks).value.out)
  {
    hide EncElements, ParseItems, ToBits, At, Kids, Records, RecordCount;
    var es := AsElements(blocks);
    var c := Scope(ROOT_ID, 2, 0, Lookup(map[], ROOT_ID));
    var body := EncElements(32, c, map[], [], es).value;
    var s := ToBits(MAGIC, 32) + body.bits;
    var b := Frame(ROOT_ID, 2, 0, 32, |s|, []);
    AtWhole(s);
    AtConcat(s, 0, ToBits(MAGIC, 32), body.bits);
    Pow2Values();
    FixedRoundTrip(s, 0, MAGIC, 32);
    TracksNothing(c);
    ElementsRead(s, b, c, 32, map[], [], es);
    StepEnd(s, b, |s|, body.reg, body.h);
  }

  lemma AtWhole(s: seq<bool>)
    ensures At(s, 0, s)
  {
  }

  lemma FileMeans(blocks: seq<Block>)
    requires EncFile(blocks).Some?
    ensures var coded := EncFile(blocks).value;
            && Shapes(coded.out.blocks) == [Shape(0xffff_ffff, 2, 0, 0)] + InnerShapes(1, AsElements(blocks))
            && coded.out.records == TreeRecords(0xffff_ffff, AsElements(blocks))
  {
    hide EncElements, TreeRecords, InnerShapes, ToBits;
    var es := AsElements(blocks);
    var c := Scope(ROOT_ID, 2, 0, Lookup(map[], ROOT_ID));
    var body := EncElements(32, c, map[], [], es).value;
    ElementsMean(32, c, map[], [], es);
    NoWrites(es);
    var o := EncFile(blocks).value.out;
    ShapesConcat([o.blocks[0]], Kids(body.h));
    assert Shapes([o.blocks[0]]) == [ShapeOf(o.blocks[0])];
    assert Shapes([]) + InnerShapes(1, es) == InnerShapes(1, es);
    assert [] + TreeRecords(c.id, es) == TreeRecords(c.id, es);
  }

  lemma {:induction false} NoWrites(es: seq<Element>)
    requires forall i :: 0 <= i < |es| ==> es[i].SubBlock?
    ensures Writes(es) == 0
  {
    if es != [] { NoWrites(es[1..]); }
  }
}
