/** The tables of a written file, which the reader returns even where its registry is not the format's. */
module Tables {
  import opened Options
  import opened Bits
  import opened Primitives
  import opened Bitcode
  import opened Writer
  import opened RoundTrip
  import opened Scoping

  /** No record of a BLOCKINFO block is written through an abbreviation. */
  predicate PlainInfo(id: nat, es: seq<Element>)
    decreases es, 1
  {
    es == [] || (PlainElement(id, es[0]) && PlainInfo(id, es[1..]))
  }

  predicate PlainElement(id: nat, e: Element)
    decreases e, 0
  {
    match e
    case Write(_, _, via) => id == 0 ==> via.None?
    case DefineAbbrev(_) => true
    case SubBlock(block) => PlainInfo(block.id, block.body)
  }

  // ----- what the reader and the writer still agree on

  /** The same lists for every block id but 0. */
  ghost predicate AgreeAway(rr: Registry, wr: Registry) {
    forall k: nat :: k != BLOCKINFO_ID ==> Lookup(rr, k) == Lookup(wr, k)
  }

  /** The same item, but for what a nested block found on entry. */
  predicate SameReading(x: Item, y: Item) {
    if x.Child? then y.Child? && x.blocks == y.blocks && x.records == y.records else x == y
  }

  ghost predicate SameHistory(h': History, h: History) {
    |h'| == |h| && forall i :: 0 <= i < |h| ==> SameReading(h'[i], h[i])
  }

  /** Everything but the nested entry lists is determined. */
  lemma {:induction false} SameHistoryMeans(id: nat, h': History, h: History)
    requires SameHistory(h', h)
    ensures Kids(h') == Kids(h) && RecordCount(h') == RecordCount(h) && Records(id, h') == Records(id, h)
    ensures SetBid(id, h') == SetBid(id, h) && OwnDefs(id, h') == OwnDefs(id, h)
  {
    hide Kids, RecordCount, Records, SetBid, OwnDefs, IsSetBid, RecordsOf;
    if h == [] {
      assert h' == h;
    } else {
      var n := |h| - 1;
      var t', t: History := h'[..n], h[..n];
      assert SameReading(h'[n], h[n]);
      SameHistoryMeans(id, t', t);
      assert h' == t' + [h'[n]] && h == t + [h[n]];
      Snoc(id, t', h'[n]);
      Snoc(id, t, h[n]);
      SameItem(id, h'[n], h[n]);
    }
  }

  lemma SameItem(id: nat, x: Item, y: Item)
    requires SameReading(x, y) && ValidItem(x) && ValidItem(y)
    ensures RecordsOf(id, x) == RecordsOf(id, y) && (IsSetBid(id, x) <==> IsSetBid(id, y))
    ensures !x.Child? || IsSetBid(id, x) ==> x == y
  {
  }

  lemma SameHistorySnoc(h': History, h: History, x: Item, y: Item)
    requires SameHistory(h', h) && SameReading(x, y) && ValidItem(x) && ValidItem(y)
    ensures SameHistory(h' + [x], h + [y])
  {
    hide SameReading;
  }

  /** The reader's frame of a block the writer writes. */
  ghost predicate Follows(b: Frame, c: Scope) {
    b.id == c.id && b.width == c.width && b.depth == c.depth && (b.id != BLOCKINFO_ID ==> b.entry == c.entry)
  }

  lemma ListAgrees(b: Frame, c: Scope, h': History, h: History)
    requires Follows(b, c) && SameHistory(h', h) && c.id != BLOCKINFO_ID
    ensures InForce(b, h') == Available(c, h)
  {
    hide OwnDefs, SameHistory, Definitions, Local, Kids, Records, RecordCount, SetBid;
    SameHistoryMeans(b.id, h', h);
    InForceIsEntryThenOwn(b, h);
  }

  lemma DefineAgrees(c: Scope, rr: Registry, wr: Registry, h': History, h: History, a: Abbrev)
    requires SameHistory(h', h) && AgreeAway(rr, wr) && EncDefine(c, wr, h, a).Some?
    ensures AgreeAway(AfterDefine(rr, c.id, h', a), EncDefine(c, wr, h, a).value.reg)
  {
    hide SameHistory, SetBid, OwnDefs, Kids, Records, RecordCount, EncAbbrev, AbbrevFits, Target, AgreeAway;
    SameHistoryMeans(c.id, h', h);
    TargetOrZero(h);
    if c.id == BLOCKINFO_ID { RegisterAgrees(rr, wr, Target(h).value, a); }
  }

  lemma RegisterAgrees(rr: Registry, wr: Registry, k: nat, a: Abbrev)
    requires AgreeAway(rr, wr)
    ensures AgreeAway(Register(rr, k, a), Register(wr, k, a))
    ensures k == BLOCKINFO_ID ==> AgreeAway(rr, Register(wr, k, a))
  {
    forall j: nat | j != BLOCKINFO_ID ensures Lookup(Register(rr, k, a), j) == Lookup(Register(wr, k, a), j) {
      assert Lookup(rr, j) == Lookup(wr, j);
    }
    forall j: nat | j != BLOCKINFO_ID && k == BLOCKINFO_ID ensures Lookup(rr, j) == Lookup(Register(wr, k, a), j) {
      assert Lookup(rr, j) == Lookup(wr, j);
    }
  }

  // ----- the three levels of the writer

  lemma {:induction false} BlockTables(
    s: seq<bool>, start: nat, wr: Registry, rr: Registry, depth: nat, block: Block, limit: nat)
    requires AgreeAway(rr, wr) && PlainInfo(block.id, block.body)
    requires var coded := EncBlock(start, wr, depth, block);
             coded.Some? && At(s, start, coded.value.bits) && start + |coded.value.bits| <= limit <= |s|
    ensures var w := EncBlock(start, wr, depth, block).value.out;
            var r := ParseBlock(s, start, rr, block.id, block.width, depth, limit);
            && r.Some? && r.value.off == w.off && r.value.blocks == w.blocks && r.value.records == w.records
            && AgreeAway(r.value.reg, w.reg)
    decreases block, 2
  {
    hide ParseItems, Lex, EncElements, ToBits, Padding, At, Kids, Records, RecordCount, OwnDefs, SetBid, AgreeAway;
    hide PlainInfo;
    var c := Scope(block.id, block.width, depth, Lookup(wr, block.id));
    var b := Frame(block.id, block.width, depth, start, limit, Lookup(rr, block.id));
    EntryAgrees(b, c, rr, wr);
    var body := EncElements(start, c, wr, [], block.body).value;
    var stop := start + |body.bits|;
    AtConcat(s, start, body.bits, ToBits(END_BLOCK, block.width) + Padding(stop + block.width));
    PaddingLength(stop + block.width);
    var rr2, h2 := ElementsTables(s, b, c, start, wr, rr, [], [], block.body);
    EndLexed(s, stop, c, InForce(b, h2));
    StepEnd(s, b, stop, rr2, h2);
    SameHistoryMeans(block.id, h2, body.h);
  }

  lemma EntryAgrees(b: Frame, c: Scope, rr: Registry, wr: Registry)
    requires AgreeAway(rr, wr) && b.id == c.id && b.width == c.width && b.depth == c.depth
    requires b.entry == Lookup(rr, b.id) && c.entry == Lookup(wr, c.id)
    ensures Follows(b, c)
  {
  }

  lemma {:induction false} ElementTables(
    s: seq<bool>, b: Frame, c: Scope, off: nat, wr: Registry, rr: Registry, h': History, h: History, e: Element)
    returns (rr2: Registry, it: Item)
    requires FrameOk(s, b) && Follows(b, c) && SameHistory(h', h) && AgreeAway(rr, wr) && PlainElement(c.id, e)
    requires var p := EncElement(off, c, wr, h, e);
             p.Some? && At(s, off, p.value.bits) && off + |p.value.bits| <= b.limit
    ensures var p := EncElement(off, c, wr, h, e).value;
            && ValidItem(it) && SameReading(it, p.item) && AgreeAway(rr2, p.reg)
            && ParseItems(s, b, off, rr, h') == ParseItems(s, b, off + |p.bits|, rr2, h' + [it])
    decreases e, 0
  {
    hide ParseItems, Lex, EncWrite, EncDefine, EncBlock, EncHeader, At, Available, InForce, AgreeAway, SameHistory;
    var p := EncElement(off, c, wr, h, e).value;
    rr2, it := rr, p.item;
    match e
    case Write(values, blob, via) =>
      if via.Some? { ListAgrees(b, c, h', h); }
      WriteLexed(s, off, c, wr, h, values, blob, via, InForce(b, h'));
      WriteReg(off, c, wr, h, values, blob, via);
      StepRecord(s, b, off, rr, h', it.rec, off + |p.bits|);
    case DefineAbbrev(a) =>
      DefineLexed(s, off, c, wr, h, a, InForce(b, h'));
      DefineMeans(c, wr, h, a);
      DefineAgrees(c, rr, wr, h', h, a);
      StepDefine(s, b, off, rr, h', a, off + |p.bits|);
      rr2 := AfterDefine(rr, b.id, h', a);
    case SubBlock(block) =>
      rr2, it := ChildTables(s, b, c, off, wr, rr, h', h, block);
  }

  lemma {:induction false} ChildTables(
    s: seq<bool>, b: Frame, c: Scope, off: nat, wr: Registry, rr: Registry, h': History, h: History, block: Block)
    returns (rr2: Registry, it: Item)
    requires FrameOk(s, b) && Follows(b, c) && AgreeAway(rr, wr) && PlainInfo(block.id, block.body)
    requires var p := EncElement(off, c, wr, h, SubBlock(block));
             p.Some? && At(s, off, p.value.bits) && off + |p.value.bits| <= b.limit
    ensures var p := EncElement(off, c, wr, h, SubBlock(block)).value;
            && ValidItem(it) && SameReading(it, p.item) && AgreeAway(rr2, p.reg)
            && ParseItems(s, b, off, rr, h') == ParseItems(s, b, off + |p.bits|, rr2, h' + [it])
    decreases block, 3
  {
    hide ParseItems, ParseBlock, Lex, EncHeader, EncBlock, ToBits, At, Available, InForce, AgreeAway, PlainInfo;
    var header := EncHeader(off, c.width, block);
    var start := off + |header| + 32;
    var coded := EncBlock(start, wr, c.depth + 1, block).value;
    var words := |coded.bits| / 32;
    AtConcat(s, off, header, ToBits(words, 32) + coded.bits);
    AtConcat(s, off + |header|, ToBits(words, 32), coded.bits);
    BlockAligned(off, c.width, wr, c.depth + 1, block);
    HeaderLexed(s, off, c, InForce(b, h'), block, words);
    BlockTables(s, start, wr, rr, c.depth + 1, block, start + words * 32);
    StepChild(s, b, off, rr, h', block.id, block.width, words, start);
    var o := ParseChild(s, start, rr, block.id, block.width, words, b.depth, b.limit).value;
    rr2, it := o.reg, ChildOf(block.id, o);
  }

  lemma {:induction false} ElementsTables(
    s: seq<bool>, b: Frame, c: Scope, off: nat, wr: Registry, rr: Registry, h': History, h: History, es: seq<Element>)
    returns (rr2: Registry, h2: History)
    requires FrameOk(s, b) && Follows(b, c) && SameHistory(h', h) && AgreeAway(rr, wr) && PlainInfo(c.id, es)
    requires var body := EncElements(off, c, wr, h, es);
             body.Some? && At(s, off, body.value.bits) && off + |body.value.bits| <= b.limit
    ensures var body := EncElements(off, c, wr, h, es).value;
            && SameHistory(h2, body.h) && AgreeAway(rr2, body.reg)
            && ParseItems(s, b, off, rr, h') == ParseItems(s, b, off + |body.bits|, rr2, h2)
    decreases es, 1
  {
    hide ParseItems, EncElement, At, AgreeAway, SameHistory, SameReading, PlainElement, Follows;
    rr2, h2 := rr, h';
    if es != [] {
      var p := EncElement(off, c, wr, h, es[0]).value;
      var rest := EncElements(off + |p.bits|, c, p.reg, h + [p.item], es[1..]).value;
      AtConcat(s, off, p.bits, rest.bits);
      var rr1, it := ElementTables(s, b, c, off, wr, rr, h', h, es[0]);
      SameHistorySnoc(h', h, it, p.item);
      rr2, h2 := ElementsTables(s, b, c, off + |p.bits|, p.reg, rr1, h' + [it], h + [p.item], es[1..]);
    }
  }

  // ----- files

  /** Every file in which no record of a BLOCKINFO block goes through an abbreviation, whatever it
      registers, is parsed from its bytes to the blocks and records written. */
  lemma FileTables(blocks: seq<Block>)
    requires EncFile(blocks).Some? && PlainInfo(0xffff_ffff, AsElements(blocks))
    ensures var coded := EncFile(blocks).value;
            && |coded.bits| % 8 == 0
            && var r := Parse(StreamBits(Pack(coded.bits)));
               r.Some? && r.value.blocks == coded.out.blocks && r.value.records == coded.out.records
  {
    hide EncFile, Parse, PlainInfo, AsElements, StreamBits, Pack;
    var bits := EncFile(blocks).value.bits;
    FileWhole(blocks);
    WordsAreBytes(|bits|);
    PackRoundTrip(bits);
    FileBitsTables(blocks);
  }

  lemma FileBitsTables(blocks: seq<Block>)
    requires EncFile(blocks).Some? && PlainInfo(0xffff_ffff, AsElements(blocks))
    ensures var coded := EncFile(blocks).value;
            var r := Parse(coded.bits);
            r.Some? && r.value.blocks == coded.out.blocks && r.value.records == coded.out.records
  {
    hide EncElements, ParseItems, ToBits, At, Kids, Records, RecordCount, PlainInfo, OwnDefs, SetBid;
    var es := AsElements(blocks);
    var c := Scope(ROOT_ID, 2, 0, Lookup(map[], ROOT_ID));
    var body := EncElements(32, c, map[], [], es).value;
    var s := ToBits(MAGIC, 32) + body.bits;
    var b := Frame(ROOT_ID, 2, 0, 32, |s|, []);
    AtWhole(s);
    AtConcat(s, 0, ToBits(MAGIC, 32), body.bits);
    Pow2Values();
    FixedRoundTrip(s, 0, MAGIC, 32);
    var rr2, h2 := ElementsTables(s, b, c, 32, map[], map[], [], [], es);
    StepEnd(s, b, |s|, rr2, h2);
    SameHistoryMeans(ROOT_ID, h2, body.h);
  }

  /** In particular when nothing is registered for block id 0: then no record of a BLOCKINFO block has
      an abbreviation to go through. */
  lemma {:induction false} NoneForZeroIsPlain(off: nat, c: Scope, reg: Registry, h: History, es: seq<Element>)
    requires EncElements(off, c, reg, h, es).Some? && NoneForZero(EncElements(off, c, reg, h, es).value.reg)
    requires c.id == BLOCKINFO_ID ==> c.entry == []
    ensures PlainInfo(c.id, es)
    decreases es, 1
  {
    hide EncElement, NoneForZero, PlainElement;
    if es != [] {
      var p := EncElement(off, c, reg, h, es[0]).value;
      ElementsKeepZero(off + |p.bits|, c, p.reg, h + [p.item], es[1..]);
      ElementIsPlain(off, c, reg, h, es[0]);
      NoneForZeroIsPlain(off + |p.bits|, c, p.reg, h + [p.item], es[1..]);
    }
  }

  lemma {:induction false} ElementIsPlain(off: nat, c: Scope, reg: Registry, h: History, e: Element)
    requires EncElement(off, c, reg, h, e).Some? && NoneForZero(EncElement(off, c, reg, h, e).value.reg)
    requires c.id == BLOCKINFO_ID ==> c.entry == []
    ensures PlainElement(c.id, e)
    decreases e, 0
  {
    hide EncElements, EncHeader, EncFields, EncPlain, Fits, PlainFits, EncDefine, Padding, Aligned, Kids, Records,
      RecordCount;
    match e
    case Write(values, blob, via) =>
    case DefineAbbrev(a) =>
    case SubBlock(block) =>
      var start := off + |EncHeader(off, c.width, block)| + 32;
      BlockKeepsZero(start, reg, c.depth + 1, block);
      NoneForZeroIsPlain(start, Scope(block.id, block.width, c.depth + 1, Lookup(reg, block.id)), reg, [], block.body);
  }
}
