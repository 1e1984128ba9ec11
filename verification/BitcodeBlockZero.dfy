/** Files that register an abbreviation for block id 0: valid in the format, not read as meant. */
module BlockZero {
  import opened Options
  import opened Bits
  import opened Primitives
  import opened Bitcode
  import opened Writer
  import opened RoundTrip
  import opened Scoping

  const SHORT: Abbrev := [Literal(7)]

  /** A BLOCKINFO block that defines an abbreviation for block id 0, that is, for BLOCKINFO blocks. */
  const DEFINING := Block(BLOCKINFO_ID, 3, [Write([SETBID_CODE, 0], None, None), DefineAbbrev(SHORT)])

  /** A BLOCKINFO block that uses it. */
  const USING := Block(BLOCKINFO_ID, 3, [Write([7], None, Some(0))])

  const ROOT := Scope(ROOT_ID, 2, 0, [])
  const INNER := Scope(BLOCKINFO_ID, 3, 1, [])

  const SETBID_ITEM := Record(Rec([SETBID_CODE, 0], 0, false))

  lemma Small()
    ensures Pow2(2) == 4 && Pow2(3) == 8
    ensures AbbrevFits(SHORT) && PlainFits([SETBID_CODE, 0])
    ensures |EncPlain([SETBID_CODE, 0])| == 18 && |EncAbbrev(SHORT)| == 14
  {
    assert Pow2(4) == 16 && Pow2(5) == 32 && Pow2(7) == 128;
    assert EncItems(Vbr(6), [0]) == EncVbr(0, 6) + EncItems(Vbr(6), []);
    assert [SETBID_CODE, 0][1..] == [0];
    assert SHORT[1..] == [];
    assert EncOps(SHORT) == EncOp(Literal(7)) + EncOps([]);
  }

  /** The bits of the first two elements. */
  function First(): seq<bool>
  {
    Small();
    ToBits(UNABBREV_RECORD, 3) + EncPlain([SETBID_CODE, 0])
  }

  function Second(): seq<bool> { ToBits(DEFINE_ABBREV, 3) + EncAbbrev(SHORT) }

  lemma ElementsWrittenAs(start: nat)
    ensures EncWrite(start, INNER, map[], [], [SETBID_CODE, 0], None, None) == Some(Piece(First(), SETBID_ITEM, map[]))
    ensures EncDefine(INNER, map[], [SETBID_ITEM], SHORT) == Some(Piece(Second(), Define(SHORT), map[0 := [SHORT]]))
    ensures |First()| == 21 && |Second()| == 17
  {
    Small();
    hide EncPlain, EncAbbrev, PlainFits, AbbrevFits, Pow2, ToBits;
    assert [SETBID_ITEM][..0] == [];
    assert Target([SETBID_ITEM]) == Some(0);
    assert Lookup(map[], 0) + [SHORT] == [SHORT];
  }

  function DefiningBits(start: nat): seq<bool> { First() + (Second() + (ToBits(END_BLOCK, 3) + Padding(start + 41))) }

  lemma DefiningWritten(start: nat)
    ensures EncBlock(start, map[], 1, DEFINING).Some?
    ensures var coded := EncBlock(start, map[], 1, DEFINING).value;
            && coded.bits == DefiningBits(start)
            && coded.out.reg == map[0 := [SHORT]]
  {
    ElementsWrittenAs(start);
    hide EncWrite, EncDefine, First, Second, ToBits, Padding, Kids, Records, RecordCount;
    var es := DEFINING.body;
    assert es[1..] == [DefineAbbrev(SHORT)] && es[1..][1..] == [];
    var h2: History := [SETBID_ITEM] + [Define(SHORT)];
    assert EncElements(start + 38, INNER, map[0 := [SHORT]], h2, []) == Some(Body([], h2, map[0 := [SHORT]]));
    assert EncElements(start + 21, INNER, map[], [SETBID_ITEM], es[1..])
      == Some(Body(Second() + [], h2, map[0 := [SHORT]]));
    assert [] + [SETBID_ITEM] == [SETBID_ITEM];
    assert EncElements(start, INNER, map[], [], es) == Some(Body(First() + (Second() + []), h2, map[0 := [SHORT]]));
    assert Lookup(map[], BLOCKINFO_ID) == [];
  }

  /** The reader's pass over the defining block: the definition stays local, nothing is registered. */
  lemma DefiningRead(s: seq<bool>, start: nat, limit: nat)
    requires At(s, start, DefiningBits(start)) && start + |DefiningBits(start)| <= limit <= |s|
    ensures var r := ParseBlock(s, start, map[], BLOCKINFO_ID, 3, 1, limit);
            r.Some? && r.value.reg == map[] && r.value.items == [SETBID_ITEM, Define(SHORT)]
  {
    hide ParseItems, Lex, EncWrite, EncDefine, First, Second, ToBits, Padding, At, InForce, Available, Kids, Records;
    ElementsWrittenAs(start);
    var tail := ToBits(END_BLOCK, 3) + Padding(start + 41);
    AtConcat(s, start, First(), Second() + tail);
    AtConcat(s, start + 21, Second(), tail);
    var b := Frame(BLOCKINFO_ID, 3, 1, start, limit, []);
    assert Lookup(map[], BLOCKINFO_ID) == [];
    WriteLexed(s, start, INNER, map[], [], [SETBID_CODE, 0], None, None, InForce(b, []));
    StepRecord(s, b, start, map[], [], Rec([SETBID_CODE, 0], 0, false), start + 21);
    Snoc(BLOCKINFO_ID, [], SETBID_ITEM);
    var h1: History := [] + [SETBID_ITEM];
    assert h1 == [SETBID_ITEM];
    DefineLexed(s, start + 21, INNER, map[], h1, SHORT, InForce(b, h1));
    StepDefine(s, b, start + 21, map[], h1, SHORT, start + 38);
    var h2: History := h1 + [Define(SHORT)];
    EndLexed(s, start + 38, INNER, InForce(b, h2));
    StepEnd(s, b, start + 38, map[], h2);
    PaddingLength(start + 41);
  }

  lemma DefiningLength(start: nat)
    requires Whole(start)
    ensures |DefiningBits(start)| == 64
  {
    ElementsWrittenAs(start);
    PaddingLength(start + 41);
    assert Aligned(start + 41) == start + 64;
  }

  lemma NestedWritten(off: nat, c: Scope, reg: Registry, h: History, block: Block, coded: Coded)
    requires IdFits(c, ENTER_SUBBLOCK) && block.id < U32 && |coded.bits| / 32 < U32
    requires EncBlock(off + |EncHeader(off, c.width, block)| + 32, reg, c.depth + 1, block) == Some(coded)
    ensures EncElement(off, c, reg, h, SubBlock(block))
         == Some(Piece(EncHeader(off, c.width, block) + (ToBits(|coded.bits| / 32, 32) + coded.bits),
           ChildOf(block.id, coded.out), coded.out.reg))
  {
    hide EncBlock, EncHeader, ToBits, IdFits;
  }

  lemma FileWritten(blocks: seq<Block>, bits: seq<bool>, reg: Registry, h: History)
    requires EncElements(32, ROOT, map[], [], AsElements(blocks)) == Some(Body(bits, h, reg))
    ensures EncFile(blocks).Some? && EncFile(blocks).value.bits == ToBits(MAGIC, 32) + bits
            && EncFile(blocks).value.out.reg == reg
  {
    hide EncElements, ToBits, Kids, Records, RecordCount;
    assert Lookup(map[], ROOT_ID) == [];
  }

  lemma OneElement(off: nat, c: Scope, reg: Registry, h: History, e: Element, p: Piece)
    requires EncElement(off, c, reg, h, e) == Some(p)
    ensures ValidItem(p.item) && EncElements(off, c, reg, h, [e]) == Some(Body(p.bits + [], h + [p.item], p.reg))
  {
    hide EncElement;
    assert [e][1..] == [];
  }

  lemma HeaderIs()
    ensures |EncHeader(32, 2, DEFINING)| == 32
  {
    assert Pow2(3) == 8 && Pow2(7) == 128;
    PaddingLength(46);
    assert Aligned(46) == 64;
  }

  lemma RootRead(s: seq<bool>, b: Frame) returns (it: Item)
    requires FrameOk(s, b) && Matches(b, ROOT) && 160 <= b.limit
    requires At(s, 32, DefiningElement())
    ensures ValidItem(it) && ParseItems(s, b, 32, map[], []) == ParseItems(s, b, 160, map[], [it])
    ensures Announcements(ROOT_ID, [it]) == [(0, SHORT)]
  {
    hide EncHeader, ParseItems, ParseBlock, Lex, DefiningBits, ToBits, At, Pow2;
    HeaderIs();
    DefiningLength(96);
    Small();
    AtConcat(s, 32, EncHeader(32, 2, DEFINING), ToBits(2, 32) + DefiningBits(96));
    AtConcat(s, 64, ToBits(2, 32), DefiningBits(96));
    HeaderLexed(s, 32, ROOT, InForce(b, []), DEFINING, 2);
    DefiningRead(s, 96, 160);
    StepChild(s, b, 32, map[], [], BLOCKINFO_ID, 3, 2, 96);
    var o := ParseChild(s, 96, map[], BLOCKINFO_ID, 3, 2, 0, b.limit).value;
    it := ChildOf(BLOCKINFO_ID, o);
    assert [] + [it] == [it];
    OneAnnounced(it);
  }

  lemma OneAnnounced(it: Item)
    requires it.Child? && it.id == BLOCKINFO_ID && it.items == [SETBID_ITEM, Define(SHORT)]
    ensures Announcements(ROOT_ID, [it]) == [(0, SHORT)]
  {
    hide Announcements, Target;
    ZeroTarget();
    NoAnnouncements([], ROOT_ID);
    NoAnnouncements([], BLOCKINFO_ID);
    AnnouncementsSnoc(ROOT_ID, [], it);
    assert [] + [it] == [it];
    AnnouncementsSnoc(BLOCKINFO_ID, [SETBID_ITEM], Define(SHORT));
    AnnouncementsSnoc(BLOCKINFO_ID, [], SETBID_ITEM);
    assert [SETBID_ITEM] + [Define(SHORT)] == it.items && [] + [SETBID_ITEM] == [SETBID_ITEM];
  }

  lemma ZeroTarget()
    ensures Target([SETBID_ITEM]) == Some(0)
  {
  }

  /** The defining block as the first element of the root. */
  function DefiningElement(): seq<bool> { EncHeader(32, 2, DEFINING) + (ToBits(2, 32) + DefiningBits(96)) }

  lemma DefiningPiece()
    ensures |DefiningElement()| == 128 && EncElement(32, ROOT, map[], [], SubBlock(DEFINING)).Some?
    ensures var p := EncElement(32, ROOT, map[], [], SubBlock(DEFINING)).value;
            p.bits == DefiningElement() && p.reg == map[0 := [SHORT]] && ValidItem(p.item)
  {
    hide EncHeader, EncBlock, EncElement, DefiningBits, ToBits, Pow2;
    Small();
    HeaderIs();
    DefiningWritten(96);
    DefiningLength(96);
    NestedWritten(32, ROOT, map[], [], DEFINING, EncBlock(96, map[], 1, DEFINING).value);
  }

  /** The file that only defines. */
  lemma DefiningFile()
    ensures EncFile([DEFINING]).Some?
    ensures EncFile([DEFINING]).value.bits == ToBits(MAGIC, 32) + (DefiningElement() + [])
    ensures EncFile([DEFINING]).value.out.reg == map[0 := [SHORT]]
  {
    hide EncElement, EncElements, EncFile, DefiningElement, ToBits;
    DefiningPiece();
    var p := EncElement(32, ROOT, map[], [], SubBlock(DEFINING)).value;
    OneElement(32, ROOT, map[], [], SubBlock(DEFINING), p);
    assert AsElements([DEFINING]) == [SubBlock(DEFINING)];
    FileWritten([DEFINING], p.bits + [], p.reg, [] + [p.item]);
  }

  /** Bytes the format accepts and the reader accepts: the format registers an abbreviation for block
      id 0, the reader registers nothing. */
  lemma SetBidZeroIgnored()
    ensures EncFile([DEFINING]).Some? && |EncFile([DEFINING]).value.bits| % 8 == 0
    ensures var r := Parse(StreamBits(Pack(EncFile([DEFINING]).value.bits)));
            && r.Some? && r.value.reg == map[]
            && Announcements(ROOT_ID, r.value.items) == [(0, SHORT)]
            && FormatRegistry(Announcements(ROOT_ID, r.value.items)) == EncFile([DEFINING]).value.out.reg
               == map[0 := [SHORT]]
  {
    hide EncFile, DefiningElement, ToBits, Announcements, FormatRegistry, Parse, ParseItems, EncElement, StreamBits,
      Pack;
    DefiningPiece();
    DefiningFile();
    FileWhole([DEFINING]);
    OneRegistered();
    var s := EncFile([DEFINING]).value.bits;
    WordsAreBytes(|s|);
    PackRoundTrip(s);
    var it := FileStart(s, []);
    StepEnd(s, Frame(ROOT_ID, 2, 0, 32, |s|, []), 160, map[], [it]);
  }

  lemma OneRegistered()
    ensures FormatRegistry([(0, SHORT)]) == map[0 := [SHORT]]
  {
    assert [(0, SHORT)][..0] == [];
    assert Lookup(map[], 0) + [SHORT] == [SHORT];
  }

  /** Parsing any file that starts with the defining block: what is left once it is read. */
  lemma FileStart(s: seq<bool>, rest: seq<bool>) returns (it: Item)
    requires s == ToBits(MAGIC, 32) + (DefiningElement() + rest)
    ensures ValidItem(it) && Announcements(ROOT_ID, [it]) == [(0, SHORT)]
    ensures At(s, 160, rest) && Parse(s) == ParseItems(s, Frame(ROOT_ID, 2, 0, 32, |s|, []), 160, map[], [it])
  {
    hide DefiningElement, ToBits, Announcements, ParseItems, At, EncElement;
    DefiningPiece();
    AtWhole(s);
    AtConcat(s, 0, ToBits(MAGIC, 32), DefiningElement() + rest);
    AtConcat(s, 32, DefiningElement(), rest);
    Pow2Values();
    FixedRoundTrip(s, 0, MAGIC, 32);
    assert Lookup(map[], ROOT_ID) == [];
    it := RootRead(s, Frame(ROOT_ID, 2, 0, 32, |s|, []));
  }

  // ----- a file that uses the abbreviation

  const SHARING := Scope(BLOCKINFO_ID, 3, 1, [SHORT])

  function UsingBits(): seq<bool> { ToBits(4, 3) + (ToBits(END_BLOCK, 3) + Padding(224 + 6)) }

  lemma UsingWritten(reg: Registry)
    requires reg == map[0 := [SHORT]]
    ensures EncBlock(224, reg, 1, USING).Some? && EncBlock(224, reg, 1, USING).value.bits == UsingBits()
            && |UsingBits()| == 32
  {
    hide EncWrite, EncElements, ToBits, Padding, Kids, Records, RecordCount, Aligned;
    ShortWritten(reg);
    PaddingLength(230);
    assert Aligned(230) == 256 by { AlignedAfter(); }
    OneElement(224, SHARING, reg, [], Write([7], None, Some(0)),
      Piece(ToBits(4, 3) + [], Record(Rec([7], 0, true)), reg));
    assert Lookup(reg, BLOCKINFO_ID) == [SHORT];
  }

  lemma AlignedAfter()
    ensures Aligned(230) == 256
  {
  }

  lemma ShortWritten(reg: Registry)
    ensures EncWrite(224, SHARING, reg, [], [7], None, Some(0))
         == Some(Piece(ToBits(4, 3) + [], Record(Rec([7], 0, true)), reg))
  {
    Small();
    hide Pow2, ToBits, EncPlain, EncAbbrev;
    assert Available(SHARING, []) == [SHORT];
    assert SHORT[1..] == [] && [7][1..] == [];
    assert EncFields(227, SHORT, [7], None) == [] + [];
  }

  lemma UsingHeader()
    ensures |EncHeader(160, 2, USING)| == 32
  {
    assert Pow2(3) == 8 && Pow2(7) == 128;
    PaddingLength(174);
    assert Aligned(174) == 192;
  }

  lemma {:induction false} TwoElements(
    off: nat, c: Scope, reg: Registry, h: History, e: Element, p: Piece, f: Element, q: Piece)
    requires EncElement(off, c, reg, h, e) == Some(p) && ValidItem(p.item)
    requires EncElement(off + |p.bits|, c, p.reg, h + [p.item], f) == Some(q)
    ensures EncElements(off, c, reg, h, [e, f]).Some?
    ensures EncElements(off, c, reg, h, [e, f]).value.bits == p.bits + (q.bits + [])
  {
    hide EncElement;
    assert [e, f][1..] == [f];
    OneElement(off + |p.bits|, c, p.reg, h + [p.item], f, q);
  }

  function UsingElement(): seq<bool> { EncHeader(160, 2, USING) + (ToBits(1, 32) + UsingBits()) }

  lemma UsingPiece(reg: Registry, h: History)
    requires reg == map[0 := [SHORT]]
    ensures EncElement(160, ROOT, reg, h, SubBlock(USING)).Some?
    ensures EncElement(160, ROOT, reg, h, SubBlock(USING)).value.bits == UsingElement()
  {
    hide EncHeader, EncBlock, EncElement, UsingBits, ToBits, Pow2;
    Small();
    UsingHeader();
    UsingWritten(reg);
    NestedWritten(160, ROOT, reg, h, USING, EncBlock(224, reg, 1, USING).value);
  }

  lemma UsingFile()
    ensures EncFile([DEFINING, USING]).Some?
    ensures EncFile([DEFINING, USING]).value.bits == ToBits(MAGIC, 32) + (DefiningElement() + (UsingElement() + []))
  {
    hide EncElement, EncElements, EncFile, DefiningElement, UsingElement, ToBits;
    DefiningPiece();
    var p := EncElement(32, ROOT, map[], [], SubBlock(DEFINING)).value;
    UsingPiece(p.reg, [] + [p.item]);
    TwoElements(32, ROOT, map[], [], SubBlock(DEFINING), p, SubBlock(USING),
      EncElement(160, ROOT, p.reg, [] + [p.item], SubBlock(USING)).value);
    assert AsElements([DEFINING, USING]) == [SubBlock(DEFINING), SubBlock(USING)];
    var body := EncElements(32, ROOT, map[], [], AsElements([DEFINING, USING])).value;
    FileWritten([DEFINING, USING], body.bits, body.reg, body.h);
  }

  /** Bytes the format accepts and the reader refuses: the second block uses the abbreviation. */
  lemma SetBidZeroRefused()
    ensures EncFile([DEFINING, USING]).Some? && |EncFile([DEFINING, USING]).value.bits| % 8 == 0
    ensures Parse(StreamBits(Pack(EncFile([DEFINING, USING]).value.bits))) == None
  {
    hide EncFile, DefiningElement, UsingElement, ToBits, Announcements, Parse, ParseItems, StreamBits, Pack;
    UsingFile();
    FileWhole([DEFINING, USING]);
    var s := EncFile([DEFINING, USING]).value.bits;
    WordsAreBytes(|s|);
    PackRoundTrip(s);
    var it := FileStart(s, UsingElement() + []);
    SecondRefused(s, it);
  }

  lemma SecondRefused(s: seq<bool>, it: Item)
    requires ValidItem(it) && At(s, 160, UsingElement() + [])
    ensures ParseItems(s, Frame(ROOT_ID, 2, 0, 32, |s|, []), 160, map[], [it]) == None
  {
    hide EncHeader, UsingBits, ToBits, ParseItems, ParseBlock, At, Pow2, EncBlock, Lex;
    Small();
    UsingHeader();
    UsingWritten(map[0 := [SHORT]]);
    AtConcat(s, 160, UsingElement(), []);
    AtConcat(s, 160, EncHeader(160, 2, USING), ToBits(1, 32) + UsingBits());
    AtConcat(s, 192, ToBits(1, 32), UsingBits());
    AtEnd(s, 224, UsingBits());
    var b := Frame(ROOT_ID, 2, 0, 32, |s|, []);
    HeaderLexed(s, 160, ROOT, InForce(b, [it]), USING, 1);
    UsingRefused(s);
    StepChild(s, b, 160, map[], [it], BLOCKINFO_ID, 3, 1, 224);
  }

  lemma UsingRefused(s: seq<bool>)
    requires At(s, 224, UsingBits()) && 256 <= |s|
    ensures ParseBlock(s, 224, map[], BLOCKINFO_ID, 3, 1, 256) == None
  {
    hide ParseItems, ToBits, Padding, At, Pow2, ReadFixed;
    Small();
    IdRead(s, 224, INNER, 4, ToBits(END_BLOCK, 3) + Padding(230));
    var b := Frame(BLOCKINFO_ID, 3, 1, 224, 256, []);
    assert InForce(b, []) == [] && Lookup(map[], BLOCKINFO_ID) == [];
    LexIsBody(s, 224, 3, [], 4);
    StepEnd(s, b, 224, map[], []);
  }
}
