/** What every successful parse of arbitrary bytes guarantees about the tables it returns. */
module Structure {
  import opened Bits
  import opened Primitives
  import opened Bitcode

  // ----- nesting

  predicate Encloses(a: BlockInfo, b: BlockInfo) { a.start < b.start && b.end <= a.end }

  predicate Before(a: BlockInfo, b: BlockInfo) { a.end < b.start }

  ghost predicate Laminar(bs: seq<BlockInfo>) {
    forall i, j :: 0 <= i < j < |bs| ==> Encloses(bs[i], bs[j]) || Before(bs[i], bs[j])
  }

  /** How many of the blocks enclose b. */
  function Enclosers(bs: seq<BlockInfo>, b: BlockInfo): nat {
    if bs == [] then 0 else (if Encloses(bs[0], b) then 1 else 0) + Enclosers(bs[1..], b)
  }

  /** The block stops no later than the length word just before its body declares. */
  ghost predicate Declared(s: seq<bool>, b: BlockInfo) {
    32 <= b.start <= |s| && b.end <= b.start + FromBits(s[b.start - 32..b.start]) * 32
  }

  /** Blocks at nesting depth d and deeper, all strictly after lo and ending by hi. */
  ghost predicate Forest(s: seq<bool>, bs: seq<BlockInfo>, lo: nat, hi: nat, d: nat) {
    && Laminar(bs)
    && forall i :: 0 <= i < |bs| ==>
         && lo < bs[i].start <= bs[i].end <= hi
         && bs[i].depth == d + Enclosers(bs, bs[i])
         && bs[i].depth <= 64
         && Declared(s, bs[i])
  }

  ghost predicate Tree(s: seq<bool>, bs: seq<BlockInfo>, lo: nat, hi: nat, d: nat) {
    && bs != [] && bs[0].start == lo <= bs[0].end == hi && bs[0].depth == d <= 64
    && Forest(s, bs[1..], lo, hi, d + 1)
  }

  lemma {:induction false} EnclosersNone(bs: seq<BlockInfo>, b: BlockInfo)
    requires forall i :: 0 <= i < |bs| ==> !Encloses(bs[i], b)
    ensures Enclosers(bs, b) == 0
  {
    if bs != [] {
      assert !Encloses(bs[0], b);
      EnclosersNone(bs[1..], b);
    }
  }

  lemma {:induction false} EnclosersConcat(a: seq<BlockInfo>, c: seq<BlockInfo>, b: BlockInfo)
    ensures Enclosers(a + c, b) == Enclosers(a, b) + Enclosers(c, b)
  {
    if a == [] {
      assert a + c == c;
    } else {
      assert (a + c)[1..] == a[1..] + c;
      EnclosersConcat(a[1..], c, b);
    }
  }

  /** What a tree says of all its blocks, the outermost included. */
  ghost predicate Nested(s: seq<bool>, bs: seq<BlockInfo>, lo: nat, hi: nat, d: nat) {
    forall i :: 0 <= i < |bs| ==>
      && lo <= bs[i].start <= bs[i].end <= hi && bs[i].depth == d + Enclosers(bs, bs[i]) <= 64
      && (i > 0 ==> lo < bs[i].start && Declared(s, bs[i]))
  }

  lemma TreeNested(s: seq<bool>, bs: seq<BlockInfo>, lo: nat, hi: nat, d: nat)
    requires Tree(s, bs, lo, hi, d)
    ensures Nested(s, bs, lo, hi, d)
  {
    hide Declared, Laminar;
    var head, kids := bs[0], bs[1..];
    forall i | 0 <= i < |bs|
      ensures lo <= bs[i].start <= bs[i].end <= hi && bs[i].depth == d + Enclosers(bs, bs[i]) <= 64
      ensures i > 0 ==> lo < bs[i].start && Declared(s, bs[i])
    {
      if i == 0 {
        EnclosersNone(kids, head);
      } else {
        assert bs[i] == kids[i - 1];
        assert Encloses(head, bs[i]);
      }
    }
  }

  lemma TreeLaminar(s: seq<bool>, bs: seq<BlockInfo>, lo: nat, hi: nat, d: nat)
    requires Tree(s, bs, lo, hi, d)
    ensures Laminar(bs)
  {
    hide Declared, Enclosers;
    var kids := bs[1..];
    forall i, j | 0 <= i < j < |bs|
      ensures Encloses(bs[i], bs[j]) || Before(bs[i], bs[j])
    {
      assert bs[j] == kids[j - 1];
      if i > 0 { assert bs[i] == kids[i - 1]; }
    }
  }

  lemma TreeIsForest(s: seq<bool>, bs: seq<BlockInfo>, lo: nat, start: nat, end: nat, hi: nat, d: nat)
    requires Tree(s, bs, start, end, d) && lo < start && end <= hi && Declared(s, bs[0])
    ensures Forest(s, bs, lo, hi, d)
  {
    TreeNested(s, bs, start, end, d);
    TreeLaminar(s, bs, start, end, d);
    hide Declared, Laminar, Enclosers, Tree;
  }

  lemma ForestConcat(s: seq<bool>, a: seq<BlockInfo>, c: seq<BlockInfo>, lo: nat, mid: nat, hi: nat, d: nat)
    requires Forest(s, a, lo, mid, d) && Forest(s, c, mid, hi, d) && lo <= mid <= hi
    ensures Forest(s, a + c, lo, hi, d)
  {
    var bs := a + c;
    forall i | 0 <= i < |bs|
      ensures bs[i].depth == d + Enclosers(bs, bs[i])
    {
      EnclosersConcat(a, c, bs[i]);
      if i < |a| { EnclosersNone(c, bs[i]); } else { EnclosersNone(a, bs[i]); }
    }
  }

  lemma ForestWiden(s: seq<bool>, bs: seq<BlockInfo>, lo: nat, hi: nat, hi': nat, d: nat)
    requires Forest(s, bs, lo, hi, d) && hi <= hi'
    ensures Forest(s, bs, lo, hi', d)
  {
  }

  lemma CloseTree(s: seq<bool>, b: Frame, off: nat, end: nat, reg: Registry, h: History)
    requires Forest(s, Kids(h), b.start, off, b.depth + 1) && b.start <= off <= end && b.depth <= 64
    ensures Tree(s, Close(b, end, reg, h).blocks, b.start, end, b.depth)
  {
    ForestWiden(s, Kids(h), b.start, off, end, b.depth + 1);
    assert Close(b, end, reg, h).blocks[1..] == Kids(h);
  }

  /** The length word is the 32 bits just before the body. */
  lemma EnterWords(s: seq<bool>, off: nat)
    requires LexEnter(s, off).Got?
    ensures var r := LexEnter(s, off);
            32 <= r.off <= |s| && r.value.words == FromBits(s[r.off - 32..r.off])
  {
    hide ReadVbr;
  }

  lemma {:induction false} BlockTree(s: seq<bool>, off: nat, reg: Registry, id: nat, width: nat, depth: nat, limit: nat)
    requires limit <= |s| && ParseBlock(s, off, reg, id, width, depth, limit).Some?
    ensures var o := ParseBlock(s, off, reg, id, width, depth, limit).value;
            Tree(s, o.blocks, off, o.off, depth)
    decreases |s| - off, 1
  {
    ItemsTree(s, Frame(id, width, depth, off, limit, Lookup(reg, id)), off, reg, []);
  }

  lemma {:induction false} ItemsTree(s: seq<bool>, b: Frame, off: nat, reg: Registry, h: History)
    requires FrameOk(s, b) && b.start <= off && b.depth <= 64
    requires Forest(s, Kids(h), b.start, off, b.depth + 1)
    requires ParseItems(s, b, off, reg, h).Some?
    ensures var o := ParseItems(s, b, off, reg, h).value;
            Tree(s, o.blocks, b.start, o.off, b.depth)
    decreases |s| - off, 0
  {
    hide ParseItems, ParseBlock, ParseChild, Lex, Kids, Records, RecordCount, OwnDefs, SetBid, AfterDefine, Forest,
      Tree;
    StepEnd(s, b, off, reg, h);
    if off >= b.limit {
      CloseTree(s, b, off, off, reg, h);
    } else {
      var e, next := Lex(s, off, b.width, InForce(b, h)).value, Lex(s, off, b.width, InForce(b, h)).off;
      match e
      case LEnd =>
        CloseTree(s, b, off, next, reg, h);
      case LEnter(id, width, words) =>
        StepChild(s, b, off, reg, h, id, width, words, next);
        var o := ParseChild(s, next, reg, id, width, words, b.depth, b.limit).value;
        ChildForest(s, b, off, reg, h, id, width, words, next);
        Snoc(b.id, h, ChildOf(id % U32, o));
        ForestConcat(s, Kids(h), o.blocks, b.start, off, o.off, b.depth + 1);
        ItemsTree(s, b, o.off, o.reg, h + [ChildOf(id % U32, o)]);
      case LDefine(a) =>
        StepDefine(s, b, off, reg, h, a, next);
        Snoc(b.id, h, Define(a));
        assert Kids(h) + [] == Kids(h);
        ForestWiden(s, Kids(h), b.start, off, next, b.depth + 1);
        ItemsTree(s, b, next, AfterDefine(reg, b.id, h, a), h + [Define(a)]);
      case LRecord(rec) =>
        StepRecord(s, b, off, reg, h, rec, next);
        Snoc(b.id, h, Record(rec));
        assert Kids(h) + [] == Kids(h);
        ForestWiden(s, Kids(h), b.start, off, next, b.depth + 1);
        ItemsTree(s, b, next, reg, h + [Record(rec)]);
    }
  }

  /** A nested block and everything in it lie between the header and the declared end. */
  lemma {:induction false} ChildForest(
    s: seq<bool>, b: Frame, off: nat, reg: Registry, h: History, id: nat, width: nat, words: nat, next: nat)
    requires FrameOk(s, b) && off < b.limit
    requires Lex(s, off, b.width, InForce(b, h)) == Got(LEnter(id, width, words), next)
    requires ParseChild(s, next, reg, id, width, words, b.depth, b.limit).Some?
    ensures var o := ParseChild(s, next, reg, id, width, words, b.depth, b.limit).value;
            Forest(s, o.blocks, off, o.off, b.depth + 1)
    decreases |s| - next, 2
  {
    hide Forest, Tree, ParseBlock, LexEnter, ReadFields, ReadAbbrev, ReadUnabbreviated;
    var childEnd := next + words * 32;
    var o := ParseBlock(s, next, reg, id % U32, width % U32, b.depth + 1, childEnd).value;
    assert LexEnter(s, off + b.width) == Got(LEnter(id, width, words), next);
    EnterWords(s, off + b.width);
    BlockTree(s, next, reg, id % U32, width % U32, b.depth + 1, childEnd);
    HeadDeclared(s, o.blocks, next, o.off, b.depth + 1, words);
    TreeIsForest(s, o.blocks, off, next, o.off, childEnd, b.depth + 1);
  }

  lemma HeadDeclared(s: seq<bool>, bs: seq<BlockInfo>, start: nat, end: nat, d: nat, words: nat)
    requires Tree(s, bs, start, end, d) && 32 <= start <= |s| && words == FromBits(s[start - 32..start])
    requires end <= start + words * 32
    ensures Declared(s, bs[0])
  {
  }

  /** Any two blocks of a successful parse are nested or apart, the depth of a block is the number
      of blocks around it (at most 64), and no block outruns its declared length or the stream. */
  lemma LaminarNesting(s: seq<bool>)
    requires Parse(s).Some?
    ensures var bs := Parse(s).value.blocks;
            && bs != [] && bs[0].id == 0xffff_ffff && bs[0].start == 32
            && Laminar(bs)
            && forall i :: 0 <= i < |bs| ==>
                 && 32 <= bs[i].start <= bs[i].end <= |s|
                 && bs[i].depth == Enclosers(bs, bs[i]) <= 64
                 && (i > 0 ==> Declared(s, bs[i]))
  {
    hide ParseBlock, Parse, Laminar, Declared, Enclosers;
    RootHead(s);
    BlockTree(s, 32, map[], ROOT_ID, 2, 0, |s|);
    var o := Parse(s).value;
    TreeNested(s, o.blocks, 32, o.off, 0);
    TreeLaminar(s, o.blocks, 32, o.off, 0);
    RootEnd(s);
  }

  lemma RootEnd(s: seq<bool>)
    requires Parse(s).Some?
    ensures Parse(s).value.off <= |s|
  {
    hide ParseItems;
  }

  lemma RootHead(s: seq<bool>)
    requires Parse(s).Some?
    ensures Parse(s).value.blocks != [] && Parse(s).value.blocks[0].id == ROOT_ID
    ensures Parse(s) == ParseBlock(s, 32, map[], ROOT_ID, 2, 0, |s|)
  {
    hide ParseItems;
    HeadId(s, Frame(ROOT_ID, 2, 0, 32, |s|, Lookup(map[], ROOT_ID)), 32, map[], []);
  }

  lemma {:induction false} HeadId(s: seq<bool>, b: Frame, off: nat, reg: Registry, h: History)
    requires FrameOk(s, b) && ParseItems(s, b, off, reg, h).Some?
    ensures var bs := ParseItems(s, b, off, reg, h).value.blocks; bs != [] && bs[0].id == b.id && bs[0].width == b.width
    decreases |s| - off
  {
    hide ParseItems, ParseBlock, ParseChild, Lex, Kids;
    StepEnd(s, b, off, reg, h);
    if off < b.limit {
      var e, next := Lex(s, off, b.width, InForce(b, h)).value, Lex(s, off, b.width, InForce(b, h)).off;
      match e
      case LEnd =>
      case LEnter(id, width, words) =>
        StepChild(s, b, off, reg, h, id, width, words, next);
        var o := ParseChild(s, next, reg, id, width, words, b.depth, b.limit).value;
        HeadId(s, b, o.off, o.reg, h + [ChildOf(id % U32, o)]);
      case LDefine(a) =>
        StepDefine(s, b, off, reg, h, a, next);
        HeadId(s, b, next, AfterDefine(reg, b.id, h, a), h + [Define(a)]);
      case LRecord(rec) =>
        StepRecord(s, b, off, reg, h, rec, next);
        HeadId(s, b, next, reg, h + [Record(rec)]);
    }
  }

  // ----- conservation of records

  /** The record counts of the blocks whose id is in ids. */
  ghost function CountIn(bs: seq<BlockInfo>, ids: nat -> bool): nat {
    if bs == [] then 0 else (if ids(bs[0].id) then bs[0].recordCount else 0) + CountIn(bs[1..], ids)
  }

  /** The records that name a block id in ids. */
  ghost function RecordsIn(rs: seq<RecordInfo>, ids: nat -> bool): nat {
    if rs == [] then 0 else (if ids(rs[0].blockId) then 1 else 0) + RecordsIn(rs[1..], ids)
  }

  lemma {:induction false} CountConcat(a: seq<BlockInfo>, c: seq<BlockInfo>, ids: nat -> bool)
    ensures CountIn(a + c, ids) == CountIn(a, ids) + CountIn(c, ids)
  {
    if a == [] {
      assert a + c == c;
    } else {
      assert (a + c)[1..] == a[1..] + c;
      CountConcat(a[1..], c, ids);
    }
  }

  lemma {:induction false} RecordsConcat(a: seq<RecordInfo>, c: seq<RecordInfo>, ids: nat -> bool)
    ensures RecordsIn(a + c, ids) == RecordsIn(a, ids) + RecordsIn(c, ids)
  {
    if a == [] {
      assert a + c == c;
    } else {
      assert (a + c)[1..] == a[1..] + c;
      RecordsConcat(a[1..], c, ids);
    }
  }

  ghost predicate Balanced(b: Frame, h: History, ids: nat -> bool) {
    RecordsIn(Records(b.id, h), ids) == CountIn(Kids(h), ids) + (if ids(b.id) then RecordCount(h) else 0)
  }

  lemma BalancedSnoc(b: Frame, h: History, it: Item, ids: nat -> bool)
    requires Balanced(b, h, ids) && ValidItem(it)
    requires it.Child? ==> RecordsIn(it.records, ids) == CountIn(it.blocks, ids)
    ensures Balanced(b, h + [it], ids)
  {
    hide Kids, Records, RecordCount, SetBid, OwnDefs;
    Snoc(b.id, h, it);
    RecordsConcat(Records(b.id, h), RecordsOf(b.id, it), ids);
    CountConcat(Kids(h), if it.Child? then it.blocks else [], ids);
    if it.Record? { assert RecordsOf(b.id, it)[1..] == []; }
  }

  lemma CloseBalanced(b: Frame, off: nat, reg: Registry, h: History, ids: nat -> bool)
    requires Balanced(b, h, ids)
    ensures var o := Close(b, off, reg, h); CountIn(o.blocks, ids) == RecordsIn(o.records, ids)
  {
    hide Kids, Records, RecordCount;
    assert Close(b, off, reg, h).blocks[1..] == Kids(h);
  }

  lemma {:induction false} BlockBalanced(
    s: seq<bool>, off: nat, reg: Registry, id: nat, width: nat, depth: nat, limit: nat, ids: nat -> bool)
    requires limit <= |s| && ParseBlock(s, off, reg, id, width, depth, limit).Some?
    ensures var o := ParseBlock(s, off, reg, id, width, depth, limit).value;
            CountIn(o.blocks, ids) == RecordsIn(o.records, ids)
    decreases |s| - off, 1
  {
    ItemsBalanced(s, Frame(id, width, depth, off, limit, Lookup(reg, id)), off, reg, [], ids);
  }

  lemma {:induction false} ItemsBalanced(s: seq<bool>, b: Frame, off: nat, reg: Registry, h: History, ids: nat -> bool)
    requires FrameOk(s, b) && Balanced(b, h, ids) && ParseItems(s, b, off, reg, h).Some?
    ensures var o := ParseItems(s, b, off, reg, h).value; CountIn(o.blocks, ids) == RecordsIn(o.records, ids)
    decreases |s| - off, 0
  {
    hide ParseItems, ParseBlock, Lex, Balanced, CountIn, RecordsIn;
    StepEnd(s, b, off, reg, h);
    if off >= b.limit {
      CloseBalanced(b, off, reg, h, ids);
    } else {
      var e, next := Lex(s, off, b.width, InForce(b, h)).value, Lex(s, off, b.width, InForce(b, h)).off;
      match e
      case LEnd =>
        CloseBalanced(b, next, reg, h, ids);
      case LEnter(id, width, words) =>
        StepChild(s, b, off, reg, h, id, width, words, next);
        var o := ParseChild(s, next, reg, id, width, words, b.depth, b.limit).value;
        BlockBalanced(s, next, reg, id % U32, width % U32, b.depth + 1, next + words * 32, ids);
        BalancedSnoc(b, h, ChildOf(id % U32, o), ids);
        ItemsBalanced(s, b, o.off, o.reg, h + [ChildOf(id % U32, o)], ids);
      case LDefine(a) =>
        StepDefine(s, b, off, reg, h, a, next);
        BalancedSnoc(b, h, Define(a), ids);
        ItemsBalanced(s, b, next, AfterDefine(reg, b.id, h, a), h + [Define(a)], ids);
      case LRecord(rec) =>
        StepRecord(s, b, off, reg, h, rec, next);
        BalancedSnoc(b, h, Record(rec), ids);
        ItemsBalanced(s, b, next, reg, h + [Record(rec)], ids);
    }
  }

  /** For any choice of block ids, the counts kept in the blocks add up to the records listed;
      when the choice is all ids, to the length of the record list. */
  lemma RecordsConserved(s: seq<bool>, ids: nat -> bool)
    requires Parse(s).Some?
    ensures var o := Parse(s).value;
            && CountIn(o.blocks, ids) == RecordsIn(o.records, ids)
            && ((forall n :: ids(n)) ==> CountIn(o.blocks, ids) == |o.records|)
  {
    BlockBalanced(s, 32, map[], ROOT_ID, 2, 0, |s|, ids);
    if forall n :: ids(n) { AllRecords(Parse(s).value.records, ids); }
  }

  lemma {:induction false} AllRecords(rs: seq<RecordInfo>, ids: nat -> bool)
    requires forall n :: ids(n)
    ensures RecordsIn(rs, ids) == |rs|
  {
    if rs != [] { AllRecords(rs[1..], ids); }
  }

  // ----- the registry over a run

  /** Every list of reg is a prefix of the list reg' has for the same block id. */
  ghost predicate Extends(reg: Registry, reg': Registry) {
    forall k :: k in reg ==> k in reg' && reg[k] <= reg'[k]
  }

  ghost predicate NoBlockInfo(bs: seq<BlockInfo>) {
    forall i :: 0 <= i < |bs| ==> bs[i].id != 0
  }

  /** Registered lists only grow at their ends, nothing outside a BLOCKINFO block registers
      anything, and no run ever registers abbreviations for block id 0. */
  ghost predicate RegistryKept(reg: Registry, o: Out) {
    && Extends(reg, o.reg)
    && (NoBlockInfo(o.blocks) ==> o.reg == reg)
    && (BLOCKINFO_ID !in reg ==> BLOCKINFO_ID !in o.reg)
  }

  lemma {:induction false} BlockRegistry(
    s: seq<bool>, off: nat, reg: Registry, id: nat, width: nat, depth: nat, limit: nat)
    requires limit <= |s| && ParseBlock(s, off, reg, id, width, depth, limit).Some?
    ensures RegistryKept(reg, ParseBlock(s, off, reg, id, width, depth, limit).value)
    decreases |s| - off, 1
  {
    ItemsRegistry(s, Frame(id, width, depth, off, limit, Lookup(reg, id)), off, reg, [], reg);
  }

  lemma {:induction false} ItemsRegistry(s: seq<bool>, b: Frame, off: nat, reg: Registry, h: History, reg0: Registry)
    requires FrameOk(s, b) && ParseItems(s, b, off, reg, h).Some?
    requires Extends(reg0, reg) && (BLOCKINFO_ID !in reg0 ==> BLOCKINFO_ID !in reg)
    requires b.id != BLOCKINFO_ID && NoBlockInfo(Kids(h)) ==> reg == reg0
    ensures RegistryKept(reg0, ParseItems(s, b, off, reg, h).value)
    decreases |s| - off, 0
  {
    hide ParseItems, ParseBlock, Lex, Kids, Records, RecordCount, OwnDefs, SetBid, AfterDefine, NoBlockInfo;
    StepEnd(s, b, off, reg, h);
    if off >= b.limit {
      CloseNoInfo(b, off, reg, h);
    } else {
      var e, next := Lex(s, off, b.width, InForce(b, h)).value, Lex(s, off, b.width, InForce(b, h)).off;
      match e
      case LEnd =>
        CloseNoInfo(b, next, reg, h);
      case LEnter(id, width, words) =>
        StepChild(s, b, off, reg, h, id, width, words, next);
        var o := ParseChild(s, next, reg, id, width, words, b.depth, b.limit).value;
        BlockRegistry(s, next, reg, id % U32, width % U32, b.depth + 1, next + words * 32);
        Snoc(b.id, h, ChildOf(id % U32, o));
        NoInfoConcat(Kids(h), o.blocks);
        ItemsRegistry(s, b, o.off, o.reg, h + [ChildOf(id % U32, o)], reg0);
      case LDefine(a) =>
        StepDefine(s, b, off, reg, h, a, next);
        Snoc(b.id, h, Define(a));
        assert Kids(h) + [] == Kids(h);
        DefineKept(reg, b.id, h, a);
        ItemsRegistry(s, b, next, AfterDefine(reg, b.id, h, a), h + [Define(a)], reg0);
      case LRecord(rec) =>
        StepRecord(s, b, off, reg, h, rec, next);
        Snoc(b.id, h, Record(rec));
        assert Kids(h) + [] == Kids(h);
        ItemsRegistry(s, b, next, reg, h + [Record(rec)], reg0);
    }
  }

  lemma DefineKept(reg: Registry, id: nat, h: History, a: Abbrev)
    ensures var reg' := AfterDefine(reg, id, h, a);
            && Extends(reg, reg')
            && (id != BLOCKINFO_ID ==> reg' == reg)
            && (BLOCKINFO_ID !in reg ==> BLOCKINFO_ID !in reg')
  {
  }

  lemma CloseNoInfo(b: Frame, off: nat, reg: Registry, h: History)
    ensures NoBlockInfo(Close(b, off, reg, h).blocks) ==> b.id != BLOCKINFO_ID && NoBlockInfo(Kids(h))
  {
    var bs := Close(b, off, reg, h).blocks;
    if NoBlockInfo(bs) {
      assert bs[0].id != BLOCKINFO_ID;
      forall i | 0 <= i < |Kids(h)| ensures Kids(h)[i].id != BLOCKINFO_ID { assert Kids(h)[i] == bs[i + 1]; }
    }
  }

  lemma NoInfoConcat(a: seq<BlockInfo>, c: seq<BlockInfo>)
    ensures NoBlockInfo(a + c) ==> NoBlockInfo(a) && NoBlockInfo(c)
  {
    if NoBlockInfo(a + c) {
      forall i | 0 <= i < |a| ensures a[i].id != BLOCKINFO_ID { assert (a + c)[i] == a[i]; }
      forall i | 0 <= i < |c| ensures c[i].id != BLOCKINFO_ID { assert (a + c)[|a| + i] == c[i]; }
    }
  }
}
