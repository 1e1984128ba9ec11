/** Which files the format allows, in its own numbers, and that each of them is written and read back. */
module Format {
  import opened Options
  import opened Bits
  import opened Primitives
  import opened Bitcode
  import opened Writer
  import opened RoundTrip
  import opened Tables

  // ----- what a record may hold

  predicate ValueOk(op: AbbrevOp, v: nat) {
    match op
    case Literal(x) => v == x
    case Fixed(w) => w <= 64 && v < Pow2(w)
    case Vbr(w) => 2 <= w <= 32 && v < 0x1_0000_0000_0000_0000
    case Char6 => v < 64
    case Array => false
    case Blob => false
  }

  /** The values, and a blob of whole bytes if there is one, match the operands one by one; an array
      takes all that are left and stands last but for its element type. */
  predicate FieldsOk(ops: Abbrev, values: seq<nat>, blob: Option<seq<bool>>)
    decreases |ops|
  {
    if |ops| == 0 then |values| == 0 && blob == None
    else match ops[0]
         case Array => |ops| == 2 && blob == None && forall i :: 0 <= i < |values| ==> ValueOk(ops[1], values[i])
         case Blob => |ops| == 1 && |values| == 0 && blob.Some? && |blob.value| % 8 == 0
         case _ => |values| > 0 && ValueOk(ops[0], values[0]) && FieldsOk(ops[1..], values[1..], blob)
  }

  /** Every number of a definition has 64 bits. */
  predicate DefinitionOk(a: Abbrev) {
    forall i :: 0 <= i < |a| ==>
      match a[i]
      case Literal(v) => v < 0x1_0000_0000_0000_0000
      case Fixed(w) => w < 0x1_0000_0000_0000_0000
      case Vbr(w) => w < 0x1_0000_0000_0000_0000
      case _ => true
  }

  // ----- the state of a writer: registered lists, definitions of the block, block named by SETBID

  datatype State = State(reg: Registry, own: seq<Abbrev>, target: Option<nat>)

  function ListOf(reg: Registry, id: nat): seq<Abbrev> { if id in reg then reg[id] else [] }

  function AfterElement(id: nat, st: State, e: Element): State
    decreases e, 0
  {
    match e
    case Write(values, _, _) =>
      if |values| >= 2 && values[0] % 0x1_0000_0000 == 1 then st.(target := Some(values[1] % 0x1_0000_0000)) else st
    case DefineAbbrev(a) =>
      var named := if st.target.Some? then st.target.value else 0;
      State(if id == 0 then st.reg[named := ListOf(st.reg, named) + [a]] else st.reg, st.own + [a], st.target)
    case SubBlock(block) => st.(reg := AfterBody(block.id, State(st.reg, [], None), block.body).reg)
  }

  function AfterBody(id: nat, st: State, es: seq<Element>): State
    decreases es, 1
  {
    if es == [] then st else AfterBody(id, AfterElement(id, st, es[0]), es[1..])
  }

  /** Nesting at most 64 deep, abbreviation ids of 1 to 32 bits. */
  predicate BlockFormed(depth: nat, reg: Registry, block: Block)
    decreases block, 2
  {
    depth <= 64 && 1 <= block.width <= 32
    && BodyFormed(depth, block.id, block.width, ListOf(reg, block.id), State(reg, [], None), block.body)
  }

  predicate BodyFormed(depth: nat, id: nat, width: nat, entry: seq<Abbrev>, st: State, es: seq<Element>)
    decreases es, 1
  {
    es == []
    || (ElementFormed(depth, id, width, entry, st, es[0])
        && BodyFormed(depth, id, width, entry, AfterElement(id, st, es[0]), es[1..]))
  }

  /** Block ids have 32 bits. A record has fewer than 2^32 values and is written plainly, or through an
      abbreviation registered for the block or, outside BLOCKINFO blocks, defined in it before; the
      abbreviation id fits its width. A definition in a BLOCKINFO block follows a SETBID record. */
  predicate ElementFormed(depth: nat, id: nat, width: nat, entry: seq<Abbrev>, st: State, e: Element)
    decreases e, 0
  {
    match e
    case SubBlock(block) => block.id < 0x1_0000_0000 && BlockFormed(depth + 1, st.reg, block)
    case DefineAbbrev(a) =>
      |a| < 0x1_0000_0000_0000_0000 && DefinitionOk(a) && width >= 2 && (id == 0 ==> st.target.Some?)
    case Write(values, blob, via) =>
      && 0 < |values| && |values| + (if blob.Some? then 1 else 0) < 0x1_0000_0000
      && (blob.Some? ==> |blob.value| < 0x1_0000_0000_0000_0000)
      && match via
         case None =>
           && blob == None && width >= 2
           && forall i :: 0 <= i < |values| ==> values[i] < 0x1_0000_0000_0000_0000
         case Some(k) =>
           var available := entry + (if id == 0 then [] else st.own);
           k < |available| && k + 4 < Pow2(width) && FieldsOk(available[k], values, blob)
  }

  predicate FileFormed(blocks: seq<Block>) {
    BodyFormed(0, 0xffff_ffff, 2, [], State(map[], [], None), AsElements(blocks))
  }

  // ----- a generous bound on the size in bits

  function BlockWeight(block: Block): nat
    decreases block, 2
  {
    64 + BodyWeight(block.body)
  }

  function BodyWeight(es: seq<Element>): nat
    decreases es, 1
  {
    if es == [] then 0 else ElementWeight(es[0]) + BodyWeight(es[1..])
  }

  function ElementWeight(e: Element): nat
    decreases e, 0
  {
    match e
    case SubBlock(block) => 420 + BlockWeight(block)
    case DefineAbbrev(a) => 200 + 164 * |a|
    case Write(values, blob, _) => 600 + 160 * |values| + (if blob.Some? then |blob.value| else 0)
  }

  lemma VbrLength(v: nat, w: nat)
    requires 2 <= w <= 32 && v < WORD
    ensures |EncVbr(v, w)| <= 160
  {
    hide Pow2;
    DigitsCount(v, w);
    var n := |Digits(v, w)| - 1;
    if n > 0 && n * (w - 1) >= 64 {
      Pow2Values();
      Pow2Monotone(64, n * (w - 1));
    }
    LengthBound(n, w);
  }

  lemma LengthBound(n: nat, w: nat)
    requires 2 <= w <= 32 && (n > 0 ==> n * (w - 1) < 64)
    ensures w * (n + 1) <= 160
  {
    assert w * (n + 1) == n * (w - 1) + n + w;
    assert n <= n * (w - 1) by { MulMonotone(n, 1, w - 1); }
  }

  lemma ScalarLength(op: AbbrevOp, v: nat)
    requires ScalarFits(op, v)
    ensures |EncScalar(op, v)| <= 160
  {
    hide EncVbr, ToBits, Pow2;
    if op.Vbr? { VbrLength(v, op.width); }
  }

  lemma {:induction false} ItemsLength(op: AbbrevOp, vs: seq<nat>)
    requires AllFit(op, vs)
    ensures |EncItems(op, vs)| <= 160 * |vs|
  {
    hide EncScalar, ScalarFits;
    if vs != [] {
      ScalarLength(op, vs[0]);
      ItemsLength(op, vs[1..]);
    }
  }

  lemma {:induction false} FieldsLength(off: nat, ops: Abbrev, values: seq<nat>, blob: Option<seq<bool>>)
    requires Fits(ops, values, blob)
    ensures |EncFields(off, ops, values, blob)| <= 300 + 160 * |values| + (if blob.Some? then |blob.value| else 0)
    decreases |ops|
  {
    hide EncScalar, EncItems, EncVbr, Padding, Aligned, ScalarFits;
    if ops == [] {
    } else if ops[0].Array? {
      VbrLength(|values|, 6);
      ItemsLength(ops[1], values);
    } else if ops[0].Blob? {
      var bits := blob.value;
      VbrLength(|bits| / 8, 6);
      var len := EncVbr(|bits| / 8, 6);
      PadLength(off + |len|);
      PadLength(off + |len| + |Padding(off + |len|)| + |bits|);
    } else {
      ScalarLength(ops[0], values[0]);
      FieldsLength(off + |EncScalar(ops[0], values[0])|, ops[1..], values[1..], blob);
    }
  }

  lemma PadLength(off: nat)
    ensures |Padding(off)| < 32
  {
  }

  lemma PlainLength(values: seq<nat>)
    requires PlainFits(values)
    ensures |EncPlain(values)| <= 300 + 160 * |values|
  {
    hide EncVbr, EncItems;
    assert ScalarFits(Vbr(6), values[0]);
    VbrLength(values[0], 6);
    VbrLength(|values| - 1, 6);
    ItemsLength(Vbr(6), values[1..]);
  }

  lemma OpLength(op: AbbrevOp)
    requires OpFits(op)
    ensures |EncOp(op)| <= 164
  {
    hide EncVbr, ToBits;
    match op
    case Literal(v) => VbrLength(v, 8);
    case Fixed(w) => VbrLength(w, 5);
    case Vbr(w) => VbrLength(w, 5);
    case _ =>
  }

  lemma {:induction false} OpsLength(a: Abbrev)
    requires forall i :: 0 <= i < |a| ==> OpFits(a[i])
    ensures |EncOps(a)| <= 164 * |a|
  {
    hide EncOp, OpFits;
    if a != [] {
      OpLength(a[0]);
      OpsLength(a[1..]);
    }
  }

  lemma AbbrevLength(a: Abbrev)
    requires AbbrevFits(a)
    ensures |EncAbbrev(a)| <= 160 + 164 * |a|
  {
    hide EncVbr, EncOps, OpFits;
    VbrLength(|a|, 5);
    OpsLength(a);
  }

  lemma HeaderBound(off: nat, width: nat, block: Block)
    requires width <= 32 && block.id < WORD && block.width < WORD
    ensures |EncHeader(off, width, block)| <= 384
  {
    hide EncVbr, ToBits, Padding;
    VbrLength(block.id, 8);
    VbrLength(block.width, 4);
    PadLength(off + |ToBits(1, width) + (EncVbr(block.id, 8) + EncVbr(block.width, 4))|);
  }

  // ----- the writer accepts exactly this

  lemma DefinitionIff(a: Abbrev)
    ensures AbbrevFits(a) <==> |a| < 0x1_0000_0000_0000_0000 && DefinitionOk(a)
  {
    if AbbrevFits(a) { forall i | 0 <= i < |a| ensures OpFits(a[i]) {} }
    if DefinitionOk(a) { forall i | 0 <= i < |a| ensures OpFits(a[i]) { var op := a[i]; } }
  }

  lemma ValueIff(op: AbbrevOp, v: nat)
    ensures ScalarFits(op, v) <==> ValueOk(op, v)
  {
  }

  lemma {:induction false} FieldsIff(ops: Abbrev, values: seq<nat>, blob: Option<seq<bool>>)
    requires |values| < 0x1_0000_0000 && (blob.Some? ==> |blob.value| < 0x1_0000_0000_0000_0000)
    ensures Fits(ops, values, blob) <==> FieldsOk(ops, values, blob)
    decreases |ops|
  {
    hide ScalarFits, ValueOk;
    if ops == [] {
    } else if ops[0].Array? {
      if |ops| == 2 {
        forall i | 0 <= i < |values| ensures ScalarFits(ops[1], values[i]) <==> ValueOk(ops[1], values[i]) {
          ValueIff(ops[1], values[i]);
        }
      }
    } else if ops[0].Blob? {
    } else if values != [] {
      ValueIff(ops[0], values[0]);
      FieldsIff(ops[1..], values[1..], blob);
    }
  }

  /** The writer's state, from the items written so far. */
  function StateOf(reg: Registry, h: History): State { State(reg, Definitions(h), Target(h)) }

  lemma PlainIff(values: seq<nat>)
    requires |values| < 0x1_0000_0000
    ensures PlainFits(values) <==>
              0 < |values| && forall i :: 0 <= i < |values| ==> values[i] < 0x1_0000_0000_0000_0000
  {
    if PlainFits(values) { forall i | 0 <= i < |values| ensures ScalarFits(Vbr(6), values[i]) {} }
  }

  lemma PowersUpTo(w: nat)
    requires w <= 32
    ensures w >= 1 ==> 1 < Pow2(w)
    ensures 2 < Pow2(w) <==> w >= 2
    ensures 3 < Pow2(w) <==> w >= 2
  {
    if w >= 2 { Pow2Monotone(2, w); }
    assert Pow2(2) == 4 && Pow2(1) == 2 && Pow2(0) == 1;
  }

  lemma WriteIff(off: nat, c: Scope, reg: Registry, h: History, e: Element)
    requires e.Write? && 1 <= c.width <= 32
    ensures EncElement(off, c, reg, h, e).Some? <==>
              ElementFormed(c.depth, c.id, c.width, c.entry, StateOf(reg, h), e)
  {
    hide EncPlain, EncFields, Fits, PlainFits, Pow2, ToBits, Definitions, Target, FieldsOk;
    PowersUpTo(c.width);
    var values, blob := e.values, e.blob;
    if |values| < 0x1_0000_0000 { PlainIff(values); }
    if e.via.Some? && e.via.value < |Available(c, h)| && |values| < 0x1_0000_0000 {
      var ops := Available(c, h)[e.via.value];
      BlobSize(ops, values, blob);
      if blob.Some? ==> |blob.value| < 0x1_0000_0000_0000_0000 { FieldsIff(ops, values, blob); }
    }
  }

  lemma WriteEffect(off: nat, c: Scope, reg: Registry, h: History, e: Element)
    requires e.Write? && c.width <= 32 && EncElement(off, c, reg, h, e).Some?
    ensures var p := EncElement(off, c, reg, h, e).value;
            && AfterElement(c.id, StateOf(reg, h), e) == StateOf(p.reg, h + [p.item])
            && |p.bits| <= ElementWeight(e)
  {
    hide EncPlain, EncFields, Fits, PlainFits, Pow2, ToBits, AfterElement, StateOf, Available;
    var values, blob := e.values, e.blob;
    WriteReg(off, c, reg, h, values, blob, e.via);
    RecordState(c.id, reg, h, e, if blob.Some? then 1 else 0);
    if e.via.None? {
      PlainLength(values);
    } else {
      FieldsLength(off + c.width, Available(c, h)[e.via.value], values, blob);
    }
  }

  lemma RecordState(id: nat, reg: Registry, h: History, e: Element, blobs: nat)
    requires e.Write? && e.values != []
    ensures AfterElement(id, StateOf(reg, h), e)
         == StateOf(reg, h + [Record(Rec(e.values, blobs, e.via.Some?))])
  {
    hide Definitions, Target;
    SnocFormat(h, Record(Rec(e.values, blobs, e.via.Some?)));
    assert Definitions(h) + [] == Definitions(h);
  }

  /** A matching blob has a 64-bit size. */
  lemma {:induction false} BlobSize(ops: Abbrev, values: seq<nat>, blob: Option<seq<bool>>)
    ensures Fits(ops, values, blob) && blob.Some? ==> |blob.value| < 0x1_0000_0000_0000_0000
    decreases |ops|
  {
    hide ScalarFits;
    if ops != [] && !ops[0].Array? && !ops[0].Blob? && values != [] { BlobSize(ops[1..], values[1..], blob); }
  }

  lemma DefineIff(off: nat, c: Scope, reg: Registry, h: History, e: Element)
    requires e.DefineAbbrev? && 1 <= c.width <= 32
    ensures EncElement(off, c, reg, h, e).Some? <==>
              ElementFormed(c.depth, c.id, c.width, c.entry, StateOf(reg, h), e)
    ensures var p := EncElement(off, c, reg, h, e);
            p.Some? ==> AfterElement(c.id, StateOf(reg, h), e) == StateOf(p.value.reg, h + [p.value.item])
                        && |p.value.bits| <= ElementWeight(e)
  {
    hide EncAbbrev, AbbrevFits, Pow2, ToBits, Definitions, Target, DefinitionOk;
    PowersUpTo(c.width);
    DefinitionIff(e.abbrev);
    if AbbrevFits(e.abbrev) { AbbrevLength(e.abbrev); }
    SnocFormat(h, Define(e.abbrev));
  }

  /** What the writer accepts is formed, and what is formed and not too large it accepts; either way the
      state after it is the format's. */
  lemma {:induction false} BlockIff(off: nat, reg: Registry, depth: nat, block: Block)
    ensures EncBlock(off, reg, depth, block).Some? ==> BlockFormed(depth, reg, block)
    ensures BlockFormed(depth, reg, block) && BlockWeight(block) < 0x20_0000_0000 ==>
              EncBlock(off, reg, depth, block).Some?
    ensures var coded := EncBlock(off, reg, depth, block);
            coded.Some? ==>
              && AfterBody(block.id, State(reg, [], None), block.body).reg == coded.value.out.reg
              && |coded.value.bits| <= BlockWeight(block)
    decreases block, 2
  {
    hide EncElements, Padding, Aligned, Kids, Records, RecordCount, ToBits, BodyFormed, AfterBody;
    if 1 <= block.width <= 32 && depth <= 64 {
      var c := Scope(block.id, block.width, depth, Lookup(reg, block.id));
      NothingWritten(reg);
      ElementsIff(off, c, reg, [], block.body);
      var body := EncElements(off, c, reg, [], block.body);
      if body.Some? { PadLength(off + |body.value.bits| + block.width); }
    }
  }

  lemma NothingWritten(reg: Registry)
    ensures StateOf(reg, []) == State(reg, [], None)
  {
  }

  lemma {:induction false} ElementIff(off: nat, c: Scope, reg: Registry, h: History, e: Element)
    requires 1 <= c.width <= 32
    ensures EncElement(off, c, reg, h, e).Some? ==>
              ElementFormed(c.depth, c.id, c.width, c.entry, StateOf(reg, h), e)
    ensures ElementFormed(c.depth, c.id, c.width, c.entry, StateOf(reg, h), e) && ElementWeight(e) < 0x20_0000_0000 ==>
              EncElement(off, c, reg, h, e).Some?
    ensures var p := EncElement(off, c, reg, h, e);
            p.Some? ==> AfterElement(c.id, StateOf(reg, h), e) == StateOf(p.value.reg, h + [p.value.item])
                        && |p.value.bits| <= ElementWeight(e)
    decreases e, 0
  {
    match e
    case Write(_, _, _) =>
      WriteIff(off, c, reg, h, e);
      if EncElement(off, c, reg, h, e).Some? { WriteEffect(off, c, reg, h, e); }
    case DefineAbbrev(_) => DefineIff(off, c, reg, h, e);
    case SubBlock(block) => NestedIff(off, c, reg, h, block);
  }

  lemma {:induction false} NestedIff(off: nat, c: Scope, reg: Registry, h: History, block: Block)
    requires 1 <= c.width <= 32
    ensures var e := SubBlock(block);
            && (EncElement(off, c, reg, h, e).Some? ==>
                  ElementFormed(c.depth, c.id, c.width, c.entry, StateOf(reg, h), e))
            && (ElementFormed(c.depth, c.id, c.width, c.entry, StateOf(reg, h), e) ==>
                  ElementWeight(e) < 0x20_0000_0000 ==> EncElement(off, c, reg, h, e).Some?)
    ensures var e := SubBlock(block);
            var p := EncElement(off, c, reg, h, e);
            p.Some? ==> AfterElement(c.id, StateOf(reg, h), e) == StateOf(p.value.reg, h + [p.value.item])
                        && |p.value.bits| <= ElementWeight(e)
    decreases block, 3
  {
    hide EncBlock, EncHeader, ToBits, Pow2, BlockFormed, BlockWeight, AfterBody, Definitions, Target;
    PowersUpTo(c.width);
    var start := off + |EncHeader(off, c.width, block)| + 32;
    BlockIff(start, reg, c.depth + 1, block);
    var coded := EncBlock(start, reg, c.depth + 1, block);
    if coded.Some? && block.id < 0x1_0000_0000 {
      CodedWidth(start, reg, c.depth + 1, block);
      HeaderBound(off, c.width, block);
      SnocFormat(h, ChildOf(block.id, coded.value.out));
    }
  }

  lemma CodedWidth(off: nat, reg: Registry, depth: nat, block: Block)
    requires EncBlock(off, reg, depth, block).Some?
    ensures 1 <= block.width <= 32
  {
  }

  lemma {:induction false} ElementsIff(off: nat, c: Scope, reg: Registry, h: History, es: seq<Element>)
    requires 1 <= c.width <= 32
    ensures EncElements(off, c, reg, h, es).Some? ==>
              BodyFormed(c.depth, c.id, c.width, c.entry, StateOf(reg, h), es)
    ensures BodyFormed(c.depth, c.id, c.width, c.entry, StateOf(reg, h), es) && BodyWeight(es) < 0x20_0000_0000 ==>
              EncElements(off, c, reg, h, es).Some?
    ensures var body := EncElements(off, c, reg, h, es);
            body.Some? ==> AfterBody(c.id, StateOf(reg, h), es) == StateOf(body.value.reg, body.value.h)
                           && |body.value.bits| <= BodyWeight(es)
    decreases es, 1
  {
    hide EncElement, ElementFormed, ElementWeight, AfterElement, StateOf;
    if es != [] {
      ElementIff(off, c, reg, h, es[0]);
      var p := EncElement(off, c, reg, h, es[0]);
      if p.Some? {
        ElementsIff(off + |p.value.bits|, c, p.value.reg, h + [p.value.item], es[1..]);
      }
    }
  }

  /** Everything the writer writes is formed, and every formed file below the size bound, 16 GiB by a
      generous estimate, is written. */
  lemma FormedIsWritten(blocks: seq<Block>)
    ensures EncFile(blocks).Some? ==> FileFormed(blocks)
    ensures FileFormed(blocks) && BodyWeight(AsElements(blocks)) < 0x20_0000_0000 ==> EncFile(blocks).Some?
  {
    hide EncElements, BodyFormed, BodyWeight, AsElements, ToBits, Kids, Records, RecordCount;
    NothingWritten(map[]);
    assert Lookup(map[], 0xffff_ffff) == [];
    ElementsIff(32, Scope(0xffff_ffff, 2, 0, []), map[], [], AsElements(blocks));
  }

  /** Every formed file below the size bound in which no BLOCKINFO record goes through an abbreviation is
      read back from its bytes: blocks in preorder, records in stream order. */
  lemma FormedIsRead(blocks: seq<Block>)
    requires FileFormed(blocks) && BodyWeight(AsElements(blocks)) < 0x20_0000_0000
    requires PlainInfo(0xffff_ffff, AsElements(blocks))
    ensures EncFile(blocks).Some? && |EncFile(blocks).value.bits| % 8 == 0
    ensures var r := Parse(StreamBits(Pack(EncFile(blocks).value.bits)));
            && r.Some?
            && Shapes(r.value.blocks) == [Shape(0xffff_ffff, 2, 0, 0)] + InnerShapes(1, AsElements(blocks))
            && r.value.records == TreeRecords(0xffff_ffff, AsElements(blocks))
  {
    hide EncFile, FileFormed, BodyWeight, PlainInfo, AsElements, Parse, Pack, StreamBits, Shapes, InnerShapes;
    hide TreeRecords;
    FormedIsWritten(blocks);
    FileTables(blocks);
    FileMeans(blocks);
  }

  /** A block is refused more than 64 deep, and with an abbreviation id width of 0 or above 32; its
      content does not matter. */
  lemma BlockRefused(s: seq<bool>, off: nat, reg: Registry, id: nat, width: nat, depth: nat, limit: nat)
    requires limit <= |s| && (depth >= 65 || width == 0 || width >= 33)
    ensures ParseBlock(s, off, reg, id, width, depth, limit) == None
  {
  }

  // ----- the first bytes of a file

  /** The low a digits and the b above them. */
  lemma {:induction false} ToBitsSplit(v: nat, a: nat, b: nat, low: nat, high: nat)
    requires v == low + Pow2(a) * high && low < Pow2(a)
    ensures ToBits(v, a + b) == ToBits(low, a) + ToBits(high, b)
  {
    if a > 0 {
      HalfParts(v, Pow2(a - 1), low, high);
      ToBitsSplit(v / 2, a - 1, b, low / 2, high);
      assert ToBits(v, a + b) == [v % 2 == 1] + ToBits(v / 2, (a - 1) + b);
    }
  }

  lemma HalfParts(v: nat, p: nat, low: nat, high: nat)
    requires v == low + (2 * p) * high && low < 2 * p
    ensures v / 2 == low / 2 + p * high && v % 2 == low % 2 && low / 2 < p
  {
    MulAssoc(2, p, high);
  }

  /** Every written file starts with the bytes 'B' 'C' 0xc0 0xde. */
  lemma StartsWithMagic(blocks: seq<Block>)
    requires EncFile(blocks).Some?
    ensures |EncFile(blocks).value.bits| % 8 == 0 && |EncFile(blocks).value.bits| >= 32
    ensures var bytes := Pack(EncFile(blocks).value.bits);
            bytes[0] == 'B' as int && bytes[1] == 'C' as int && bytes[2] == 0xc0 && bytes[3] == 0xde
  {
    hide EncFile, Pack;
    FileWhole(blocks);
    var s := EncFile(blocks).value.bits;
    WordsAreBytes(|s|);
    MagicFirst(blocks);
    FirstBytes(s);
  }

  lemma FirstBytes(s: seq<bool>)
    requires |s| % 8 == 0 && |s| >= 32 && s[..32] == ToBits(0xdec0_4342, 32)
    ensures var bytes := Pack(s);
            bytes[0] == 'B' as int && bytes[1] == 'C' as int && bytes[2] == 0xc0 && bytes[3] == 0xde
  {
    hide ToBits, FromBits, Pow2;
    Pow2Values();
    var a, b, c, d := ToBits(0x42, 8), ToBits(0x43, 8), ToBits(0xc0, 8), ToBits(0xde, 8);
    ToBitsSplit(0xdec0_4342, 8, 24, 0x42, 0xde_c043);
    ToBitsSplit(0xde_c043, 8, 16, 0x43, 0xdec0);
    ToBitsSplit(0xdec0, 8, 8, 0xc0, 0xde);
    FromToBits(0x42, 8);
    FromToBits(0x43, 8);
    FromToBits(0xc0, 8);
    FromToBits(0xde, 8);
    assert s[..32] == a + (b + (c + d));
    ByteAt(s, a, b, c, d);
  }

  lemma ByteAt(s: seq<bool>, a: seq<bool>, b: seq<bool>, c: seq<bool>, d: seq<bool>)
    requires |s| >= 32 && |a| == |b| == |c| == |d| == 8 && s[..32] == a + (b + (c + d))
    ensures s[0..8] == a && s[8..16] == b && s[16..24] == c && s[24..32] == d
  {
    var t := s[..32];
    assert t[0..8] == a && t[8..16] == b && t[16..24] == c && t[24..32] == d;
    assert s[0..8] == t[0..8] && s[8..16] == t[8..16] && s[16..24] == t[16..24] && s[24..32] == t[24..32];
  }

  lemma MagicFirst(blocks: seq<Block>)
    requires EncFile(blocks).Some?
    ensures |EncFile(blocks).value.bits| >= 32 && EncFile(blocks).value.bits[..32] == ToBits(0xdec0_4342, 32)
  {
    hide EncElements, ToBits, Kids, Records, RecordCount;
  }
}
