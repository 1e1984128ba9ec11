/** A writer for the LLVM Bitcode File Format, from its sections "Abbreviation IDs", "Blocks",
    "Data Records", "Abbreviations" and "BLOCKINFO Block". It fails on what the format forbids and
    returns, beside the bits, what a reader must report about them. The numbers are those of the
    format: magic 'B' 'C' 0xc0 0xde, abbreviation ids 0 END_BLOCK, 1 ENTER_SUBBLOCK, 2 DEFINE_ABBREV,
    3 UNABBREV_RECORD and 4 on for defined abbreviations, block 0 BLOCKINFO with record 1 SETBID. */
module Writer {
  import opened Options
  import opened Bits
  import opened Primitives
  import opened Bitcode

  datatype Block = Block(id: nat, width: nat, body: seq<Element>)

  /** A record is a logical list of values, code first, possibly with a blob at its end;
      via is the abbreviation it is written through, counted in the list in force. */
  datatype Element =
    | SubBlock(block: Block)
    | DefineAbbrev(abbrev: Abbrev)
    | Write(values: seq<nat>, blob: Option<seq<bool>>, via: Option<nat>)

  // ----- abbreviation definitions

  predicate OpFits(op: AbbrevOp) {
    && (op.Literal? ==> op.value < 0x1_0000_0000_0000_0000)
    && ((op.Fixed? || op.Vbr?) ==> op.width < 0x1_0000_0000_0000_0000)
  }

  predicate AbbrevFits(a: Abbrev) {
    |a| < 0x1_0000_0000_0000_0000 && forall i :: 0 <= i < |a| ==> OpFits(a[i])
  }

  function EncOp(op: AbbrevOp): seq<bool> {
    match op
    case Literal(v) => [true] + EncVbr(v, 8)
    case Fixed(w) => [false] + (ToBits(1, 3) + EncVbr(w, 5))
    case Vbr(w) => [false] + (ToBits(2, 3) + EncVbr(w, 5))
    case Array => [false] + ToBits(3, 3)
    case Char6 => [false] + ToBits(4, 3)
    case Blob => [false] + ToBits(5, 3)
  }

  function EncOps(a: Abbrev): seq<bool> {
    if a == [] then [] else EncOp(a[0]) + EncOps(a[1..])
  }

  function EncAbbrev(a: Abbrev): seq<bool> { EncVbr(|a|, 5) + EncOps(a) }

  // ----- records

  predicate ScalarFits(op: AbbrevOp, v: nat) {
    match op
    case Literal(x) => v == x
    case Fixed(w) => w <= 64 && v < Pow2(w)
    case Vbr(w) => 2 <= w <= 32 && v < 0x1_0000_0000_0000_0000
    case Char6 => v < 64
    case Array => false
    case Blob => false
  }

  function EncScalar(op: AbbrevOp, v: nat): seq<bool>
    requires ScalarFits(op, v)
  {
    match op
    case Literal(_) => []
    case Fixed(w) => ToBits(v, w)
    case Vbr(w) => EncVbr(v, w)
    case Char6 => ToBits(v, 6)
  }

  predicate AllFit(op: AbbrevOp, vs: seq<nat>) {
    forall i :: 0 <= i < |vs| ==> ScalarFits(op, vs[i])
  }

  function EncItems(op: AbbrevOp, vs: seq<nat>): seq<bool>
    requires AllFit(op, vs)
  {
    if vs == [] then [] else EncScalar(op, vs[0]) + EncItems(op, vs[1..])
  }

  predicate BlobFits(bits: seq<bool>) { |bits| % 8 == 0 && |bits| < 0x1_0000_0000_0000_0000 }

  /** The values and the blob are exactly what the operands describe; an array takes all the
      values left and stands second to last, a blob stands last. */
  predicate Fits(ops: Abbrev, values: seq<nat>, blob: Option<seq<bool>>)
    decreases |ops|
  {
    if ops == [] then values == [] && blob.None?
    else if ops[0].Array? then |ops| == 2 && blob.None? && |values| < 0x1_0000_0000_0000_0000 && AllFit(ops[1], values)
    else if ops[0].Blob? then |ops| == 1 && values == [] && blob.Some? && BlobFits(blob.value)
    else values != [] && ScalarFits(ops[0], values[0]) && Fits(ops[1..], values[1..], blob)
  }

  function EncBlob(off: nat, bits: seq<bool>): seq<bool> {
    var len := EncVbr(|bits| / 8, 6);
    var pad := Padding(off + |len|);
    len + (pad + (bits + Padding(off + |len| + |pad| + |bits|)))
  }

  function EncFields(off: nat, ops: Abbrev, values: seq<nat>, blob: Option<seq<bool>>): seq<bool>
    requires Fits(ops, values, blob)
    decreases |ops|
  {
    if ops == [] then []
    else if ops[0].Array? then EncVbr(|values|, 6) + EncItems(ops[1], values)
    else if ops[0].Blob? then EncBlob(off, blob.value)
    else
      var e := EncScalar(ops[0], values[0]);
      e + EncFields(off + |e|, ops[1..], values[1..], blob)
  }

  predicate PlainFits(values: seq<nat>) {
    values != [] && |values| <= 0x1_0000_0000_0000_0000 && AllFit(Vbr(6), values)
  }

  function EncPlain(values: seq<nat>): seq<bool>
    requires PlainFits(values)
  {
    assert ScalarFits(Vbr(6), values[0]);
    EncVbr(values[0], 6) + (EncVbr(|values| - 1, 6) + EncItems(Vbr(6), values[1..]))
  }

  // ----- elements and blocks

  datatype Scope = Scope(id: nat, width: nat, depth: nat, entry: seq<Abbrev>)

  /** Every definition among the items, in order. */
  function Definitions(h: History): seq<Abbrev> {
    if h == [] then []
    else Definitions(h[..|h| - 1]) + (if h[|h| - 1].Define? then [h[|h| - 1].abbrev] else [])
  }

  /** The abbreviations of the format: those registered for the block id when the block was entered,
      then the definitions made in the block; those made in a BLOCKINFO block are for other blocks. */
  function Available(c: Scope, h: History): seq<Abbrev> {
    c.entry + (if c.id == 0 then [] else Definitions(h))
  }

  /** The block id given by the latest SETBID record; codes and block ids have 32 bits. */
  function Target(h: seq<Item>): Option<nat> {
    if h == [] then None
    else
      var it := h[|h| - 1];
      if it.Record? && |it.rec.values| >= 2 && it.rec.values[0] % 0x1_0000_0000 == 1
      then Some(it.rec.values[1] % 0x1_0000_0000)
      else Target(h[..|h| - 1])
  }

  /** An encoded element: its bits, what it means and the registry after it. */
  datatype Piece = Piece(bits: seq<bool>, item: Item, reg: Registry)

  datatype Body = Body(bits: seq<bool>, h: History, reg: Registry)

  datatype Coded = Coded(bits: seq<bool>, out: Out)

  /** The abbreviation id, if it fits the width. */
  predicate IdFits(c: Scope, n: nat) { 1 <= c.width <= 32 && n < Pow2(c.width) }

  function EncWrite(
    off: nat, c: Scope, reg: Registry, h: History, values: seq<nat>, blob: Option<seq<bool>>, via: Option<nat>)
    : (r: Option<Piece>)
    ensures r.Some? ==> ValidItem(r.value.item) && |r.value.bits| >= c.width >= 1
  {
    if values == [] || |values| + (if blob.Some? then 1 else 0) >= 0x1_0000_0000 then None
    else match via
         case None =>
           if blob.None? && PlainFits(values) && IdFits(c, 3)
           then Some(Piece(ToBits(3, c.width) + EncPlain(values), Record(Rec(values, 0, false)), reg))
           else None
         case Some(k) =>
           if k < |Available(c, h)| && IdFits(c, k + 4) && Fits(Available(c, h)[k], values, blob)
           then
             var id := ToBits(k + 4, c.width);
             Some(Piece(id + EncFields(off + c.width, Available(c, h)[k], values, blob),
                        Record(Rec(values, if blob.Some? then 1 else 0, true)), reg))
           else None
  }

  /** A definition. In a BLOCKINFO block it must follow a SETBID record and is registered for the
      block id that one gives, whatever the id. */
  function EncDefine(c: Scope, reg: Registry, h: History, a: Abbrev): (r: Option<Piece>)
    ensures r.Some? ==> ValidItem(r.value.item) && |r.value.bits| >= c.width >= 1
  {
    var target := Target(h);
    if !AbbrevFits(a) || !IdFits(c, 2) then None
    else if c.id == 0 && target == None then None
    else
      var reg' := if c.id == 0 then Register(reg, target.value, a) else reg;
      Some(Piece(ToBits(2, c.width) + EncAbbrev(a), Define(a), reg'))
  }

  /** The header of a nested block up to its length word. */
  function EncHeader(off: nat, width: nat, block: Block): seq<bool> {
    var head := ToBits(1, width) + (EncVbr(block.id, 8) + EncVbr(block.width, 4));
    head + Padding(off + |head|)
  }

  function EncElement(off: nat, c: Scope, reg: Registry, h: History, e: Element): (r: Option<Piece>)
    ensures r.Some? ==> ValidItem(r.value.item) && |r.value.bits| >= c.width >= 1
    decreases e, 0
  {
    match e
    case Write(values, blob, via) => EncWrite(off, c, reg, h, values, blob, via)
    case DefineAbbrev(a) => EncDefine(c, reg, h, a)
    case SubBlock(block) =>
      var header := EncHeader(off, c.width, block);
      if !IdFits(c, 1) || block.id >= 0x1_0000_0000 then None
      else match EncBlock(off + |header| + 32, reg, c.depth + 1, block)
           case None => None
           case Some(coded) =>
             if |coded.bits| / 32 >= 0x1_0000_0000 then None
             else Some(Piece(header + (ToBits(|coded.bits| / 32, 32) + coded.bits),
                             ChildOf(block.id, coded.out), coded.out.reg))
  }

  function EncElements(off: nat, c: Scope, reg: Registry, h: History, es: seq<Element>): Option<Body>
    decreases es, 1
  {
    if es == [] then Some(Body([], h, reg))
    else match EncElement(off, c, reg, h, es[0])
         case None => None
         case Some(p) =>
           match EncElements(off + |p.bits|, c, p.reg, h + [p.item], es[1..])
           case None => None
           case Some(rest) => Some(Body(p.bits + rest.bits, rest.h, rest.reg))
  }

  /** The body of a block from the aligned offset off: its elements, END_BLOCK and the padding. */
  function EncBlock(off: nat, reg: Registry, depth: nat, block: Block): Option<Coded>
    decreases block, 2
  {
    if depth > 64 || block.width == 0 || block.width > 32 then None
    else
      var c := Scope(block.id, block.width, depth, Lookup(reg, block.id));
      match EncElements(off, c, reg, [], block.body)
      case None => None
      case Some(body) =>
        var stop := off + |body.bits| + block.width;
        Some(Coded(body.bits + (ToBits(0, block.width) + Padding(stop)),
                   Close(Frame(block.id, block.width, depth, off, 0, Lookup(reg, block.id)), Aligned(stop), body.reg,
                     body.h)))
  }

  function AsElements(blocks: seq<Block>): seq<Element> {
    seq(|blocks|, i requires 0 <= i < |blocks| => SubBlock(blocks[i]))
  }

  /** A file is the magic number and top-level blocks, whose abbreviation id width is 2. */
  function EncFile(blocks: seq<Block>): Option<Coded> {
    var c := Scope(0xffff_ffff, 2, 0, Lookup(map[], 0xffff_ffff));
    match EncElements(32, c, map[], [], AsElements(blocks))
    case None => None
    case Some(body) =>
      var bits := ToBits(0xdec0_4342, 32) + body.bits;
      Some(Coded(bits, Close(Frame(0xffff_ffff, 2, 0, 32, 0, []), |bits|, body.reg, body.h)))
  }

  // ----- what a tree of blocks means, without bits

  datatype Shape = Shape(id: nat, width: nat, depth: nat, recordCount: nat)

  function Writes(es: seq<Element>): nat {
    if es == [] then 0 else (if es[0].Write? then 1 else 0) + Writes(es[1..])
  }

  /** The blocks of a tree in preorder, with their depths and own record counts. */
  function ShapesOf(depth: nat, block: Block): seq<Shape>
    decreases block, 2
  {
    [Shape(block.id, block.width, depth, Writes(block.body))] + InnerShapes(depth + 1, block.body)
  }

  function ElementShapes(depth: nat, e: Element): seq<Shape>
    decreases e, 0
  {
    match e
    case SubBlock(block) => ShapesOf(depth, block)
    case DefineAbbrev(_) => []
    case Write(_, _, _) => []
  }

  function InnerShapes(depth: nat, es: seq<Element>): seq<Shape>
    decreases es, 1
  {
    if es == [] then [] else ElementShapes(depth, es[0]) + InnerShapes(depth, es[1..])
  }

  /** The records of a tree in stream order: block, code, operand count, and how written. */
  function ElementRecords(id: nat, e: Element): seq<RecordInfo>
    decreases e, 0
  {
    match e
    case SubBlock(block) => TreeRecords(block.id, block.body)
    case DefineAbbrev(_) => []
    case Write(values, blob, via) =>
      if values == [] then []
      else [RecordInfo(id, values[0] % 0x1_0000_0000, |values| - 1 + (if blob.Some? then 1 else 0), via.Some?)]
  }

  function TreeRecords(id: nat, es: seq<Element>): seq<RecordInfo>
    decreases es, 1
  {
    if es == [] then [] else ElementRecords(id, es[0]) + TreeRecords(id, es[1..])
  }

  function ShapeOf(b: BlockInfo): Shape { Shape(b.id, b.width, b.depth, b.recordCount) }

  function Shapes(bs: seq<BlockInfo>): seq<Shape> {
    seq(|bs|, i requires 0 <= i < |bs| => ShapeOf(bs[i]))
  }
}
