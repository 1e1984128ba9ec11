/** What the bitstream parser computes, as functions of the stream. The state of a block being
    parsed is the history of what was read in it so far; the abbreviations in force, the current
    SETBID target and the record count are defined from that history. */
module Bitcode {
  import opened Options
  import opened Bits
  import opened Primitives

  const MAGIC: nat := 0xdec0_4342          // 'B' 'C' 0xc0 0xde
  const ROOT_ID: nat := 0xffff_ffff
  const MAX_DEPTH: nat := 64

  const END_BLOCK: nat := 0
  const ENTER_SUBBLOCK: nat := 1
  const DEFINE_ABBREV: nat := 2
  const UNABBREV_RECORD: nat := 3
  const FIRST_APPLICATION_ABBREV: nat := 4
  const BLOCKINFO_ID: nat := 0
  const SETBID_CODE: nat := 1

  datatype AbbrevOp = Literal(value: nat) | Fixed(width: nat) | Vbr(width: nat) | Array | Char6 | Blob
  type Abbrev = seq<AbbrevOp>
  type Registry = map<nat, seq<Abbrev>>

  /** A record as read: every value, the number of blobs, and how it was written. */
  datatype Rec = Rec(values: seq<nat>, blobs: nat, abbreviated: bool)

  datatype RecordInfo = RecordInfo(blockId: nat, code: nat, operandCount: nat, abbreviated: bool)

  datatype BlockInfo = BlockInfo(id: nat, width: nat, depth: nat, start: nat, end: nat, recordCount: nat)

  // ----- abbreviation definitions

  function ReadAbbrevOp(s: seq<bool>, off: nat): (r: Read<AbbrevOp>)
    ensures r.Got? ==> off < r.off <= |s|
  {
    match ReadFixed(s, off, 1)
    case Bad => Bad
    case Got(isLiteral, o1) =>
      if isLiteral != 0 then
        match ReadVbr(s, o1, 8)
        case Bad => Bad
        case Got(v, o2) => Got(Literal(v), o2)
      else
        match ReadFixed(s, o1, 3)
        case Bad => Bad
        case Got(encoding, o2) =>
          if encoding == 1 || encoding == 2 then
            match ReadVbr(s, o2, 5)
            case Bad => Bad
            case Got(v, o3) => Got(if encoding == 1 then Fixed(v) else Vbr(v), o3)
          else if encoding == 3 then Got(Array, o2)
          else if encoding == 4 then Got(Char6, o2)
          else if encoding == 5 then Got(Blob, o2)
          else Bad
  }

  function ReadAbbrevOps(s: seq<bool>, off: nat, n: nat, acc: Abbrev): (r: Read<Abbrev>)
    ensures r.Got? ==> off <= r.off && (off <= |s| ==> r.off <= |s|)
    decreases n
  {
    if n == 0 then Got(acc, off)
    else match ReadAbbrevOp(s, off)
         case Bad => Bad
         case Got(op, next) => ReadAbbrevOps(s, next, n - 1, acc + [op])
  }

  function ReadAbbrev(s: seq<bool>, off: nat): (r: Read<Abbrev>)
    ensures r.Got? ==> off < r.off <= |s|
  {
    match ReadVbr(s, off, 5)
    case Bad => Bad
    case Got(n, next) => ReadAbbrevOps(s, next, n, [])
  }

  // ----- records

  /** One value in the encoding op; widths are truncated to 32 bits as the source does. */
  function ReadScalar(s: seq<bool>, off: nat, op: AbbrevOp): (r: Read<nat>)
    ensures r.Got? ==> off <= r.off && (off <= |s| ==> r.off <= |s|)
  {
    match op
    case Literal(v) => Got(v, off)
    case Fixed(w) => ReadFixed(s, off, w % U32)
    case Vbr(w) => ReadVbr(s, off, w % U32)
    case Char6 => ReadFixed(s, off, 6)
    case Array => Bad
    case Blob => Bad
  }

  function ReadArray(s: seq<bool>, off: nat, elt: AbbrevOp, n: nat, acc: seq<nat>): (r: Read<seq<nat>>)
    ensures r.Got? ==> off <= r.off && (off <= |s| ==> r.off <= |s|)
    ensures r.Got? ==> |r.value| == |acc| + n && acc <= r.value
    decreases n
  {
    if n == 0 then Got(acc, off)
    else match ReadScalar(s, off, elt)
         case Bad => Bad
         case Got(v, next) => ReadArray(s, next, elt, n - 1, acc + [v])
  }

  /** Skips a blob: length, alignment, bytes, alignment. The value is the byte count. */
  function ReadBlob(s: seq<bool>, off: nat): (r: Read<nat>)
    ensures r.Got? ==> off < r.off <= |s|
  {
    match ReadVbr(s, off, 6)
    case Bad => Bad
    case Got(n, o1) =>
      if n > (WORD - 1) / 8 || Aligned(o1) > |s| || Aligned(o1) + n * 8 > |s|
         || Aligned(Aligned(o1) + n * 8) > |s|
      then Bad
      else Got(n, Aligned(Aligned(o1) + n * 8))
  }

  /** The values of a record written with the abbreviation ops, and its number of blobs. */
  function ReadFields(s: seq<bool>, off: nat, ops: Abbrev, values: seq<nat>, blobs: nat): (r: Read<Rec>)
    ensures r.Got? ==> off <= r.off && (off <= |s| ==> r.off <= |s|)
    ensures r.Got? ==> r.value.abbreviated && values <= r.value.values
    decreases |ops|
  {
    if ops == [] then Got(Rec(values, blobs, true), off)
    else match ops[0]
         case Array =>
           if |ops| < 2 then Bad
           else (match ReadVbr(s, off, 6)
                 case Bad => Bad
                 case Got(n, o1) =>
                   match ReadArray(s, o1, ops[1], n, values)
                   case Bad => Bad
                   case Got(vs, o2) => ReadFields(s, o2, ops[2..], vs, blobs))
         case Blob =>
           (match ReadBlob(s, off)
            case Bad => Bad
            case Got(_, o1) => ReadFields(s, o1, ops[1..], values, blobs + 1))
         case _ =>
           match ReadScalar(s, off, ops[0])
           case Bad => Bad
           case Got(v, o1) => ReadFields(s, o1, ops[1..], values + [v], blobs)
  }

  function ReadUnabbreviated(s: seq<bool>, off: nat): (r: Read<Rec>)
    ensures r.Got? ==> off < r.off <= |s| && r.value.values != []
    ensures r.Got? ==> !r.value.abbreviated && r.value.blobs == 0
  {
    match ReadVbr(s, off, 6)
    case Bad => Bad
    case Got(code, o1) =>
      match ReadVbr(s, o1, 6)
      case Bad => Bad
      case Got(n, o2) =>
        match ReadArray(s, o2, Vbr(6), n, [code])
        case Bad => Bad
        case Got(vs, o3) => Got(Rec(vs, 0, false), o3)
  }

  /** A record is summarised by its code and operand count, both in 32 bits. */
  function Summary(blockId: nat, rec: Rec): RecordInfo
    requires rec.values != []
  {
    var count :=
      if rec.abbreviated then
        var c := (|rec.values| + rec.blobs) % U32;
        if c > 0 then c - 1 else 0
      else (|rec.values| - 1) % U32;
    RecordInfo(blockId, rec.values[0] % U32, count, rec.abbreviated)
  }

  // ----- the elements of a block

  datatype Lexeme =
    | LEnd
    | LEnter(id: nat, width: nat, words: nat)
    | LDefine(abbrev: Abbrev)
    | LRecord(rec: Rec)

  function Lex(s: seq<bool>, off: nat, width: nat, abbrevs: seq<Abbrev>): (r: Read<Lexeme>)
    ensures r.Got? ==> off + width <= r.off <= |s|
    ensures r.Got? && r.value.LRecord? ==> r.value.rec.values != []
    ensures r.Got? && r.value.LEnter? ==> off + width < r.off
  {
    match ReadFixed(s, off, width)
    case Bad => Bad
    case Got(id, o1) => LexBody(s, o1, id, abbrevs)
  }

  /** The element that follows the abbreviation id. */
  function LexBody(s: seq<bool>, off: nat, id: nat, abbrevs: seq<Abbrev>): (r: Read<Lexeme>)
    ensures r.Got? && off <= |s| ==> off <= r.off <= |s|
    ensures r.Got? && r.value.LRecord? ==> r.value.rec.values != []
    ensures r.Got? && r.value.LEnter? ==> off < r.off
  {
    if id == END_BLOCK then
      if Aligned(off) > |s| then Bad else Got(LEnd, Aligned(off))
    else if id == ENTER_SUBBLOCK then LexEnter(s, off)
    else if id == DEFINE_ABBREV then
      match ReadAbbrev(s, off)
      case Bad => Bad
      case Got(a, next) => Got(LDefine(a), next)
    else if id == UNABBREV_RECORD then
      match ReadUnabbreviated(s, off)
      case Bad => Bad
      case Got(rec, next) => Got(LRecord(rec), next)
    else if id - FIRST_APPLICATION_ABBREV >= |abbrevs| then Bad
    else
      match ReadFields(s, off, abbrevs[id - FIRST_APPLICATION_ABBREV], [], 0)
      case Bad => Bad
      case Got(rec, next) => if rec.values == [] then Bad else Got(LRecord(rec), next)
  }

  function LexEnter(s: seq<bool>, off: nat): (r: Read<Lexeme>)
    ensures r.Got? ==> off < r.off <= |s| && r.value.LEnter?
  {
    match ReadVbr(s, off, 8)
    case Bad => Bad
    case Got(id, o1) =>
      match ReadVbr(s, o1, 4)
      case Bad => Bad
      case Got(width, o2) =>
        if Aligned(o2) > |s| then Bad
        else match ReadFixed(s, Aligned(o2), 32)
             case Bad => Bad
             case Got(words, o3) => Got(LEnter(id, width, words), o3)
  }

  // ----- the history of a block and what it determines

  /** A nested block keeps its id, the list it found on entry and everything read in it. */
  datatype Item =
    | Child(id: nat, entry: seq<Abbrev>, items: seq<Item>, blocks: seq<BlockInfo>, records: seq<RecordInfo>)
    | Define(abbrev: Abbrev)
    | Record(rec: Rec)

  predicate ValidItem(it: Item) { it.Record? ==> it.rec.values != [] }

  type History = h: seq<Item> | forall i :: 0 <= i < |h| ==> ValidItem(h[i])

  predicate IsSetBid(id: nat, it: Item)
    requires ValidItem(it)
  {
    id == BLOCKINFO_ID && it.Record? && it.rec.values[0] % U32 == SETBID_CODE && |it.rec.values| >= 2
  }

  /** The block id named by the last SETBID record of a BLOCKINFO block; 0 when there is none. */
  function SetBid(id: nat, h: History): nat {
    if h == [] then 0
    else
      var it := h[|h| - 1];
      if IsSetBid(id, it) then it.rec.values[1] % U32 else SetBid(id, h[..|h| - 1])
  }

  /** A definition read after h goes to the registry instead of the block's own list. */
  predicate Registers(id: nat, h: History) { id == BLOCKINFO_ID && SetBid(id, h) != 0 }

  /** The definitions that belong to the block itself, in order. */
  function OwnDefs(id: nat, h: History): seq<Abbrev> {
    if h == [] then []
    else
      var rest: History, it := h[..|h| - 1], h[|h| - 1];
      if it.Define? && !Registers(id, rest) then OwnDefs(id, rest) + [it.abbrev] else OwnDefs(id, rest)
  }

  function RecordCount(h: History): nat {
    if h == [] then 0 else RecordCount(h[..|h| - 1]) + (if h[|h| - 1].Record? then 1 else 0)
  }

  /** The blocks nested in the block, in stream order. */
  function Kids(h: History): seq<BlockInfo> {
    if h == [] then []
    else Kids(h[..|h| - 1]) + (if h[|h| - 1].Child? then h[|h| - 1].blocks else [])
  }

  /** The records of the block and of the blocks nested in it, in stream order. */
  function Records(id: nat, h: History): seq<RecordInfo> {
    if h == [] then []
    else Records(id, h[..|h| - 1]) + RecordsOf(id, h[|h| - 1])
  }

  function RecordsOf(id: nat, it: Item): seq<RecordInfo>
    requires ValidItem(it)
  {
    match it
    case Child(_, _, _, _, rs) => rs
    case Define(_) => []
    case Record(rec) => [Summary(id, rec)]
  }

  function Lookup(reg: Registry, id: nat): seq<Abbrev> { if id in reg then reg[id] else [] }

  function Register(reg: Registry, id: nat, a: Abbrev): Registry { reg[id := Lookup(reg, id) + [a]] }

  /** The registry after a definition read with history h. */
  function AfterDefine(reg: Registry, id: nat, h: History, a: Abbrev): Registry {
    if Registers(id, h) then Register(reg, SetBid(id, h), a) else reg
  }

  // ----- blocks

  /** A block being read: its header and the registered abbreviations found on entry. */
  datatype Frame = Frame(id: nat, width: nat, depth: nat, start: nat, limit: nat, entry: seq<Abbrev>)

  /** The abbreviations a block may use after h: those registered for it on entry, then its own. */
  function InForce(b: Frame, h: History): seq<Abbrev> { b.entry + OwnDefs(b.id, h) }

  /** The outcome of a block: where it ends, its tables, the registry after it, the abbreviations
      found on entry and the items read in it. */
  datatype Out =
    Out(off: nat, blocks: seq<BlockInfo>, records: seq<RecordInfo>, reg: Registry, entry: seq<Abbrev>,
        items: seq<Item>)

  function ChildOf(id: nat, o: Out): Item { Child(id, o.entry, o.items, o.blocks, o.records) }

  function Close(b: Frame, off: nat, reg: Registry, h: History): Out {
    Out(off, [BlockInfo(b.id, b.width, b.depth, b.start, off, RecordCount(h))] + Kids(h), Records(b.id, h), reg,
      b.entry, h)
  }

  predicate FrameOk(s: seq<bool>, b: Frame) { 1 <= b.width <= 32 && b.limit <= |s| }

  function ParseBlock(
    s: seq<bool>, off: nat, reg: Registry, id: nat, width: nat, depth: nat, limit: nat): (r: Option<Out>)
    requires limit <= |s|
    ensures r.Some? ==> off <= r.value.off <= limit
    decreases |s| - off, 1
  {
    if depth > MAX_DEPTH || width == 0 || width > 32 then None
    else ParseItems(s, Frame(id, width, depth, off, limit, Lookup(reg, id)), off, reg, [])
  }

  /** A nested block; afterwards the cursor stands at the end its header declared. */
  function ParseChild(
    s: seq<bool>, off: nat, reg: Registry, id: nat, width: nat, words: nat, depth: nat, limit: nat): (r: Option<Out>)
    requires limit <= |s|
    ensures r.Some? ==> off <= r.value.off == off + words * 32 <= limit
    decreases |s| - off, 2
  {
    var childEnd := off + words * 32;
    if childEnd > limit then None
    else match ParseBlock(s, off, reg, id % U32, width % U32, depth + 1, childEnd)
         case None => None
         case Some(o) => Some(o.(off := childEnd))
  }

  function ParseItems(s: seq<bool>, b: Frame, off: nat, reg: Registry, h: History): (r: Option<Out>)
    requires FrameOk(s, b)
    ensures r.Some? ==> off <= r.value.off <= b.limit
    decreases |s| - off, 0
  {
    if off >= b.limit then
      if off == b.limit then Some(Close(b, off, reg, h)) else None
    else match Lex(s, off, b.width, InForce(b, h))
         case Bad => None
         case Got(LEnd, next) => if next > b.limit then None else Some(Close(b, next, reg, h))
         case Got(LEnter(id, width, words), next) =>
           (match ParseChild(s, next, reg, id, width, words, b.depth, b.limit)
            case None => None
            case Some(o) => ParseItems(s, b, o.off, o.reg, h + [ChildOf(id % U32, o)]))
         case Got(LDefine(a), next) =>
           ParseItems(s, b, next, AfterDefine(reg, b.id, h, a), h + [Define(a)])
         case Got(LRecord(rec), next) =>
           ParseItems(s, b, next, reg, h + [Record(rec)])
  }

  /** The whole parse: the magic number, then the root block up to the end of the stream. */
  function Parse(s: seq<bool>): Option<Out> {
    match ReadFixed(s, 0, 32)
    case Bad => None
    case Got(magic, off) =>
      if magic != MAGIC then None else ParseBlock(s, off, map[], ROOT_ID, 2, 0, |s|)
  }

  // ----- one step of the block loop

  /** What one more item adds to the quantities a history determines. */
  lemma Snoc(id: nat, h: History, it: Item)
    requires ValidItem(it)
    ensures var h': History := h + [it];
            && Kids(h') == Kids(h) + (if it.Child? then it.blocks else [])
            && RecordCount(h') == RecordCount(h) + (if it.Record? then 1 else 0)
            && SetBid(id, h') == (if IsSetBid(id, it) then it.rec.values[1] % U32 else SetBid(id, h))
            && OwnDefs(id, h') == OwnDefs(id, h) + (if it.Define? && !Registers(id, h) then [it.abbrev] else [])
            && Records(id, h') == Records(id, h) + RecordsOf(id, it)
  {
    assert (h + [it])[..|h|] == h;
  }

  lemma StepEnd(s: seq<bool>, b: Frame, off: nat, reg: Registry, h: History)
    requires FrameOk(s, b)
    ensures off >= b.limit ==>
              ParseItems(s, b, off, reg, h) == if off == b.limit then Some(Close(b, off, reg, h)) else None
    ensures off < b.limit ==>
              var r := Lex(s, off, b.width, InForce(b, h));
              && (r.Bad? ==> ParseItems(s, b, off, reg, h) == None)
              && (r.Got? && r.value.LEnd? ==>
                    ParseItems(s, b, off, reg, h) == if r.off > b.limit then None else Some(Close(b, r.off, reg, h)))
  {
  }

  lemma StepChild(
    s: seq<bool>, b: Frame, off: nat, reg: Registry, h: History, id: nat, width: nat, words: nat, next: nat)
    requires FrameOk(s, b) && off < b.limit
    requires Lex(s, off, b.width, InForce(b, h)) == Got(LEnter(id, width, words), next)
    ensures ParseItems(s, b, off, reg, h)
         == match ParseChild(s, next, reg, id, width, words, b.depth, b.limit)
            case None => None
            case Some(o) => ParseItems(s, b, o.off, o.reg, h + [ChildOf(id % U32, o)])
  {
  }

  lemma StepDefine(s: seq<bool>, b: Frame, off: nat, reg: Registry, h: History, a: Abbrev, next: nat)
    requires FrameOk(s, b) && off < b.limit
    requires Lex(s, off, b.width, InForce(b, h)) == Got(LDefine(a), next)
    ensures ParseItems(s, b, off, reg, h)
         == ParseItems(s, b, next, AfterDefine(reg, b.id, h, a), h + [Define(a)])
  {
  }

  lemma StepRecord(s: seq<bool>, b: Frame, off: nat, reg: Registry, h: History, rec: Rec, next: nat)
    requires FrameOk(s, b) && off < b.limit && rec.values != []
    requires Lex(s, off, b.width, InForce(b, h)) == Got(LRecord(rec), next)
    ensures ParseItems(s, b, off, reg, h) == ParseItems(s, b, next, reg, h + [Record(rec)])
  {
  }

  lemma LexIsBody(s: seq<bool>, off: nat, width: nat, abbrevs: seq<Abbrev>, id: nat)
    requires ReadFixed(s, off, width) == Got(id, off + width)
    ensures Lex(s, off, width, abbrevs) == LexBody(s, off + width, id, abbrevs)
    ensures id == ENTER_SUBBLOCK ==> LexBody(s, off + width, id, abbrevs) == LexEnter(s, off + width)
  {
    hide LexEnter, ReadAbbrev, ReadUnabbreviated, ReadFields;
  }

  // ----- one operand of an abbreviation

  lemma FieldsNone(s: seq<bool>, off: nat, values: seq<nat>, blobs: nat)
    ensures ReadFields(s, off, [], values, blobs) == Got(Rec(values, blobs, true), off)
  {
  }

  lemma FieldsArray(s: seq<bool>, off: nat, ops: Abbrev, values: seq<nat>, blobs: nat)
    requires ops != [] && ops[0] == Array
    ensures ReadFields(s, off, ops, values, blobs) ==
            if |ops| < 2 then Bad
            else (match ReadVbr(s, off, 6)
                  case Bad => Bad
                  case Got(n, o1) =>
                    match ReadArray(s, o1, ops[1], n, values)
                    case Bad => Bad
                    case Got(vs, o2) => ReadFields(s, o2, ops[2..], vs, blobs))
  {
    hide ReadVbr, ReadArray, ReadScalar, ReadBlob;
  }

  lemma FieldsBlob(s: seq<bool>, off: nat, ops: Abbrev, values: seq<nat>, blobs: nat)
    requires ops != [] && ops[0] == Blob
    ensures ReadFields(s, off, ops, values, blobs) ==
            match ReadBlob(s, off)
            case Bad => Bad
            case Got(_, o1) => ReadFields(s, o1, ops[1..], values, blobs + 1)
  {
    hide ReadVbr, ReadArray, ReadScalar, ReadBlob;
  }

  lemma FieldsScalar(s: seq<bool>, off: nat, ops: Abbrev, values: seq<nat>, blobs: nat)
    requires ops != [] && ops[0] != Array && ops[0] != Blob
    ensures ReadFields(s, off, ops, values, blobs) ==
            match ReadScalar(s, off, ops[0])
            case Bad => Bad
            case Got(v, o1) => ReadFields(s, o1, ops[1..], values + [v], blobs)
  {
    hide ReadVbr, ReadArray, ReadScalar, ReadBlob;
  }
}
