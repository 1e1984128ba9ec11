/** The tokenised shader program: operands, their token encoding and the operand parser. */
module Tokens {

  type Token = t: nat | t < 0x1_0000_0000

  // ----- the format: operands as the header's field layout describes them

  datatype Selection = Mask(mask: nat) | Swizzle(x: nat, y: nat, z: nat, w: nat) | Select1(name: nat)

  datatype Components = Comp0 | Comp1 | Comp4(sel: Selection) | CompN

  /** The optional second operand token: modifiers, or a kind the parser ignores. */
  datatype Extension = NoExtension | Modifiers(modifier: nat, precision: nat, nonUniform: nat) | Ignored(kind: nat)

  /** The four-component form of a 64-bit immediate has two values, the one-component form one; each
      value has two words. */
  datatype Operand =
    | Register(typ: nat, comps: Components, ext: Extension, indices: seq<Index>)
    | Immediate(four: bool, ext: Extension, values: seq<Token>)
    | Immediate64(four: bool, ext: Extension, wide: seq<(Token, Token)>)

  /** One index dimension; relative indices nest whole operands. */
  datatype Index =
    | Imm32(value: Token)
    | Imm64(hi: Token, lo: Token)
    | Relative(op: Operand)
    | Imm32Relative(value: Token, op: Operand)

  function SelectionField(sel: Selection): nat {
    match sel
    case Mask(m) => 4 * m
    case Swizzle(x, y, z, w) => 1 + 4 * (x + 4 * y + 16 * z + 64 * w)
    case Select1(c) => 2 + 4 * c
  }

  predicate SelectionFits(sel: Selection) {
    match sel
    case Mask(m) => m < 16
    case Swizzle(x, y, z, w) => x < 4 && y < 4 && z < 4 && w < 4
    case Select1(c) => c < 4
  }

  function ComponentsCode(c: Components): nat {
    match c case Comp0 => 0 case Comp1 => 1 case Comp4(_) => 2 case CompN => 3
  }

  function ComponentsField(c: Components): nat { if c.Comp4? then SelectionField(c.sel) else 0 }

  function Representation(i: Index): nat {
    match i case Imm32(_) => 0 case Imm64(_, _) => 1 case Relative(_) => 2 case Imm32Relative(_, _) => 3
  }

  function RepresentationAt(indices: seq<Index>, k: nat): nat {
    if k < |indices| then Representation(indices[k]) else 0
  }

  predicate ExtensionFits(e: Extension) {
    match e
    case NoExtension => true
    case Modifiers(m, p, n) => m < 256 && p < 8 && n < 2
    case Ignored(k) => k < 64 && k != 1
  }

  function ExtensionTokens(e: Extension): seq<Token>
    requires ExtensionFits(e)
  {
    match e
    case NoExtension => []
    case Modifiers(m, p, n) => [1 + 0x40 * m + 0x4000 * p + 0x2_0000 * n]
    case Ignored(k) => [k]
  }

  /** Operand token 0 from its fields. */
  function Token0(comps: nat, sel: nat, typ: nat, dim: nat, r0: nat, r1: nat, r2: nat, extended: bool): (t: Token)
    requires comps < 4 && sel < 1024 && typ < 256 && dim < 4 && r0 < 8 && r1 < 8 && r2 < 8
  {
    comps + 4 * sel + 0x1000 * typ + 0x10_0000 * dim + 0x40_0000 * r0 + 0x200_0000 * r1 + 0x1000_0000 * r2
    + (if extended then 0x8000_0000 else 0)
  }

  /** What the format and the parser's record allow. */
  predicate OperandFits(op: Operand)
    decreases op, 0
  {
    match op
    case Register(typ, comps, ext, indices) =>
      && typ < 256 && typ != 4 && typ != 5
      && (comps.Comp4? ==> SelectionFits(comps.sel))
      && ExtensionFits(ext) && |indices| <= 3 && IndicesFit(indices)
    case Immediate(four, ext, values) =>
      ExtensionFits(ext) && |values| == (if four then 4 else 1)
    case Immediate64(four, ext, wide) =>
      ExtensionFits(ext) && |wide| == (if four then 2 else 1)
  }

  /** A 64-bit immediate of one component: two tokens for one component. */
  predicate Single64(op: Operand) { op.Immediate64? && !op.four }

  predicate IndexFits(i: Index)
    decreases i, 0
  {
    match i
    case Imm32(_) => true
    case Imm64(_, _) => true
    case Relative(op) => OperandFits(op) && !Single64(op)
    case Imm32Relative(_, op) => OperandFits(op) && !Single64(op)
  }

  predicate IndicesFit(xs: seq<Index>)
    decreases xs, 1
  {
    if xs == [] then true else IndexFits(xs[0]) && IndicesFit(xs[1..])
  }

  function HeadToken(op: Operand): Token
    requires OperandFits(op)
  {
    match op
    case Register(typ, comps, ext, indices) =>
      Token0(ComponentsCode(comps), ComponentsField(comps), typ, |indices|,
             RepresentationAt(indices, 0), RepresentationAt(indices, 1), RepresentationAt(indices, 2),
               !ext.NoExtension?)
    case Immediate(four, ext, values) =>
      Token0(if four then 2 else 1, 0, 4, 0, 0, 0, 0, !ext.NoExtension?)
    case Immediate64(four, ext, wide) =>
      Token0(if four then 2 else 1, 0, 5, 0, 0, 0, 0, !ext.NoExtension?)
  }

  /** Two tokens per value. */
  function WideTokens(wide: seq<(Token, Token)>): (ts: seq<Token>)
    ensures |ts| == 2 * |wide|
  {
    if wide == [] then [] else [wide[0].0, wide[0].1] + WideTokens(wide[1..])
  }

  function EncOperand(op: Operand): (ts: seq<Token>)
    requires OperandFits(op)
    ensures |ts| >= 1
    decreases op, 0
  {
    [HeadToken(op)] + (ExtensionTokens(op.ext) + (match op
                                                  case Register(_, _, _, indices) => EncIndices(indices)
                                                  case Immediate(_, _, values) => values
                                                  case Immediate64(_, _, wide) => WideTokens(wide)))
  }

  function EncIndex(i: Index): seq<Token>
    requires IndexFits(i)
    decreases i, 0
  {
    match i
    case Imm32(v) => [v]
    case Imm64(hi, lo) => [hi, lo]
    case Relative(op) => EncOperand(op)
    case Imm32Relative(v, op) => [v] + EncOperand(op)
  }

  function EncIndices(xs: seq<Index>): seq<Token>
    requires IndicesFit(xs)
    decreases xs, 1
  {
    if xs == [] then [] else EncIndex(xs[0]) + EncIndices(xs[1..])
  }

  // ----- the parser's records

  const IMMEDIATE32: nat := 4
  const IMMEDIATE64: nat := 5
  const MODIFIER: nat := 1

  datatype ParsedIndex = ParsedIndex(reg: nat, regHi: nat, relType: nat, component: nat, dimension: nat,
                                     precision: nat, rel: nat, rel1: nat)

  datatype Parsed = Parsed(typ: nat, comps: nat, extended: bool, selection: nat, writeMask: nat, swizzle: seq<nat>,
                           component: nat, extType: nat, modifier: nat, precision: nat, nonUniform: nat,
                           values: seq<nat>, dim: nat, indexTypes: seq<nat>, index: seq<ParsedIndex>)

  const NO_INDEX := ParsedIndex(0, 0, 0, 0, 0, 0, 0, 0)

  /** A freshly cleared operand record. */
  const CLEARED := Parsed(0, 0, false, 0, 0, [0, 0, 0, 0], 0, 0, 0, 0, 0, [0, 0, 0, 0], 0, [0, 0, 0],
    [NO_INDEX, NO_INDEX, NO_INDEX])

  predicate RecordOk(p: Parsed) {
    |p.swizzle| == 4 && |p.values| == 4 && |p.indexTypes| == 3 && |p.index| == 3 && p.dim < 4
    && forall i :: 0 <= i < 3 ==> p.indexTypes[i] < 4
  }

  // ----- the decoding macros

  function DecodeComps(t: Token): nat { t % 4 }
  function DecodeMode(t: Token): nat { t / 4 % 4 }
  function DecodeMask(t: Token): nat { t / 16 % 16 * 16 }
  function DecodeSwizzle(t: Token, k: nat): nat
    requires k < 4
  {
    if k == 0 then t / 16 % 4 else if k == 1 then t / 64 % 4 else if k == 2 then t / 256 % 4 else t / 1024 % 4
  }
  function DecodeSelect1(t: Token): nat { t / 16 % 4 }
  function DecodeType(t: Token): nat { t / 0x1000 % 256 }
  function DecodeDim(t: Token): nat { t / 0x10_0000 % 4 }
  /** The representation field is three bits wide; the mask keeps two of them. */
  function DecodeRepresentation(t: Token, k: nat): nat
    requires k < 3
  {
    if k == 0 then t / 0x40_0000 % 4 else if k == 1 then t / 0x200_0000 % 4 else t / 0x1000_0000 % 4
  }
  function DecodeExtended(t: Token): bool { t / 0x8000_0000 == 1 }
  function DecodeExtType(t: Token): nat { t % 64 }
  function DecodeModifier(t: Token): nat { t / 0x40 % 256 }
  function DecodePrecision(t: Token): nat { t / 0x4000 % 8 }
  function DecodeNonUniform(t: Token): nat { t / 0x2_0000 % 2 }

  // ----- what the parser computes

  /** Ok, an exception thrown by the source, or a read past the end of the tokens. */
  datatype Result<+T> = Ok(value: T, pos: nat) | Throw | Overrun

  predicate IsImmediate(typ: nat) { typ == IMMEDIATE32 || typ == IMMEDIATE64 }

  function ParseSelection(t: Token, p: Parsed): (r: Result<Parsed>)
    requires RecordOk(p)
    ensures r.Ok? ==> RecordOk(r.value) && r.value.dim == p.dim
  {
    var mode := DecodeMode(t);
    if mode == 0 then Ok(p.(selection := mode, writeMask := DecodeMask(t)), 0)
    else if mode == 1 then
      Ok(p.(selection := mode, swizzle := [DecodeSwizzle(t, 0), DecodeSwizzle(t, 1), DecodeSwizzle(t, 2),
        DecodeSwizzle(t, 3)]), 0)
    else if mode == 2 then
      var c := DecodeSelect1(t);
      Ok(p.(selection := mode, swizzle := [c, c, c, c], component := c), 0)
    else Throw
  }

  function IndexTypes(t: Token, dim: nat): (s: seq<nat>)
    ensures |s| == 3 && forall i :: 0 <= i < 3 ==> s[i] < 4
  {
    [if dim > 0 then DecodeRepresentation(t, 0) else 0,
     if dim > 1 then DecodeRepresentation(t, 1) else 0,
     if dim > 2 then DecodeRepresentation(t, 2) else 0]
  }

  /** The fields taken from token 0. */
  function ParseHead(t: Token): (r: Result<Parsed>)
    ensures r.Ok? ==> RecordOk(r.value)
  {
    var p := CLEARED.(typ := DecodeType(t), comps := DecodeComps(t), extended := DecodeExtended(t));
    if IsImmediate(p.typ) then Ok(p, 0)
    else
      var q := if p.comps == 2 then ParseSelection(t, p) else Ok(p, 0);
      if !q.Ok? then q
      else Ok(q.value.(dim := DecodeDim(t), indexTypes := IndexTypes(t, DecodeDim(t))), 0)
  }

  function WithExtension(p: Parsed, t: Token): (q: Parsed)
    requires RecordOk(p)
    ensures RecordOk(q) && q.dim == p.dim
  {
    var e := p.(extType := DecodeExtType(t));
    if e.extType == MODIFIER
    then e.(modifier := DecodeModifier(t), precision := DecodePrecision(t), nonUniform := DecodeNonUniform(t))
    else e
  }

  /** The number of value tokens after an immediate. */
  function ValueCount(p: Parsed): nat {
    if !IsImmediate(p.typ) then 0 else if p.comps == 1 then 1 else if p.comps == 2 then 4 else 0
  }

  function WithValues(p: Parsed, vs: seq<Token>): (q: Parsed)
    requires RecordOk(p) && |vs| <= 4
    ensures RecordOk(q) && q.dim == p.dim
  {
    p.(values := seq(4, i requires 0 <= i < 4 => if i < |vs| then vs[i] else p.values[i]))
  }

  /** Token 0 and the extension token, if announced. */
  function ParseStart(ts: seq<Token>, pos: nat): (r: Result<Parsed>)
    ensures r.Ok? ==> pos < r.pos <= |ts| && RecordOk(r.value)
  {
    if pos >= |ts| then Overrun
    else
      var head := ParseHead(ts[pos]);
      if !head.Ok? then head
      else if !head.value.extended then Ok(head.value, pos + 1)
      else if pos + 1 >= |ts| then Overrun
      else Ok(WithExtension(head.value, ts[pos + 1]), pos + 2)
  }

  function ParseOperand(ts: seq<Token>, pos: nat): (r: Result<Parsed>)
    ensures r.Ok? ==> pos < r.pos <= |ts| && RecordOk(r.value)
    decreases |ts| - pos, 0
  {
    match ParseStart(ts, pos)
    case Throw => Throw
    case Overrun => Overrun
    case Ok(p, next) =>
      if next + ValueCount(p) > |ts| then Overrun
      else ParseIndices(ts, next + ValueCount(p), WithValues(p, ts[next..next + ValueCount(p)]), 0)
  }

  function ParseIndices(ts: seq<Token>, pos: nat, p: Parsed, k: nat): (r: Result<Parsed>)
    requires pos <= |ts| && RecordOk(p) && k <= p.dim
    ensures r.Ok? ==> pos <= r.pos <= |ts| && RecordOk(r.value)
    decreases |ts| - pos, 2
  {
    if k == p.dim then Ok(p, pos)
    else match ParseIndex(ts, pos, p.indexTypes[k])
         case Ok(i, next) => ParseIndices(ts, next, p.(index := p.index[k := i]), k + 1)
         case Throw => Throw
         case Overrun => Overrun
  }

  /** What a relative index keeps of the operand it names. */
  function Flatten(i: ParsedIndex, op: Parsed): ParsedIndex
    requires RecordOk(op)
  {
    i.(rel := op.index[0].reg, rel1 := op.index[1].reg, relType := op.typ, dimension := op.dim,
       component := op.component, precision := op.precision)
  }

  function ParseIndex(ts: seq<Token>, pos: nat, representation: nat): (r: Result<ParsedIndex>)
    requires pos <= |ts|
    ensures r.Ok? ==> pos < r.pos <= |ts|
    decreases |ts| - pos, 1
  {
    if representation == 0 then
      if pos >= |ts| then Overrun else Ok(NO_INDEX.(reg := ts[pos], relType := IMMEDIATE32), pos + 1)
    else if representation == 1 then
      if pos + 1 >= |ts| then Overrun
      else Ok(NO_INDEX.(reg := ts[pos], regHi := ts[pos + 1], relType := IMMEDIATE64), pos + 2)
    else if representation == 2 then
      match ParseOperand(ts, pos)
      case Ok(op, next) => Ok(Flatten(NO_INDEX, op), next)
      case Throw => Throw
      case Overrun => Overrun
    else if representation == 3 then
      if pos >= |ts| then Overrun
      else match ParseOperand(ts, pos + 1)
           case Ok(op, next) => Ok(Flatten(NO_INDEX.(reg := ts[pos]), op), next)
           case Throw => Throw
           case Overrun => Overrun
    else Throw
  }
}
