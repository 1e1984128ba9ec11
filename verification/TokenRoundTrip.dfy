/** The operand parser inverts the token encoding, with relative indices nested to any depth. */
module TokenRoundTrip {
  import opened Tokens
  import Bits

  // ----- what an operand means to the parser

  /** The immediate register number of an index; a purely relative index has none. */
  function RegOf(i: Index): nat {
    match i
    case Imm32(v) => v
    case Imm64(hi, _) => hi
    case Relative(_) => 0
    case Imm32Relative(v, _) => v
  }

  function RegNumber(op: Operand, k: nat): nat {
    if op.Register? && k < |op.indices| then RegOf(op.indices[k]) else 0
  }

  function TypeOf(op: Operand): nat {
    if op.Register? then op.typ else if op.Immediate? then 4 else 5
  }

  function DimensionOf(op: Operand): nat { if op.Register? then |op.indices| else 0 }

  function ComponentOf(op: Operand): nat {
    if op.Register? && op.comps.Comp4? && op.comps.sel.Select1? then op.comps.sel.name else 0
  }

  function PrecisionOf(op: Operand): nat { if op.ext.Modifiers? then op.ext.precision else 0 }

  /** An index dimension the operand does not have. */
  function Unused(): ParsedIndex { ParsedIndex(0, 0, 0, 0, 0, 0, 0, 0) }

  /** A relative index keeps type, register numbers, dimension, component and precision of its
      operand; whatever that operand's own indices nest further is dropped. */
  function IndexMeaning(i: Index): ParsedIndex {
    match i
    case Imm32(v) => ParsedIndex(v, 0, 4, 0, 0, 0, 0, 0)
    case Imm64(hi, lo) => ParsedIndex(hi, lo, 5, 0, 0, 0, 0, 0)
    case Relative(op) => Summarised(Unused(), op)
    case Imm32Relative(v, op) => Summarised(Unused().(reg := v), op)
  }

  function Summarised(i: ParsedIndex, op: Operand): ParsedIndex {
    i.(rel := RegNumber(op, 0), rel1 := RegNumber(op, 1), relType := TypeOf(op), dimension := DimensionOf(op),
       component := ComponentOf(op), precision := PrecisionOf(op))
  }

  function IndexAt(indices: seq<Index>, k: nat): ParsedIndex {
    if k < |indices| then IndexMeaning(indices[k]) else Unused()
  }

  function SelectionMeaning(p: Parsed, sel: Selection): Parsed {
    match sel
    case Mask(m) => p.(selection := 0, writeMask := m * 16)
    case Swizzle(x, y, z, w) => p.(selection := 1, swizzle := [x, y, z, w])
    case Select1(c) => p.(selection := 2, swizzle := [c, c, c, c], component := c)
  }

  /** A type, a number of components and whether an extension follows; everything else zero. */
  function Bare(typ: nat, comps: nat, extended: bool): Parsed {
    Parsed(typ, comps, extended, 0, 0, [0, 0, 0, 0], 0, 0, 0, 0, 0, [0, 0, 0, 0], 0, [0, 0, 0],
           [Unused(), Unused(), Unused()])
  }

  /** The fields of token 0. */
  function HeadMeaning(op: Operand): Parsed {
    match op
    case Register(typ, comps, ext, indices) =>
      var p := Bare(typ, ComponentsCode(comps), !ext.NoExtension?);
      var q := if comps.Comp4? then SelectionMeaning(p, comps.sel) else p;
      q.(dim := |indices|, indexTypes := [RepresentationAt(indices, 0), RepresentationAt(indices, 1),
        RepresentationAt(indices, 2)])
    case Immediate(four, ext, values) =>
      Bare(4, if four then 2 else 1, !ext.NoExtension?)
    case Immediate64(four, ext, wide) =>
      Bare(5, if four then 2 else 1, !ext.NoExtension?)
  }

  function ExtensionMeaning(p: Parsed, e: Extension): Parsed {
    match e
    case NoExtension => p
    case Modifiers(m, pr, n) => p.(extType := 1, modifier := m, precision := pr, nonUniform := n)
    case Ignored(k) => p.(extType := k)
  }

  function Padded(values: seq<Token>): seq<nat> {
    seq(4, i requires 0 <= i < 4 => if i < |values| then values[i] else 0)
  }

  /** The value tokens the parser takes: one per component, so all four of a four-component 64-bit
      immediate, but only the first of the two of a one-component one. */
  function ValuesTaken(op: Operand): seq<Token>
    requires OperandFits(op)
  {
    match op
    case Register(_, _, _, _) => []
    case Immediate(_, _, values) => values
    case Immediate64(_, _, wide) => WideTokens(wide)[..if op.four then 4 else 1]
  }

  function Meaning(op: Operand): Parsed
    requires OperandFits(op)
  {
    var p := ExtensionMeaning(HeadMeaning(op), op.ext);
    match op
    case Register(_, _, _, indices) => p.(index := [IndexAt(indices, 0), IndexAt(indices, 1), IndexAt(indices, 2)])
    case Immediate(_, _, values) => p.(values := Padded(values))
    case Immediate64(_, _, _) => p.(values := Padded(ValuesTaken(op)))
  }

  /** How many tokens of the encoding are left unread: the second word of a one-component 64-bit
      immediate. */
  function Unread(op: Operand): nat { if Single64(op) then 1 else 0 }

  // ----- which operands fit

  predicate SelectionInRange(sel: Selection) {
    && (sel.Mask? ==> sel.mask < 16) && (sel.Select1? ==> sel.name < 4)
    && (sel.Swizzle? ==> sel.x < 4 && sel.y < 4 && sel.z < 4 && sel.w < 4)
  }

  predicate ExtensionInRange(e: Extension) {
    && (e.Modifiers? ==> e.modifier < 256 && e.precision < 8 && e.nonUniform < 2)
    && (e.Ignored? ==> e.kind < 64 && e.kind != 1)
  }

  predicate IndexInRange(i: Index) {
    i.Relative? || i.Imm32Relative? ==> OperandFits(i.op) && (i.op.Immediate64? ==> i.op.four)
  }

  /** An operand fits exactly when each field is in range: any type but those of the immediates, up to
      three indices of any representation, and operands inside indices that fit in turn. */
  lemma OperandFitsExact(op: Operand)
    ensures OperandFits(op) <==>
              && ExtensionInRange(op.ext)
              && (op.Register? ==>
                    && op.typ < 256 && op.typ != 4 && op.typ != 5 && |op.indices| <= 3
                    && (op.comps.Comp4? ==> SelectionInRange(op.comps.sel))
                    && forall k :: 0 <= k < |op.indices| ==> IndexInRange(op.indices[k]))
              && (op.Immediate? ==> |op.values| == if op.four then 4 else 1)
              && (op.Immediate64? ==> |op.wide| == if op.four then 2 else 1)
  {
    hide IndexInRange, IndicesFit;
    if op.Register? { IndicesFitExact(op.indices); }
  }

  lemma IndexFitsExact(i: Index)
    ensures IndexFits(i) <==> IndexInRange(i)
  {
  }

  lemma {:induction false} IndicesFitExact(xs: seq<Index>)
    ensures IndicesFit(xs) <==> forall k :: 0 <= k < |xs| ==> IndexInRange(xs[k])
    decreases |xs|
  {
    hide IndexFits, IndexInRange;
    if xs != [] {
      var rest := xs[1..];
      IndexFitsExact(xs[0]);
      IndicesFitExact(rest);
      assert IndicesFit(xs) <==> IndexFits(xs[0]) && IndicesFit(rest);
      if IndicesFit(xs) {
        forall k | 0 <= k < |xs| ensures IndexInRange(xs[k]) { if k > 0 { assert xs[k] == rest[k - 1]; } }
      }
      if forall k :: 0 <= k < |xs| ==> IndexInRange(xs[k]) {
        forall k | 0 <= k < |rest| ensures IndexInRange(rest[k]) { assert rest[k] == xs[k + 1]; }
      }
    }
  }

  // ----- token 0

  /** The low field lo of width d (a power of two) and the fields above it. */
  lemma Peel(t: nat, d: nat, lo: nat, above: nat)
    requires d > 0 && lo < d && t == lo + d * above
    ensures t % d == lo && t / d == above
  {
    Bits.DivUnique(t, d, above, lo);
  }

  lemma Token0Decodes(comps: nat, sel: nat, typ: nat, dim: nat, r0: nat, r1: nat, r2: nat, extended: bool)
    requires comps < 4 && sel < 1024 && typ < 256 && dim < 4 && r0 < 8 && r1 < 8 && r2 < 8
    ensures var t := Token0(comps, sel, typ, dim, r0, r1, r2, extended);
            && DecodeComps(t) == comps && t / 4 % 1024 == sel && DecodeType(t) == typ && DecodeDim(t) == dim
            && DecodeRepresentation(t, 0) == r0 % 4 && DecodeRepresentation(t, 1) == r1 % 4
            && DecodeRepresentation(t, 2) == r2 % 4 && DecodeExtended(t) == extended
  {
    var t := Token0(comps, sel, typ, dim, r0, r1, r2, extended);
    var e := if extended then 1 else 0;
    var high := r0 + 8 * (r1 + 8 * (r2 + 8 * e));
    LowFields(t, comps, sel, typ, dim, high);
    HighFields(t, comps + 4 * sel + 0x1000 * typ + 0x10_0000 * dim, r0, r1, r2, e);
  }

  lemma LowFields(t: nat, comps: nat, sel: nat, typ: nat, dim: nat, high: nat)
    requires comps < 4 && sel < 1024 && typ < 256 && dim < 4
    requires t == comps + 4 * sel + 0x1000 * typ + 0x10_0000 * dim + 0x40_0000 * high
    ensures t % 4 == comps && t / 4 % 1024 == sel && t / 0x1000 % 256 == typ && t / 0x10_0000 % 4 == dim
  {
    var a3 := dim + 4 * high;
    var a2 := typ + 256 * a3;
    var a1 := sel + 1024 * a2;
    Peel(t, 4, comps, a1);
    Peel(a1, 1024, sel, a2);
    Peel(t, 0x1000, comps + 4 * sel, a2);
    Peel(a2, 256, typ, a3);
    Peel(t, 0x10_0000, comps + 4 * sel + 0x1000 * typ, a3);
    Peel(a3, 4, dim, high);
  }

  lemma HighFields(t: nat, low: nat, r0: nat, r1: nat, r2: nat, e: nat)
    requires low < 0x40_0000 && r0 < 8 && r1 < 8 && r2 < 8 && e < 2
    requires t == low + 0x40_0000 * r0 + 0x200_0000 * r1 + 0x1000_0000 * r2 + 0x8000_0000 * e
    ensures t / 0x40_0000 % 4 == r0 % 4 && t / 0x200_0000 % 4 == r1 % 4 && t / 0x1000_0000 % 4 == r2 % 4
    ensures t / 0x8000_0000 == e
  {
    var a6 := r2 + 8 * e;
    var a5 := r1 + 8 * a6;
    Peel(t, 0x40_0000, low, r0 + 8 * a5);
    Peel(t, 0x200_0000, low + 0x40_0000 * r0, a5);
    Peel(t, 0x1000_0000, low + 0x40_0000 * r0 + 0x200_0000 * r1, a6);
    Peel(t, 0x8000_0000, t - 0x8000_0000 * e, e);
    LowTwo(r0, a5);
    LowTwo(r1, a6);
    LowTwo(r2, e);
  }

  lemma LowTwo(r: nat, above: nat)
    ensures (r + 8 * above) % 4 == r % 4
  {
  }

  lemma SelectionDecodes(t: Token, sel: Selection)
    requires SelectionFits(sel) && t / 4 % 1024 == SelectionField(sel)
    ensures sel.Mask? ==> DecodeMode(t) == 0 && DecodeMask(t) == sel.mask * 16
    ensures sel.Swizzle? ==> DecodeMode(t) == 1 && DecodeSwizzle(t, 0) == sel.x && DecodeSwizzle(t, 1) == sel.y
                             && DecodeSwizzle(t, 2) == sel.z && DecodeSwizzle(t, 3) == sel.w
    ensures sel.Select1? ==> DecodeMode(t) == 2 && DecodeSelect1(t) == sel.name
  {
    var k := t / 0x1000;
    var f := SelectionField(sel);
    assert t / 4 == f + 1024 * k by { FieldBase(t, f); }
    match sel
    case Mask(m) =>
      Peel(t / 4, 4, 0, m + 256 * k);
      FieldAt(t, m + 256 * k, 0);
      Peel(m + 256 * k, 16, m, 16 * k);
    case Swizzle(x, y, z, w) =>
      var a := x + 4 * y + 16 * z + 64 * w + 256 * k;
      Peel(t / 4, 4, 1, a);
      FieldAt(t, a, 1);
      Peel(a, 4, x, y + 4 * z + 16 * w + 64 * k);
      SwizzleTail(t, a, x, y, z, w, k);
    case Select1(c) =>
      Peel(t / 4, 4, 2, c + 256 * k);
      FieldAt(t, c + 256 * k, 2);
      Peel(c + 256 * k, 4, c, 64 * k);
  }

  lemma FieldBase(t: nat, f: nat)
    requires t / 4 % 1024 == f
    ensures t / 4 == f + 1024 * (t / 0x1000)
  {
    Peel(t, 0x1000, t % 4 + 4 * f, t / 4 / 1024);
  }

  lemma FieldAt(t: nat, a: nat, mode: nat)
    requires t / 4 == mode + 4 * a && mode < 4
    ensures t / 16 == a
  {
    Peel(t, 16, t % 4 + 4 * mode, a);
  }

  lemma SwizzleTail(t: nat, a: nat, x: nat, y: nat, z: nat, w: nat, k: nat)
    requires x < 4 && y < 4 && z < 4 && w < 4 && a == x + 4 * y + 16 * z + 64 * w + 256 * k && t / 16 == a
    ensures t / 64 % 4 == y && t / 256 % 4 == z && t / 1024 % 4 == w
  {
    var low := t % 16;
    Peel(t, 64, low + 16 * x, y + 4 * (z + 4 * (w + 4 * k)));
    Peel(t, 256, low + 16 * x + 64 * y, z + 4 * (w + 4 * k));
    Peel(t, 1024, low + 16 * x + 64 * y + 256 * z, w + 4 * k);
    Peel(y + 4 * (z + 4 * (w + 4 * k)), 4, y, z + 4 * (w + 4 * k));
    Peel(z + 4 * (w + 4 * k), 4, z, w + 4 * k);
    Peel(w + 4 * k, 4, w, k);
  }

  /** Representation 4, a 64-bit immediate plus a relative operand, is read as representation 0:
      the mask keeps two of the three bits. Every representation is recovered exactly below 4. */
  lemma RepresentationExact(comps: nat, sel: nat, typ: nat, dim: nat, r0: nat, r1: nat, r2: nat, extended: bool)
    requires comps < 4 && sel < 1024 && typ < 256 && dim < 4 && r0 < 8 && r1 < 8 && r2 < 8
    ensures var t := Token0(comps, sel, typ, dim, r0, r1, r2, extended);
            && (DecodeRepresentation(t, 0) == r0 <==> r0 < 4)
            && (DecodeRepresentation(t, 1) == r1 <==> r1 < 4)
            && (DecodeRepresentation(t, 2) == r2 <==> r2 < 4)
            && (r0 == 4 ==> DecodeRepresentation(t, 0) == 0)
  {
    hide Token0, DecodeRepresentation;
    Token0Decodes(comps, sel, typ, dim, r0, r1, r2, extended);
  }

  lemma SelectionFieldBound(sel: Selection)
    requires SelectionFits(sel)
    ensures SelectionField(sel) < 1024
  {
  }

  lemma HeadRoundTrip(op: Operand)
    requires OperandFits(op)
    ensures ParseHead(HeadToken(op)) == Ok(HeadMeaning(op), 0)
    ensures HeadMeaning(op).comps == if !op.Register? then (if op.four then 2 else 1)
            else if op.comps.Comp0? then 0 else if op.comps.Comp1? then 1 else if op.comps.Comp4? then 2 else 3
  {
    hide Token0, DecodeComps, DecodeMode, DecodeMask, DecodeSwizzle, DecodeSelect1, DecodeType, DecodeDim;
    hide DecodeRepresentation, DecodeExtended, IndicesFit;
    var t := HeadToken(op);
    match op
    case Register(typ, comps, ext, indices) =>
      if comps.Comp4? { SelectionFieldBound(comps.sel); }
      Token0Decodes(ComponentsCode(comps), ComponentsField(comps), typ, |indices|,
                    RepresentationAt(indices, 0), RepresentationAt(indices, 1), RepresentationAt(indices, 2),
                      !ext.NoExtension?);
      if comps.Comp4? { SelectionDecodes(t, comps.sel); }
      assert IndexTypes(t, |indices|) == HeadMeaning(op).indexTypes;
    case Immediate(four, ext, values) =>
      Token0Decodes(if four then 2 else 1, 0, 4, 0, 0, 0, 0, !ext.NoExtension?);
    case Immediate64(four, ext, wide) =>
      Token0Decodes(if four then 2 else 1, 0, 5, 0, 0, 0, 0, !ext.NoExtension?);
  }

  lemma ExtensionRoundTrip(p: Parsed, e: Extension)
    requires RecordOk(p) && ExtensionFits(e) && !e.NoExtension? && p.extType == 0
    ensures WithExtension(p, ExtensionTokens(e)[0]) == ExtensionMeaning(p, e)
  {
    if e.Modifiers? {
      ModifierFields(ExtensionTokens(e)[0], e.modifier, e.precision, e.nonUniform, 0);
    }
  }

  /** The fields of a modifier token, whatever its reserved bits from 18 on are. */
  lemma ModifierFields(t: Token, m: nat, pr: nat, n: nat, reserved: nat)
    requires m < 256 && pr < 8 && n < 2
    requires t == 1 + 0x40 * m + 0x4000 * pr + 0x2_0000 * n + 0x4_0000 * reserved
    ensures DecodeExtType(t) == 1 && DecodeModifier(t) == m && DecodePrecision(t) == pr && DecodeNonUniform(t) == n
  {
    var a3 := n + 2 * reserved;
    var a2 := pr + 8 * a3;
    var a1 := m + 256 * a2;
    Peel(t, 64, 1, a1);
    Peel(t, 0x40, 1, a1);
    Peel(a1, 256, m, a2);
    Peel(t, 0x4000, 1 + 0x40 * m, a2);
    Peel(a2, 8, pr, a3);
    Peel(t, 0x2_0000, 1 + 0x40 * m + 0x4000 * pr, a3);
    Peel(a3, 2, n, reserved);
  }

  // ----- whole operands

  ghost predicate At(ts: seq<Token>, pos: nat, e: seq<Token>) {
    pos + |e| <= |ts| && ts[pos..pos + |e|] == e
  }

  lemma AtConcat(ts: seq<Token>, pos: nat, a: seq<Token>, b: seq<Token>)
    requires At(ts, pos, a + b)
    ensures At(ts, pos, a) && At(ts, pos + |a|, b)
  {
    assert ts[pos..pos + |a|] == (a + b)[..|a|];
    assert ts[pos + |a|..pos + |a| + |b|] == (a + b)[|a|..];
  }

  /** For every operand of the format, standing anywhere in any token sequence, the parser returns
      its fields, each relative index flattened, and consumes exactly its encoding; only the second
      word of a one-component 64-bit immediate is left. */
  lemma {:induction false} OperandRoundTrip(ts: seq<Token>, pos: nat, op: Operand)
    requires OperandFits(op) && At(ts, pos, EncOperand(op))
    ensures Unread(op) < |EncOperand(op)|
    ensures ParseOperand(ts, pos) == Ok(Meaning(op), pos + |EncOperand(op)| - Unread(op))
    decreases op, 0
  {
    hide ParseStart, ParseIndices, WithValues, ValueCount, ExtensionMeaning, HeadMeaning, HeadToken;
    hide ExtensionTokens, EncIndices, EncOperand, IndicesFit, IndexAt, IndexMeaning, Padded, RecordOk, At, IsImmediate;
    HeadFacts(op);
    Kinds(op);
    EncodedInTwo(op);
    var tail := Tail(op);
    var start := [HeadToken(op)] + ExtensionTokens(op.ext);
    AtConcat(ts, pos, start, tail);
    StartRead(ts, pos, op);
    var p, pos1 := ExtensionMeaning(HeadMeaning(op), op.ext), pos + |start|;
    AtBounds(ts, pos1, tail);
    match op
    case Register(_, _, _, indices) =>
      ValuesNone(p);
      assert ts[pos1..pos1 + 0] == [];
      IndicesRoundTrip(ts, pos1, p, 0, indices, indices);
      MeaningRegister(op);
    case Immediate(_, _, values) =>
      ValuesSome(p, values);
      NoIndices(ts, pos1 + |values|, WithValues(p, values));
    case Immediate64(_, _, wide) =>
      var values := ValuesTaken(op);
      AtPrefix(ts, pos1, tail, |values|);
      ValuesSome(p, values);
      NoIndices(ts, pos1 + |values|, WithValues(p, values));
  }

  lemma AtPrefix(ts: seq<Token>, pos: nat, e: seq<Token>, n: nat)
    requires At(ts, pos, e) && n <= |e|
    ensures pos + n <= |ts| && ts[pos..pos + n] == e[..n]
  {
    forall k | 0 <= k < n ensures ts[pos..pos + n][k] == e[..n][k] {
      assert ts[pos..pos + |e|][k] == ts[pos + k];
    }
  }

  /** What stands after token 0 and the extension: the indices or the values. */
  function Tail(op: Operand): seq<Token>
    requires OperandFits(op)
  {
    match op
    case Register(_, _, _, indices) => EncIndices(indices)
    case Immediate(_, _, values) => values
    case Immediate64(_, _, wide) => WideTokens(wide)
  }

  lemma EncodedInTwo(op: Operand)
    requires OperandFits(op)
    ensures EncOperand(op) == ([HeadToken(op)] + ExtensionTokens(op.ext)) + Tail(op) && Unread(op) <= |Tail(op)|
  {
    hide HeadToken, ExtensionTokens, EncIndices, IndicesFit;
  }

  lemma Kinds(op: Operand)
    requires OperandFits(op)
    ensures IsImmediate(TypeOf(op)) <==> !op.Register?
  {
    hide IndicesFit;
  }

  lemma StartRead(ts: seq<Token>, pos: nat, op: Operand)
    requires OperandFits(op) && At(ts, pos, [HeadToken(op)] + ExtensionTokens(op.ext))
    ensures ParseStart(ts, pos)
         == Ok(ExtensionMeaning(HeadMeaning(op), op.ext), pos + 1 + |ExtensionTokens(op.ext)|)
  {
    hide ParseHead, WithExtension, ExtensionMeaning, HeadMeaning, HeadToken, ExtensionTokens, IndicesFit, RecordOk, At;
    AtConcat(ts, pos, [HeadToken(op)], ExtensionTokens(op.ext));
    AtOne(ts, pos, HeadToken(op));
    HeadRoundTrip(op);
    HeadFacts(op);
    ExtensionRead(ts, pos + 1, op);
  }

  lemma AtOne(ts: seq<Token>, pos: nat, t: Token)
    requires At(ts, pos, [t])
    ensures pos < |ts| && ts[pos] == t
  {
    assert ts[pos..pos + 1][0] == t;
  }

  lemma AtBounds(ts: seq<Token>, pos: nat, e: seq<Token>)
    requires At(ts, pos, e)
    ensures pos + |e| <= |ts| && ts[pos..pos + |e|] == e
  {
  }

  /** The record after token 0: nothing is set but the operand's own fields. */
  lemma BareFacts(op: Operand)
    requires OperandFits(op)
    ensures var h := HeadMeaning(op);
            && RecordOk(h) && h.extended == !op.ext.NoExtension? && h.extType == 0 && h.precision == 0
            && h.typ == TypeOf(op) && h.dim == DimensionOf(op) && h.component == ComponentOf(op)
            && h.comps == (if op.Register? then ComponentsCode(op.comps) else if op.four then 2 else 1)
            && h.index == [NO_INDEX, NO_INDEX, NO_INDEX] && h.values == [0, 0, 0, 0]
            && (op.Register? ==> h.indexTypes == [RepresentationAt(op.indices, 0), RepresentationAt(op.indices, 1),
               RepresentationAt(op.indices, 2)])
  {
    hide IndicesFit, SelectionFits, ExtensionFits, ComponentsCode;
  }

  /** What the later stages need to know about the record after token 0 and the extension. */
  lemma HeadFacts(op: Operand)
    requires OperandFits(op)
    ensures var h, p := HeadMeaning(op), ExtensionMeaning(HeadMeaning(op), op.ext);
            && RecordOk(h) && RecordOk(p) && h.extended == !op.ext.NoExtension? && h.extType == 0
            && p.typ == TypeOf(op) && p.dim == DimensionOf(op)
            && p.comps == (if op.Register? then ComponentsCode(op.comps) else if op.four then 2 else 1)
            && p.component == ComponentOf(op) && p.precision == PrecisionOf(op)
            && p.index == [NO_INDEX, NO_INDEX, NO_INDEX] && p.values == [0, 0, 0, 0]
            && (op.Register? ==> p.indexTypes == [RepresentationAt(op.indices, 0), RepresentationAt(op.indices, 1),
               RepresentationAt(op.indices, 2)])
  {
    hide OperandFits, HeadMeaning, TypeOf, DimensionOf, ComponentsCode, ComponentOf, RepresentationAt;
    BareFacts(op);
  }

  /** The cursor stops at the end of every operand except a one-component 64-bit immediate, where it
      stops one token early. */
  lemma WideStopsShort(ts: seq<Token>, pos: nat, op: Operand)
    requires OperandFits(op) && At(ts, pos, EncOperand(op))
    ensures var r := ParseOperand(ts, pos);
            r.Ok? && (r.pos == pos + |EncOperand(op)| <==> !Single64(op))
            && (Single64(op) ==> r.pos == pos + |EncOperand(op)| - 1)
  {
    hide ParseOperand, EncOperand, IndicesFit, Meaning;
    OperandRoundTrip(ts, pos, op);
  }

  /** The second word of a one-component 64-bit immediate is not read: these two parse to the same
      record. */
  lemma SecondWordLost()
    ensures var one, two := Immediate64(false, NoExtension, [(0, 1)]), Immediate64(false, NoExtension, [(0, 2)]);
            && OperandFits(one) && OperandFits(two) && EncOperand(one) != EncOperand(two)
            && ParseOperand(EncOperand(one), 0) == ParseOperand(EncOperand(two), 0)
               == Ok(Meaning(one), |EncOperand(one)| - 1)
  {
    var one, two := Immediate64(false, NoExtension, [(0, 1)]), Immediate64(false, NoExtension, [(0, 2)]);
    hide ParseOperand, HeadToken;
    assert [(0, 1)][1..] == [] && [(0, 2)][1..] == [];
    assert EncOperand(one) == [HeadToken(one)] + ([] + [0, 1]) && EncOperand(two) == [HeadToken(two)] + ([] + [0, 2]);
    assert EncOperand(one)[2] == 1 && EncOperand(two)[2] == 2;
    assert ValuesTaken(one) == [0] == ValuesTaken(two);
    OperandRoundTrip(EncOperand(one), 0, one);
    OperandRoundTrip(EncOperand(two), 0, two);
  }

  lemma ExtensionRead(ts: seq<Token>, pos: nat, op: Operand)
    requires OperandFits(op) && At(ts, pos, ExtensionTokens(op.ext))
    ensures |ExtensionTokens(op.ext)| == (if op.ext.NoExtension? then 0 else 1)
    ensures op.ext.NoExtension? ==> ExtensionMeaning(HeadMeaning(op), op.ext) == HeadMeaning(op)
    ensures !op.ext.NoExtension? ==>
              pos < |ts| && RecordOk(HeadMeaning(op)) && WithExtension(HeadMeaning(op), ts[pos])
                == ExtensionMeaning(HeadMeaning(op), op.ext)
  {
    hide HeadMeaning, IndicesFit;
    HeadFacts(op);
    if !op.ext.NoExtension? {
      AtOne(ts, pos, ExtensionTokens(op.ext)[0]);
      ExtensionRoundTrip(HeadMeaning(op), op.ext);
    }
  }

  lemma ValuesNone(p: Parsed)
    requires RecordOk(p) && !IsImmediate(p.typ)
    ensures ValueCount(p) == 0 && WithValues(p, []) == p
  {
    assert WithValues(p, []).values == p.values;
  }

  lemma ValuesSome(p: Parsed, values: seq<Token>)
    requires RecordOk(p) && IsImmediate(p.typ) && p.values == [0, 0, 0, 0]
    requires |values| == (if p.comps == 2 then 4 else 1) && (p.comps == 1 || p.comps == 2)
    ensures ValueCount(p) == |values| && WithValues(p, values) == p.(values := Padded(values))
  {
    assert WithValues(p, values).values == Padded(values);
  }

  lemma NoIndices(ts: seq<Token>, pos: nat, p: Parsed)
    requires pos <= |ts| && RecordOk(p) && p.dim == 0
    ensures ParseIndices(ts, pos, p, 0) == Ok(p, pos)
  {
  }

  /** The record after the first k indices are filled in. */
  function Filled(p: Parsed, indices: seq<Index>, k: nat): Parsed {
    p.(index := [if k > 0 then IndexAt(indices, 0) else NO_INDEX,
                 if k > 1 then IndexAt(indices, 1) else NO_INDEX,
                 if k > 2 then IndexAt(indices, 2) else NO_INDEX])
  }

  lemma MeaningRegister(op: Operand)
    requires OperandFits(op) && op.Register?
    ensures Filled(ExtensionMeaning(HeadMeaning(op), op.ext), op.indices, |op.indices|) == Meaning(op)
  {
    hide HeadMeaning, ExtensionMeaning, IndicesFit, IndexMeaning;
  }

  lemma {:induction false} IndicesRoundTrip(
    ts: seq<Token>, pos: nat, p: Parsed, k: nat, indices: seq<Index>, left: seq<Index>)
    requires pos <= |ts| && RecordOk(p) && p.dim == |indices| <= 3 && k <= |indices| && left == indices[k..]
    requires p.index == [NO_INDEX, NO_INDEX, NO_INDEX]
    requires p.indexTypes == [RepresentationAt(indices, 0), RepresentationAt(indices, 1), RepresentationAt(indices, 2)]
    requires IndicesFit(left) && At(ts, pos, EncIndices(left))
    ensures ParseIndices(ts, pos, Filled(p, indices, k), k)
            == Ok(Filled(p, indices, |indices|), pos + |EncIndices(left)|)
    decreases left, 2
  {
    hide ParseIndex, EncIndex, IndexMeaning, At;
    if left != [] {
      AtConcat(ts, pos, EncIndex(left[0]), EncIndices(left[1..]));
      IndexRoundTrip(ts, pos, left[0]);
      var next := pos + |EncIndex(left[0])|;
      AtBounds(ts, next, EncIndices(left[1..]));
      IndicesRoundTrip(ts, next, p, k + 1, indices, left[1..]);
      assert Filled(p, indices, k).(index := Filled(p, indices, k).index[k := IndexMeaning(left[0])])
        == Filled(p, indices, k + 1);
    }
  }

  lemma {:induction false} IndexRoundTrip(ts: seq<Token>, pos: nat, i: Index)
    requires IndexFits(i) && pos <= |ts| && At(ts, pos, EncIndex(i))
    ensures ParseIndex(ts, pos, Representation(i)) == Ok(IndexMeaning(i), pos + |EncIndex(i)|)
    decreases i, 1
  {
    hide ParseOperand, EncOperand, OperandFits, Meaning, At;
    match i
    case Imm32(v) => AtOne(ts, pos, v);
    case Imm64(hi, lo) =>
      assert [hi] + [lo] == [hi, lo];
      AtConcat(ts, pos, [hi], [lo]);
      AtOne(ts, pos, hi);
      AtOne(ts, pos + 1, lo);
    case Relative(op) =>
      OperandRoundTrip(ts, pos, op);
      FlattenMeaning(NO_INDEX, op);
    case Imm32Relative(v, op) =>
      AtConcat(ts, pos, [v], EncOperand(op));
      AtOne(ts, pos, v);
      OperandRoundTrip(ts, pos + 1, op);
      FlattenMeaning(NO_INDEX.(reg := v), op);
  }

  /** Flattening the parsed operand keeps exactly the summary of the original. */
  lemma FlattenMeaning(i: ParsedIndex, op: Operand)
    requires OperandFits(op)
    ensures RecordOk(Meaning(op)) && Flatten(i, Meaning(op)) == Summarised(i, op)
  {
    hide HeadMeaning, ExtensionMeaning, IndicesFit;
    HeadFacts(op);
  }
}
