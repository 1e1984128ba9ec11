/** Instructions: opcode token, extended opcode tokens and operands, and the walk over a program. */
module Instructions {
  import opened Tokens
  import opened TokenRoundTrip
  import Opcodes

  /** What the instruction table says of an opcode: its number of operands. */
  datatype Table = Table(operandCount: nat -> nat)

  const NUM_OPCODES: nat := 236

  /** Opcodes with a case of their own in the parser: tests, calls, custom data, declarations, resource
      and sample queries, and sync. All others fall to the default case. */
  predicate HasOwnCase(opcode: nat) {
    opcode in {3, 5, 8, 13, 31, 53, 61, 63, 111, 120, 190, 206} || 88 <= opcode <= 106 || 143 <= opcode <= 162
  }

  // ----- the format

  datatype Extended =
    | SampleControls(u: int, v: int, w: int)
    | ResourceDim(dim: nat, stride: nat)
    | ReturnTypes(x: nat, y: nat, z: nat, w4: nat)
    | OtherExtended(kind: nat)

  predicate Offset(n: int) { -8 <= n <= 7 }

  predicate ExtendedFits(e: Extended) {
    match e
    case SampleControls(u, v, w) => Offset(u) && Offset(v) && Offset(w)
    case ResourceDim(d, s) => d < 32 && s < 4096
    case ReturnTypes(x, y, z, w) => x < 16 && y < 16 && z < 16 && w < 16
    case OtherExtended(k) => k < 64 && k != 1 && k != 2 && k != 3
  }

  /** The low four bits of a two's complement number. */
  function Nibble(n: int): (r: nat)
    ensures r < 16
  {
    n % 16
  }

  function ExtendedField(e: Extended): (f: nat)
    requires ExtendedFits(e)
    ensures f < 0x80_0000
  {
    match e
    case SampleControls(u, v, w) => 1 + 0x200 * Nibble(u) + 0x2000 * Nibble(v) + 0x2_0000 * Nibble(w)
    case ResourceDim(d, s) => 2 + 0x40 * d + 0x800 * s
    case ReturnTypes(x, y, z, w) => 3 + 0x40 * x + 0x400 * y + 0x4000 * z + 0x4_0000 * w
    case OtherExtended(k) => k
  }

  predicate AllExtendedFit(es: seq<Extended>) { forall i :: 0 <= i < |es| ==> ExtendedFits(es[i]) }

  /** The chain of extended tokens; bit 31 of each announces the next. */
  function EncExtended(es: seq<Extended>): (ts: seq<Token>)
    requires AllExtendedFit(es)
    ensures |ts| == |es|
  {
    if es == [] then []
    else [ExtendedField(es[0]) + (if |es| > 1 then 0x8000_0000 else 0)] + EncExtended(es[1..])
  }

  predicate AllOperandsFit(ops: seq<Operand>) { forall i :: 0 <= i < |ops| ==> OperandFits(ops[i]) }

  function EncOperands(ops: seq<Operand>): seq<Token>
    requires AllOperandsFit(ops)
  {
    if ops == [] then [] else EncOperand(ops[0]) + EncOperands(ops[1..])
  }

  datatype Instruction =
    Instruction(opcode: nat, saturate: bool, precise: nat, extended: seq<Extended>, operands: seq<Operand>)

  function Length(i: Instruction): nat
    requires AllExtendedFit(i.extended) && AllOperandsFit(i.operands)
  {
    1 + |i.extended| + |EncOperands(i.operands)|
  }

  /** A default-case instruction of at most 127 tokens with at most three extended tokens. */
  predicate InstructionFits(table: Table, i: Instruction) {
    && i.opcode < 236 && !Opcodes.Listed(i.opcode) && i.precise < 16 && |i.extended| <= 3
    && AllExtendedFit(i.extended) && AllOperandsFit(i.operands)
    && |i.operands| == table.operandCount(i.opcode)
    && Length(i) <= 127
  }

  function OpcodeToken(opcode: nat, saturate: bool, precise: nat, length: nat, extended: bool): Token
    requires opcode < 2048 && precise < 16 && length < 128
  {
    opcode + (if saturate then 0x2000 else 0) + 0x8_0000 * precise + 0x100_0000 * length
      + (if extended then 0x8000_0000 else 0)
  }

  function EncInstruction(table: Table, i: Instruction): (ts: seq<Token>)
    requires InstructionFits(table, i)
    ensures |ts| == Length(i)
  {
    [OpcodeToken(i.opcode, i.saturate, i.precise, Length(i), i.extended != [])]
    + (EncExtended(i.extended) + EncOperands(i.operands))
  }

  // ----- what the parser computes

  datatype ParsedInstruction =
    ParsedInstruction(opcode: nat, saturate: bool, precise: nat, length: nat, extTypes: seq<nat>, texel: seq<int>,
                      dim: nat, stride: nat, returns_: seq<nat>, operands: seq<Parsed>)

  const BLANK := ParsedInstruction(0, false, 0, 0, [], [0, 0, 0], 0, 0, [0, 0, 0, 0], [])

  /** Sign extension of a four-bit field held in a signed byte. */
  function SignExtend(n: nat): int { if n / 8 % 2 == 1 then n - 16 else n }

  function DecodeOpcode(t: Token): nat { t % 2048 }
  function DecodeSaturate(t: Token): bool { t / 0x2000 % 2 == 1 }
  function DecodePrecise(t: Token): nat { t / 0x8_0000 % 16 }
  function DecodeLength(t: Token): nat { t / 0x100_0000 % 128 }
  function DecodeMore(t: Token): bool { t / 0x8000_0000 == 1 }

  /** The fields one extended token sets; a later token of the same kind overwrites. */
  function WithExtended(p: ParsedInstruction, t: Token): ParsedInstruction {
    var kind := t % 64;
    var q := p.(extTypes := p.extTypes + [kind]);
    if kind == 1 then
      q.(texel := [SignExtend(t / 0x200 % 16), SignExtend(t / 0x2000 % 16), SignExtend(t / 0x2_0000 % 16)])
    else if kind == 2 then q.(dim := t / 0x40 % 32, stride := t / 0x800 % 4096)
    else if kind == 3 then q.(returns_ := [t / 0x40 % 16, t / 0x400 % 16, t / 0x4000 % 16, t / 0x4_0000 % 16])
    else q
  }

  /** At most three extended tokens, while the previous token announces one. */
  function ParseExtended(
    ts: seq<Token>, pos: nat, more: bool, n: nat, p: ParsedInstruction): (r: Result<ParsedInstruction>)
    requires pos <= |ts| && n <= 3
    ensures r.Ok? ==> pos <= r.pos <= |ts|
    decreases 3 - n
  {
    if !more || n == 3 then Ok(p, pos)
    else if pos >= |ts| then Overrun
    else ParseExtended(ts, pos + 1, DecodeMore(ts[pos]), n + 1, WithExtended(p, ts[pos]))
  }

  function ParseOperands(ts: seq<Token>, pos: nat, n: nat, ops: seq<Parsed>): (r: Result<seq<Parsed>>)
    requires pos <= |ts|
    ensures r.Ok? ==> pos <= r.pos <= |ts|
    decreases n
  {
    if n == 0 then Ok(ops, pos)
    else match ParseOperand(ts, pos)
         case Ok(op, next) => ParseOperands(ts, next, n - 1, ops + [op])
         case Throw => Throw
         case Overrun => Overrun
  }

  /** Everything before the final resync: the position is where the last operand ended. */
  function ParseBody(ts: seq<Token>, pos: nat, table: Table): (r: Result<ParsedInstruction>)
    ensures r.Ok? ==> pos < r.pos <= |ts|
  {
    if pos >= |ts| then Overrun
    else
      var t := ts[pos];
      var p := BLANK.(opcode := DecodeOpcode(t), saturate := DecodeSaturate(t), precise := DecodePrecise(t),
        length := DecodeLength(t));
      match ParseExtended(ts, pos + 1, DecodeMore(t), 0, p)
      case Throw => Throw
      case Overrun => Overrun
      case Ok(q, next) =>
        match ParseOperands(ts, next, table.operandCount(p.opcode), [])
        case Ok(ops, end) => Ok(q.(operands := ops), end)
        case Throw => Throw
        case Overrun => Overrun
  }

  /** Opcodes with their own case are not followed any further. */
  datatype Outcome = Default(result: Result<ParsedInstruction>) | OwnCase(opcode: nat)

  /** In the default case the cursor is finally set from the declared length, whatever was consumed. */
  function ParseInstruction(ts: seq<Token>, pos: nat, table: Table): Outcome {
    if pos >= |ts| then Default(Overrun)
    else if DecodeOpcode(ts[pos]) >= NUM_OPCODES then Default(Throw)
    else if HasOwnCase(DecodeOpcode(ts[pos])) then OwnCase(DecodeOpcode(ts[pos]))
    else match ParseBody(ts, pos, table)
         case Ok(p, _) => Default(Ok(p, pos + p.length))
         case Throw => Default(Throw)
         case Overrun => Default(Overrun)
  }

  /** The opcodes with a case of their own are those listed by name. */
  lemma OwnCaseByName(opcode: nat)
    ensures HasOwnCase(opcode) <==> Opcodes.Listed(opcode)
  {
  }

  /** Which opcodes are followed: those of the enumeration that are not listed are parsed in the default
      case, the listed ones handed back, and any other refused. */
  lemma OpcodeClasses(ts: seq<Token>, pos: nat, table: Table)
    requires pos < |ts|
    ensures var opcode, r := ts[pos] % 2048, ParseInstruction(ts, pos, table);
            && (opcode < 236 && Opcodes.Listed(opcode) <==> r == OwnCase(opcode))
            && (opcode < 236 && !Opcodes.Listed(opcode) ==>
                  r.Default? && SameEnd(r.result, ParseBody(ts, pos, table))
                  && (r.result.Ok? ==> r.result.pos == pos + ts[pos] / 0x100_0000 % 128))
            && (opcode >= 236 ==> r == Default(Throw))
  {
    hide ParseBody, HasOwnCase;
    OwnCaseByName(ts[pos] % 2048);
    BodyKeepsLength(ts, pos, table);
  }

  lemma {:induction false} ExtensionsKeepLength(ts: seq<Token>, pos: nat, more: bool, n: nat, p: ParsedInstruction)
    requires pos <= |ts| && n <= 3
    ensures var r := ParseExtended(ts, pos, more, n, p); r.Ok? ==> r.value.length == p.length
    decreases 3 - n
  {
    if more && n < 3 && pos < |ts| {
      ExtensionsKeepLength(ts, pos + 1, DecodeMore(ts[pos]), n + 1, WithExtended(p, ts[pos]));
    }
  }

  /** The length is the opcode token's, whatever follows. */
  lemma BodyKeepsLength(ts: seq<Token>, pos: nat, table: Table)
    requires pos < |ts|
    ensures var r := ParseBody(ts, pos, table); r.Ok? ==> r.value.length == ts[pos] / 0x100_0000 % 128
  {
    hide ParseExtended, ParseOperands, DecodeOpcode, DecodePrecise, DecodeMore, DecodeSaturate;
    var t := ts[pos];
    ExtensionsKeepLength(ts, pos + 1, DecodeMore(t), 0,
      BLANK.(opcode := DecodeOpcode(t), saturate := DecodeSaturate(t), precise := DecodePrecise(t),
        length := DecodeLength(t)));
  }

  /** Both parse, throw or overrun alike, to the same fields. */
  predicate SameEnd(a: Result<ParsedInstruction>, b: Result<ParsedInstruction>) {
    (a.Ok? <==> b.Ok?) && (a.Throw? <==> b.Throw?) && (a.Ok? ==> a.value == b.value)
  }

  // ----- what an instruction means to the parser

  function ExtendedKind(e: Extended): nat {
    match e
    case SampleControls(_, _, _) => 1
    case ResourceDim(_, _) => 2
    case ReturnTypes(_, _, _, _) => 3
    case OtherExtended(k) => k
  }

  function ExtendedMeaning(p: ParsedInstruction, e: Extended): ParsedInstruction {
    var q := p.(extTypes := p.extTypes + [ExtendedKind(e)]);
    match e
    case SampleControls(u, v, w) => q.(texel := [u, v, w])
    case ResourceDim(d, s) => q.(dim := d, stride := s)
    case ReturnTypes(x, y, z, w) => q.(returns_ := [x, y, z, w])
    case OtherExtended(_) => q
  }

  function AllExtendedMeaning(p: ParsedInstruction, es: seq<Extended>): ParsedInstruction
    decreases |es|
  {
    if es == [] then p else AllExtendedMeaning(ExtendedMeaning(p, es[0]), es[1..])
  }

  function Meanings(ops: seq<Operand>): seq<Parsed>
    requires AllOperandsFit(ops)
  {
    if ops == [] then [] else [Meaning(ops[0])] + Meanings(ops[1..])
  }

  /** The fields of the opcode token; everything else zero. */
  function OpcodeOnly(i: Instruction): ParsedInstruction
    requires AllExtendedFit(i.extended) && AllOperandsFit(i.operands)
  {
    ParsedInstruction(i.opcode, i.saturate, i.precise, Length(i), [], [0, 0, 0], 0, 0, [0, 0, 0, 0], [])
  }

  function InstructionMeaning(i: Instruction): ParsedInstruction
    requires AllExtendedFit(i.extended) && AllOperandsFit(i.operands)
  {
    AllExtendedMeaning(OpcodeOnly(i), i.extended).(operands := Meanings(i.operands))
  }

  // ----- tokens

  lemma OpcodeDecodes(opcode: nat, saturate: bool, precise: nat, length: nat, extended: bool)
    requires opcode < 2048 && precise < 16 && length < 128
    ensures var t := OpcodeToken(opcode, saturate, precise, length, extended);
            && DecodeOpcode(t) == opcode && DecodeSaturate(t) == saturate && DecodePrecise(t) == precise
            && DecodeLength(t) == length && DecodeMore(t) == extended
  {
    var t := OpcodeToken(opcode, saturate, precise, length, extended);
    var s, e := if saturate then 1 else 0, if extended then 1 else 0;
    var a3 := length + 128 * e;
    var a2 := precise + 32 * a3;
    var a1 := s + 64 * a2;
    Peel(t, 2048, opcode, 4 * a1);
    Peel(t, 0x2000, opcode, a1);
    Peel(a1, 2, s, 32 * a2);
    Peel(t, 0x8_0000, opcode + 0x2000 * s, a2);
    Peel(a2, 16, precise, 2 * a3);
    Peel(t, 0x100_0000, opcode + 0x2000 * s + 0x8_0000 * precise, a3);
    Peel(a3, 128, length, e);
    Peel(t, 0x8000_0000, t - 0x8000_0000 * e, e);
  }

  /** A texel offset in -8..7 survives its four-bit field. */
  lemma OffsetRoundTrip(n: int)
    requires Offset(n)
    ensures SignExtend(Nibble(n)) == n
  {
  }

  lemma ExtendedDecodes(p: ParsedInstruction, e: Extended, more: bool)
    requires ExtendedFits(e)
    ensures var t := ExtendedField(e) + (if more then 0x8000_0000 else 0);
            WithExtended(p, t) == ExtendedMeaning(p, e) && DecodeMore(t) == more
  {
    hide WithExtended, ExtendedMeaning, ExtendedField, DecodeMore;
    var f := ExtendedField(e);
    MoreDecodes(f, more);
    KindDecodes(p, e, f + (if more then 0x8000_0000 else 0), if more then 1 else 0);
  }

  lemma MoreDecodes(f: nat, more: bool)
    requires f < 0x80_0000
    ensures DecodeMore(f + (if more then 0x8000_0000 else 0)) == more
  {
    Peel(f + (if more then 0x8000_0000 else 0), 0x8000_0000, f, if more then 1 else 0);
  }

  lemma KindDecodes(p: ParsedInstruction, e: Extended, t: Token, m: nat)
    requires ExtendedFits(e) && t == ExtendedField(e) + 0x8000_0000 * m
    ensures WithExtended(p, t) == ExtendedMeaning(p, e)
  {
    match e
    case SampleControls(u, v, w) => SampleDecodes(p, u, v, w, t, m);
    case ResourceDim(d, s) =>
      hide SignExtend, Nibble;
      DimFields(t, d, s, m);
    case ReturnTypes(x, y, z, w) =>
      hide SignExtend, Nibble;
      ReturnFields(t, x, y, z, w, m);
    case OtherExtended(k) =>
      hide SignExtend, Nibble;
      Peel(t, 64, k, 0x200_0000 * m);
  }

  lemma SampleDecodes(p: ParsedInstruction, u: int, v: int, w: int, t: Token, m: nat)
    requires Offset(u) && Offset(v) && Offset(w) && t == ExtendedField(SampleControls(u, v, w)) + 0x8000_0000 * m
    ensures WithExtended(p, t) == ExtendedMeaning(p, SampleControls(u, v, w))
  {
    hide SignExtend, Nibble, Offset;
    OffsetRoundTrip(u);
    OffsetRoundTrip(v);
    OffsetRoundTrip(w);
    SampleFields(t, Nibble(u), Nibble(v), Nibble(w), m);
  }

  lemma SampleFields(t: nat, u: nat, v: nat, w: nat, m: nat)
    requires u < 16 && v < 16 && w < 16 && t == 1 + 0x200 * u + 0x2000 * v + 0x2_0000 * w + 0x8000_0000 * m
    ensures t % 64 == 1 && t / 0x200 % 16 == u && t / 0x2000 % 16 == v && t / 0x2_0000 % 16 == w
  {
    var a3 := w + 0x4000 * m;
    var a2 := v + 16 * a3;
    var a1 := u + 16 * a2;
    Peel(t, 64, 1, 8 * a1);
    Peel(t, 0x200, 1, a1);
    Peel(a1, 16, u, a2);
    Peel(t, 0x2000, 1 + 0x200 * u, a2);
    Peel(a2, 16, v, a3);
    Peel(t, 0x2_0000, 1 + 0x200 * u + 0x2000 * v, a3);
    Peel(a3, 16, w, 0x400 * m);
  }

  lemma DimFields(t: nat, d: nat, s: nat, m: nat)
    requires d < 32 && s < 4096 && t == 2 + 0x40 * d + 0x800 * s + 0x8000_0000 * m
    ensures t % 64 == 2 && t / 0x40 % 32 == d && t / 0x800 % 4096 == s
  {
    var a2 := s + 0x10_0000 * m;
    var a1 := d + 32 * a2;
    Peel(t, 64, 2, a1);
    Peel(a1, 32, d, a2);
    Peel(t, 0x800, 2 + 0x40 * d, a2);
    Peel(a2, 4096, s, 0x100 * m);
  }

  lemma ReturnFields(t: nat, x: nat, y: nat, z: nat, w: nat, m: nat)
    requires x < 16 && y < 16 && z < 16 && w < 16
    requires t == 3 + 0x40 * x + 0x400 * y + 0x4000 * z + 0x4_0000 * w + 0x8000_0000 * m
    ensures t % 64 == 3 && t / 0x40 % 16 == x && t / 0x400 % 16 == y && t / 0x4000 % 16 == z && t / 0x4_0000 % 16 == w
  {
    var a4 := w + 0x2000 * m;
    var a3 := z + 16 * a4;
    var a2 := y + 16 * a3;
    var a1 := x + 16 * a2;
    Peel(t, 64, 3, a1);
    Peel(a1, 16, x, a2);
    Peel(t, 0x400, 3 + 0x40 * x, a2);
    Peel(a2, 16, y, a3);
    Peel(t, 0x4000, 3 + 0x40 * x + 0x400 * y, a3);
    Peel(a3, 16, z, a4);
    Peel(t, 0x4_0000, 3 + 0x40 * x + 0x400 * y + 0x4000 * z, a4);
    Peel(a4, 16, w, 0x200 * m);
  }

  // ----- one instruction

  lemma {:induction false} ExtendedRoundTrip(ts: seq<Token>, pos: nat, n: nat, es: seq<Extended>, p: ParsedInstruction)
    requires AllExtendedFit(es) && n + |es| <= 3 && pos <= |ts| && At(ts, pos, EncExtended(es))
    ensures ParseExtended(ts, pos, es != [], n, p) == Ok(AllExtendedMeaning(p, es), pos + |es|)
    decreases |es|
  {
    hide WithExtended, ExtendedMeaning, ExtendedField, DecodeMore, ExtendedFits, At;
    if es != [] {
      var t: Token := ExtendedField(es[0]) + (if |es| > 1 then 0x8000_0000 else 0);
      AtConcat(ts, pos, [t], EncExtended(es[1..]));
      AtOne(ts, pos, t);
      ExtendedDecodes(p, es[0], |es| > 1);
      ExtendedRoundTrip(ts, pos + 1, n + 1, es[1..], ExtendedMeaning(p, es[0]));
    }
  }

  /** No one-component 64-bit immediate except as the last operand. */
  predicate OnlyLastShort(ops: seq<Operand>) { forall k :: 0 <= k < |ops| - 1 ==> !Single64(ops[k]) }

  function UnreadLast(ops: seq<Operand>): nat { if ops == [] then 0 else Unread(ops[|ops| - 1]) }

  lemma {:induction false} OperandsRoundTrip(ts: seq<Token>, pos: nat, ops: seq<Operand>, acc: seq<Parsed>)
    requires AllOperandsFit(ops) && OnlyLastShort(ops) && pos <= |ts| && At(ts, pos, EncOperands(ops))
    ensures UnreadLast(ops) <= |EncOperands(ops)|
    ensures ParseOperands(ts, pos, |ops|, acc) == Ok(acc + Meanings(ops), pos + |EncOperands(ops)| - UnreadLast(ops))
    decreases |ops|
  {
    hide ParseOperand, EncOperand, OperandFits, Meaning, At;
    if ops == [] {
      assert acc + Meanings(ops) == acc;
    } else {
      AtConcat(ts, pos, EncOperand(ops[0]), EncOperands(ops[1..]));
      OperandRoundTrip(ts, pos, ops[0]);
      if |ops| > 1 { assert !Single64(ops[0]); }
      NothingLeft(ts, pos, ops);
      OperandsRoundTrip(ts, pos + |EncOperand(ops[0])| - Unread(ops[0]), ops[1..], acc + [Meaning(ops[0])]);
      assert acc + [Meaning(ops[0])] + Meanings(ops[1..]) == acc + Meanings(ops);
    }
  }

  lemma {:induction false} ExtendedKeeps(p: ParsedInstruction, es: seq<Extended>)
    ensures var q := AllExtendedMeaning(p, es); q.operands == p.operands && q.length == p.length && q.opcode == p.opcode
    decreases |es|
  {
    if es != [] { ExtendedKeeps(ExtendedMeaning(p, es[0]), es[1..]); }
  }

  /** After the last operand nothing is left to read, wherever its reading stopped. */
  lemma NothingLeft(ts: seq<Token>, pos: nat, ops: seq<Operand>)
    requires AllOperandsFit(ops) && ops != [] && pos + |EncOperand(ops[0])| <= |ts|
    ensures Unread(ops[0]) < |EncOperand(ops[0])|
    ensures |ops| == 1 ==> EncOperands(ops[1..]) == [] && At(ts, pos + |EncOperand(ops[0])| - Unread(ops[0]), [])
  {
    hide IndicesFit;
  }

  /** Every default-case instruction whose operands but the last are no one-component 64-bit immediates
      is read back with all its fields and the cursor ends at its end. Its operands end there too, so
      that the final resync does not move the cursor, unless the last one is such an immediate: then
      they end one token early and the resync makes up for it. */
  lemma InstructionRoundTrip(ts: seq<Token>, pos: nat, table: Table, i: Instruction)
    requires InstructionFits(table, i) && OnlyLastShort(i.operands) && At(ts, pos, EncInstruction(table, i))
    ensures UnreadLast(i.operands) <= |EncInstruction(table, i)|
    ensures ParseBody(ts, pos, table)
         == Ok(InstructionMeaning(i), pos + |EncInstruction(table, i)| - UnreadLast(i.operands))
    ensures ParseInstruction(ts, pos, table) == Default(Ok(InstructionMeaning(i), pos + |EncInstruction(table, i)|))
  {
    hide ParseExtended, ParseOperands, AllExtendedMeaning, OpcodeToken, EncExtended, EncOperands, Meanings, At,
      HasOwnCase;
    hide DecodeOpcode, DecodeSaturate, DecodePrecise, DecodeLength, DecodeMore, OnlyLastShort, UnreadLast;
    var p := HeadRead(ts, pos, table, i);
    var at := pos + 1 + |i.extended|;
    OwnCaseByName(i.opcode);
    OperandsRoundTrip(ts, at, i.operands, []);
    assert [] + Meanings(i.operands) == Meanings(i.operands);
  }

  /** The opcode token and the extended tokens: what is parsed up to the operands. */
  lemma HeadRead(ts: seq<Token>, pos: nat, table: Table, i: Instruction) returns (p: ParsedInstruction)
    requires InstructionFits(table, i) && At(ts, pos, EncInstruction(table, i))
    ensures pos + 1 + |i.extended| <= |ts| && At(ts, pos + 1 + |i.extended|, EncOperands(i.operands))
    ensures DecodeOpcode(ts[pos]) == i.opcode && p.length == |EncInstruction(table, i)|
            && p.(operands := Meanings(i.operands)) == InstructionMeaning(i)
    ensures ParseBody(ts, pos, table) ==
            match ParseOperands(ts, pos + 1 + |i.extended|, |i.operands|, [])
            case Ok(ops, end) => Ok(p.(operands := ops), end)
            case Throw => Throw
            case Overrun => Overrun
  {
    hide ParseExtended, ParseOperands, AllExtendedMeaning, OpcodeToken, EncExtended, EncOperands, Meanings, At,
      HasOwnCase;
    hide DecodeOpcode, DecodeSaturate, DecodePrecise, DecodeLength, DecodeMore;
    var t: Token := OpcodeToken(i.opcode, i.saturate, i.precise, Length(i), i.extended != []);
    var ext, ops := EncExtended(i.extended), EncOperands(i.operands);
    AtConcat(ts, pos, [t], ext + ops);
    AtConcat(ts, pos + 1, ext, ops);
    AtOne(ts, pos, t);
    OpcodeDecodes(i.opcode, i.saturate, i.precise, Length(i), i.extended != []);
    var blank := OpcodeOnly(i);
    AtBounds(ts, pos + 1 + |ext|, ops);
    ExtendedRoundTrip(ts, pos + 1, 0, i.extended, blank);
    ExtendedKeeps(blank, i.extended);
    p := AllExtendedMeaning(blank, i.extended);
  }

  // ----- 64-bit immediates

  /** The same operands up to the values of their 64-bit immediates. */
  ghost predicate SameShapes(a: seq<Operand>, b: seq<Operand>) {
    |a| == |b| && forall k :: 0 <= k < |a| ==> SameShape(a[k], b[k])
  }

  predicate SameShape(a: Operand, b: Operand) {
    a == b || (a.Immediate64? && b.Immediate64? && a.four == b.four && a.ext == b.ext)
  }

  /** Whatever values the 64-bit immediates have, the instruction is parsed and the cursor ends at its end. */
  ghost predicate AlwaysLands(table: Table, i: Instruction) {
    forall ops: seq<Operand>, ts: seq<Token>, pos: nat ::
      SameShapes(i.operands, ops) && EncodedAt(ts, pos, table, i.(operands := ops)) ==>
      var r := ParseInstruction(ts, pos, table);
      r.Default? && r.result.Ok? && r.result.pos == pos + |EncInstruction(table, i.(operands := ops))|
  }

  ghost predicate EncodedAt(ts: seq<Token>, pos: nat, table: Table, i: Instruction) {
    InstructionFits(table, i) && At(ts, pos, EncInstruction(table, i))
  }

  /** A token the operand parser refuses: four components in selection mode 3. */
  const REFUSED: Token := 14

  /** Every one-component 64-bit immediate replaced by one made of refused tokens. */
  function Poisoned(op: Operand): Operand {
    if Single64(op) then Immediate64(false, op.ext, [(REFUSED, REFUSED)]) else op
  }

  function AllPoisoned(ops: seq<Operand>): (r: seq<Operand>)
    ensures |r| == |ops| && forall k :: 0 <= k < |ops| ==> r[k] == Poisoned(ops[k])
  {
    seq(|ops|, k requires 0 <= k < |ops| => Poisoned(ops[k]))
  }

  lemma PoisonedFits(op: Operand)
    requires OperandFits(op)
    ensures OperandFits(Poisoned(op)) && |EncOperand(Poisoned(op))| == |EncOperand(op)|
  {
    hide IndicesFit;
  }

  lemma {:induction false} AllPoisonedFit(ops: seq<Operand>)
    requires AllOperandsFit(ops)
    ensures AllOperandsFit(AllPoisoned(ops)) && |EncOperands(AllPoisoned(ops))| == |EncOperands(ops)|
    decreases |ops|
  {
    hide OperandFits, EncOperand, Poisoned;
    if ops != [] {
      PoisonedFits(ops[0]);
      AllPoisonedFit(ops[1..]);
      assert AllPoisoned(ops)[1..] == AllPoisoned(ops[1..]);
    }
  }

  lemma RefusedThrows(ts: seq<Token>, pos: nat)
    requires pos < |ts| && ts[pos] == REFUSED
    ensures ParseOperand(ts, pos) == Throw
  {
    assert DecodeType(REFUSED) == 0 && DecodeComps(REFUSED) == 2 && DecodeMode(REFUSED) == 3;
  }

  /** Of a poisoned immediate the first token left unread is refused. */
  lemma PoisonLeft(ts: seq<Token>, pos: nat, op: Operand)
    requires OperandFits(op) && Single64(op) && OperandFits(Poisoned(op)) && At(ts, pos, EncOperand(Poisoned(op)))
    ensures var r := ParseOperand(ts, pos); r.Ok? && r.pos < |ts| && ts[r.pos] == REFUSED
  {
    hide ParseOperand, HeadToken, ExtensionTokens, Meaning;
    var p := Poisoned(op);
    var e := EncOperand(p);
    OperandRoundTrip(ts, pos, p);
    assert p.wide[1..] == [];
    assert WideTokens(p.wide) == [REFUSED, REFUSED];
    assert e == [HeadToken(p)] + (ExtensionTokens(p.ext) + [REFUSED, REFUSED]);
    assert e[|e| - 1] == REFUSED;
    assert ts[pos..pos + |e|][|e| - 1] == ts[pos + |e| - 1];
  }

  lemma {:induction false} PoisonThrows(ts: seq<Token>, pos: nat, ops: seq<Operand>, acc: seq<Parsed>)
    requires AllOperandsFit(ops) && !OnlyLastShort(ops) && pos <= |ts|
    requires AllOperandsFit(AllPoisoned(ops)) && At(ts, pos, EncOperands(AllPoisoned(ops)))
    ensures ParseOperands(ts, pos, |ops|, acc) == Throw
    decreases |ops|
  {
    hide ParseOperand, EncOperand, OperandFits, Meaning, At, Poisoned;
    var poisoned := AllPoisoned(ops);
    assert poisoned[1..] == AllPoisoned(ops[1..]);
    AtConcat(ts, pos, EncOperand(poisoned[0]), EncOperands(poisoned[1..]));
    if Single64(ops[0]) {
      PoisonLeft(ts, pos, ops[0]);
      RefusedThrows(ts, ParseOperand(ts, pos).pos);
    } else {
      NotPoisoned(ops[0]);
      OperandRoundTrip(ts, pos, ops[0]);
      AtBounds(ts, pos + |EncOperand(ops[0])|, EncOperands(poisoned[1..]));
      PoisonThrows(ts, pos + |EncOperand(ops[0])|, ops[1..], acc + [Meaning(ops[0])]);
    }
  }

  lemma NotPoisoned(op: Operand)
    requires !Single64(op)
    ensures Poisoned(op) == op && Unread(op) == 0
  {
  }

  /** The walk lands on the next boundary whatever the 64-bit values are exactly when at most the last
      operand is a one-component 64-bit immediate; in any other place some values make the parser
      throw. */
  lemma AlwaysLandsIff(table: Table, i: Instruction)
    requires InstructionFits(table, i)
    ensures AlwaysLands(table, i) <==> OnlyLastShort(i.operands)
  {
    hide InstructionFits, EncInstruction, At, ParseInstruction;
    if OnlyLastShort(i.operands) {
      forall ops: seq<Operand>, ts: seq<Token>, pos: nat |
        SameShapes(i.operands, ops) && EncodedAt(ts, pos, table, i.(operands := ops))
        ensures var r := ParseInstruction(ts, pos, table);
                r.Default? && r.result.Ok? && r.result.pos == pos + |EncInstruction(table, i.(operands := ops))|
      {
        forall k | 0 <= k < |ops| - 1 ensures !Single64(ops[k]) { assert SameShape(i.operands[k], ops[k]); }
        InstructionRoundTrip(ts, pos, table, i.(operands := ops));
      }
    } else {
      PoisonedInstruction(table, i);
      var ops := AllPoisoned(i.operands);
      var j := i.(operands := ops);
      var ts := EncInstruction(table, j);
      WholeAt(ts);
      InstructionThrows(ts, table, i);
      assert SameShapes(i.operands, ops) && EncodedAt(ts, 0, table, j);
    }
  }

  lemma WholeAt(ts: seq<Token>)
    ensures At(ts, 0, ts)
  {
  }

  lemma PoisonedInstruction(table: Table, i: Instruction)
    requires InstructionFits(table, i)
    ensures InstructionFits(table, i.(operands := AllPoisoned(i.operands)))
            && SameShapes(i.operands, AllPoisoned(i.operands))
  {
    hide OperandFits, EncOperands, EncExtended, HasOwnCase;
    AllPoisonedFit(i.operands);
  }

  lemma InstructionThrows(ts: seq<Token>, table: Table, i: Instruction)
    requires InstructionFits(table, i) && !OnlyLastShort(i.operands)
    requires var j := i.(operands := AllPoisoned(i.operands)); EncodedAt(ts, 0, table, j)
    ensures ParseInstruction(ts, 0, table) == Default(Throw)
  {
    hide ParseOperands, EncOperands, EncInstruction, Meanings, At, HasOwnCase, DecodeOpcode, ParseBody, OnlyLastShort;
    var j := i.(operands := AllPoisoned(i.operands));
    var p := HeadRead(ts, 0, table, j);
    OwnCaseByName(i.opcode);
    PoisonThrows(ts, 1 + |i.extended|, i.operands, []);
  }

  // ----- whole programs

  predicate ProgramFits(table: Table, prog: seq<Instruction>) {
    forall k :: 0 <= k < |prog| ==> InstructionFits(table, prog[k]) && OnlyLastShort(prog[k].operands)
  }

  function EncProgram(table: Table, prog: seq<Instruction>): seq<Token>
    requires ProgramFits(table, prog)
  {
    if prog == [] then [] else EncInstruction(table, prog[0]) + EncProgram(table, prog[1..])
  }

  /** The instructions with the token offset each starts at. */
  function Boundaries(table: Table, pos: nat, prog: seq<Instruction>): seq<(nat, ParsedInstruction)>
    requires ProgramFits(table, prog)
    decreases |prog|
  {
    if prog == [] then []
    else [(pos, InstructionMeaning(prog[0]))] + Boundaries(table, pos + |EncInstruction(table, prog[0])|, prog[1..])
  }
}
