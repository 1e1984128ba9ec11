/** The token parser object with its moving cursor, proved against the parsing functions, and the
    walk over a whole program. */
module ShaderCodeParser {
  import opened Tokens
  import opened TokenRoundTrip
  import opened Instructions

  class CodeParser {
    const tokens: seq<Token>
    const table: Table
    var cur: nat
    var end: nat

    /** Token 0 is the version, token 1 the program length; instructions start at token 2. */
    constructor (ts: seq<Token>, t: Table)
      requires |ts| >= 2
      ensures tokens == ts && table == t && cur == 2 && end == ts[1]
    {
      tokens, table := ts, t;
      cur, end := 2, ts[1];
    }

    method ParseIndex(representation: nat) returns (r: Result<ParsedIndex>)
      requires cur <= |tokens|
      modifies this`cur
      ensures r == Tokens.ParseIndex(tokens, old(cur), representation)
      ensures r.Ok? ==> cur == r.pos
      decreases |tokens| - cur, 1
    {
      if representation == 0 {
        if cur >= |tokens| { return Overrun; }
        var i := NO_INDEX.(reg := tokens[cur], relType := IMMEDIATE32);
        cur := cur + 1;
        return Ok(i, cur);
      } else if representation == 1 {
        if cur + 1 >= |tokens| { return Overrun; }
        var i := NO_INDEX.(reg := tokens[cur], regHi := tokens[cur + 1], relType := IMMEDIATE64);
        cur := cur + 2;
        return Ok(i, cur);
      } else if representation == 2 {
        var op := ParseOperand();
        return if op.Ok? then Ok(Flatten(NO_INDEX, op.value), cur) else if op.Throw? then Throw else Overrun;
      } else if representation == 3 {
        if cur >= |tokens| { return Overrun; }
        var i := NO_INDEX.(reg := tokens[cur]);
        cur := cur + 1;
        var op := ParseOperand();
        return if op.Ok? then Ok(Flatten(i, op.value), cur) else if op.Throw? then Throw else Overrun;
      } else {
        return Throw;
      }
    }

    /** Fills a cleared operand record: token 0, extension, values, then each index in turn. */
    method ParseOperand() returns (r: Result<Parsed>)
      modifies this`cur
      ensures r == Tokens.ParseOperand(tokens, old(cur))
      ensures r.Ok? ==> cur == r.pos
      decreases |tokens| - cur, 0
    {
      var start := ParseOperandStart();
      if !start.Ok? { return start; }
      var p := start.value;
      var n := ValueCount(p);
      if cur + n > |tokens| { return Overrun; }
      p := WithValues(p, tokens[cur..cur + n]);
      cur := cur + n;
      ghost var goal := ParseIndices(tokens, cur, p, 0);
      var k := 0;
      while k < p.dim
        invariant 0 <= k <= p.dim && old(cur) < cur <= |tokens| && RecordOk(p)
        invariant goal == ParseIndices(tokens, cur, p, k) == Tokens.ParseOperand(tokens, old(cur))
        decreases p.dim - k
      {
        var i := ParseIndex(p.indexTypes[k]);
        if i.Throw? { return Throw; }
        if i.Overrun? { return Overrun; }
        p := p.(index := p.index[k := i.value]);
        k := k + 1;
      }
      return Ok(p, cur);
    }

    method ParseOperandStart() returns (r: Result<Parsed>)
      modifies this`cur
      ensures r == ParseStart(tokens, old(cur))
      ensures r.Ok? ==> cur == r.pos
    {
      if cur >= |tokens| { return Overrun; }
      var head := ParseHead(tokens[cur]);
      cur := cur + 1;
      if !head.Ok? { return head; }
      var p := head.value;
      if p.extended {
        if cur >= |tokens| { return Overrun; }
        p := WithExtension(p, tokens[cur]);
        cur := cur + 1;
      }
      return Ok(p, cur);
    }

    /** An opcode with its own case is handed back; otherwise the extended tokens and operands are
        read, and at the end the cursor is set from the declared length. */
    method ParseInstruction() returns (r: Outcome)
      modifies this`cur
      ensures r == Instructions.ParseInstruction(tokens, old(cur), table)
      ensures r.Default? && r.result.Ok? ==> cur == r.result.pos
    {
      hide ParseBody, HasOwnCase;
      if cur >= |tokens| { return Default(Overrun); }
      var opcode := DecodeOpcode(tokens[cur]);
      if opcode >= NUM_OPCODES { return Default(Throw); }
      if HasOwnCase(opcode) { return OwnCase(opcode); }
      var result := ParseDefault();
      return Default(result);
    }

    method ParseDefault() returns (r: Result<ParsedInstruction>)
      requires cur < |tokens|
      modifies this`cur
      ensures var body := ParseBody(tokens, old(cur), table);
              && (r.Ok? <==> body.Ok?) && (r.Throw? <==> body.Throw?)
              && (r.Ok? ==> r.value == body.value && r.pos == cur == old(cur) + body.value.length)
    {
      hide Tokens.ParseOperand, WithExtended;
      var start := cur;
      var t := tokens[cur];
      cur := cur + 1;
      var p := BLANK.(opcode := DecodeOpcode(t), saturate := DecodeSaturate(t), precise := DecodePrecise(t),
        length := DecodeLength(t));
      var more, n := DecodeMore(t), 0;
      ghost var goal := ParseExtended(tokens, cur, more, 0, p);
      while more && n < 3
        invariant 0 <= n <= 3 && start < cur <= |tokens|
        invariant goal == ParseExtended(tokens, cur, more, n, p)
        decreases 3 - n
      {
        if cur >= |tokens| { return Overrun; }
        p, more := WithExtended(p, tokens[cur]), DecodeMore(tokens[cur]);
        cur, n := cur + 1, n + 1;
      }
      var ops: seq<Parsed> := [];
      var count := table.operandCount(DecodeOpcode(t));
      ghost var rest := ParseOperands(tokens, cur, count, []);
      var k := 0;
      while k < count
        invariant 0 <= k <= count && start < cur <= |tokens|
        invariant rest == ParseOperands(tokens, cur, count - k, ops)
      {
        var op := ParseOperand();
        if op.Throw? { return Throw; }
        if op.Overrun? { return Overrun; }
        ops := ops + [op.value];
        k := k + 1;
      }
      ExtendedLength(tokens, start + 1, DecodeMore(t), 0,
        BLANK.(opcode := DecodeOpcode(t), saturate := DecodeSaturate(t),
                     precise := DecodePrecise(t), length := DecodeLength(t)));
      cur := start + DecodeLength(t);
      return Ok(p.(operands := ops), cur);
    }
  }

  /** Extended tokens do not touch the declared length. */
  lemma {:induction false} ExtendedLength(ts: seq<Token>, pos: nat, more: bool, n: nat, p: ParsedInstruction)
    requires pos <= |ts| && n <= 3
    ensures var r := ParseExtended(ts, pos, more, n, p); r.Ok? ==> r.value.length == p.length
    decreases 3 - n
  {
    if more && n < 3 && pos < |ts| {
      ExtendedLength(ts, pos + 1, DecodeMore(ts[pos]), n + 1, WithExtended(p, ts[pos]));
    }
  }

  /** State of the walk: the instructions still to come stand at the cursor and end at the end of
      the program, and with what was visited they make up all the boundaries. */
  ghost predicate Walking(ts: seq<Token>, table: Table, prog: seq<Instruction>, cur: nat, end: nat,
                          left: seq<Instruction>, visited: seq<(nat, ParsedInstruction)>) {
    && ProgramFits(table, prog) && ProgramFits(table, left)
    && At(ts, cur, EncProgram(table, left)) && cur + |EncProgram(table, left)| == end
    && visited + Boundaries(table, cur, left) == Boundaries(table, 2, prog)
  }

  /** One more instruction: the parser returns it and stops at the next boundary. */
  lemma WalkStep(ts: seq<Token>, table: Table, prog: seq<Instruction>, cur: nat, end: nat,
                 left: seq<Instruction>, visited: seq<(nat, ParsedInstruction)>)
    requires Walking(ts, table, prog, cur, end, left, visited) && cur < end
    ensures left != [] && InstructionFits(table, left[0])
    ensures var r := Instructions.ParseInstruction(ts, cur, table);
            && r == Default(Ok(InstructionMeaning(left[0]), cur + |EncInstruction(table, left[0])|))
            && Walking(ts, table, prog, r.result.pos, end, left[1..], visited + [(cur, r.result.value)])
  {
    hide EncInstruction, Instructions.ParseInstruction, ParseBody, InstructionMeaning, At, OnlyLastShort;
    var first, rest := EncInstruction(table, left[0]), EncProgram(table, left[1..]);
    AtConcat(ts, cur, first, rest);
    InstructionRoundTrip(ts, cur, table, left[0]);
    var tail := Boundaries(table, cur + |first|, left[1..]);
    Shift(visited, (cur, InstructionMeaning(left[0])), tail);
  }

  lemma Shift<T>(a: seq<T>, x: T, b: seq<T>)
    ensures a + ([x] + b) == (a + [x]) + b
  {
  }

  lemma WalkDone(ts: seq<Token>, table: Table, prog: seq<Instruction>, cur: nat, end: nat,
                 left: seq<Instruction>, visited: seq<(nat, ParsedInstruction)>)
    requires Walking(ts, table, prog, cur, end, left, visited) && cur >= end
    ensures cur == end && visited == Boundaries(table, 2, prog)
  {
    hide InstructionFits;
    assert left == [];
    assert visited + [] == visited;
  }

  lemma WalkStart(ts: seq<Token>, table: Table, prog: seq<Instruction>, version: Token, after: seq<Token>)
    requires ProgramFits(table, prog) && 2 + |EncProgram(table, prog)| < 0x1_0000_0000
    requires ts == [version, 2 + |EncProgram(table, prog)|] + EncProgram(table, prog) + after
    ensures Walking(ts, table, prog, 2, 2 + |EncProgram(table, prog)|, prog, [])
  {
    hide InstructionFits, EncProgram, Boundaries;
    assert ts[2..2 + |EncProgram(table, prog)|] == EncProgram(table, prog);
    assert [] + Boundaries(table, 2, prog) == Boundaries(table, 2, prog);
  }

  /** Walks a shader made of a version token, its length and encoded instructions, followed by any
      tokens: the loop stops exactly at the end of the program after visiting every instruction
      boundary, and returns every instruction with all its fields. */
  method WalkProgram(version: Token, table: Table, prog: seq<Instruction>, after: seq<Token>)
    returns (visited: seq<(nat, ParsedInstruction)>, stop: nat)
    requires ProgramFits(table, prog) && 2 + |EncProgram(table, prog)| < 0x1_0000_0000
    ensures visited == Boundaries(table, 2, prog) && stop == 2 + |EncProgram(table, prog)|
  {
    hide Walking, InstructionFits, Instructions.ParseInstruction, InstructionMeaning, EncProgram, Boundaries;
    var code := EncProgram(table, prog);
    var ts: seq<Token> := [version, 2 + |code|] + code + after;
    WalkStart(ts, table, prog, version, after);
    var parser := new CodeParser(ts, table);
    visited := [];
    ghost var left := prog;
    while parser.cur < parser.end
      invariant parser.tokens == ts && parser.table == table && parser.end == 2 + |code|
      invariant Walking(ts, table, prog, parser.cur, parser.end, left, visited)
      decreases |left|
    {
      var at := parser.cur;
      WalkStep(ts, table, prog, at, parser.end, left, visited);
      var r := parser.ParseInstruction();
      visited := visited + [(at, r.result.value)];
      left := left[1..];
    }
    WalkDone(ts, table, prog, parser.cur, parser.end, left, visited);
    stop := parser.cur;
  }
}
