/** The parser object: mutable block, record and registry tables, proved to compute Bitcode.Parse. */
module Parser {
  import opened Options
  import opened Bits
  import opened Primitives
  import opened Bitcode
  import opened Reader

  /** The registry as the source keeps it, a list of pairs searched from the front. */
  type RegistryList = seq<(nat, seq<Abbrev>)>

  ghost function AsMap(list: RegistryList): Registry {
    if list == [] then map[] else AsMap(list[1..])[list[0].0 := list[0].1]
  }

  ghost predicate FirstWith(list: RegistryList, i: nat, id: nat) {
    i < |list| && list[i].0 == id && forall j :: 0 <= j < i ==> list[j].0 != id
  }

  lemma {:induction false} FoundIn(list: RegistryList, i: nat, id: nat)
    requires FirstWith(list, i, id)
    ensures id in AsMap(list) && AsMap(list)[id] == list[i].1
  {
    if i > 0 {
      assert list[0].0 != id;
      FoundIn(list[1..], i - 1, id);
    }
  }

  lemma {:induction false} NotFoundIn(list: RegistryList, id: nat)
    requires forall j :: 0 <= j < |list| ==> list[j].0 != id
    ensures id !in AsMap(list)
  {
    if list != [] {
      assert list[0].0 != id;
      NotFoundIn(list[1..], id);
    }
  }

  lemma {:induction false} UpdateAt(list: RegistryList, i: nat, id: nat, v: seq<Abbrev>)
    requires FirstWith(list, i, id)
    ensures AsMap(list[i := (id, v)]) == AsMap(list)[id := v]
  {
    var changed := list[i := (id, v)];
    if i == 0 {
      assert changed[1..] == list[1..];
    } else {
      assert list[0].0 != id;
      UpdateAt(list[1..], i - 1, id, v);
      assert changed[1..] == list[1..][i - 1 := (id, v)];
    }
  }

  lemma {:induction false} AppendNew(list: RegistryList, id: nat, v: seq<Abbrev>)
    requires forall j :: 0 <= j < |list| ==> list[j].0 != id
    ensures AsMap(list + [(id, v)]) == AsMap(list)[id := v]
  {
    if list == [] {
      assert ([] + [(id, v)])[1..] == [];
    } else {
      assert list[0].0 != id;
      AppendNew(list[1..], id, v);
      assert (list + [(id, v)])[1..] == list[1..] + [(id, v)];
    }
  }

  /** The part of a record the source keeps: at most sixteen values. */
  function Kept(values: seq<nat>): seq<nat> { if |values| <= 16 then values else values[..16] }

  /** An operand count as kept in a 32-bit word. */
  function Wrapped(n: nat): nat { n % U32 }

  lemma CountOneMore(n: nat)
    ensures Wrapped(n + 1) == (Wrapped(n) + 1) % U32
  {
  }

  lemma NoneRead()
    ensures Kept([]) == [] && Wrapped(0) == 0
  {
  }

  lemma Middle<T>(pre: seq<T>, x: T, post: seq<T>, y: T)
    ensures (pre + [x] + post)[|pre|] == x
    ensures (pre + [x] + post)[|pre| := y] == pre + [y] + post == pre + ([y] + post)
  {
  }

  lemma Regroup<T>(whole: seq<T>, more: seq<T>, a: seq<T>, b: seq<T>)
    requires whole == a + b
    ensures whole + more == a + (b + more)
  {
  }

  /** One activation of the block parser: its frame, the answer it must reach and the tables on entry. */
  datatype Run = Run(frame: Frame, goal: Option<Out>, blocks: seq<BlockInfo>, records: seq<RecordInfo>)

  class BitcodeParser {
    const reader: BitReader
    var blocks: seq<BlockInfo>
    var records: seq<RecordInfo>
    var registry: RegistryList

    constructor (bytes: seq<Byte>)
      ensures Valid() && fresh(reader)
      ensures reader.data == bytes && reader.bitOffset == 0
      ensures blocks == [] && records == [] && registry == []
    {
      reader := new BitReader(bytes);
      blocks, records, registry := [], [], [];
    }

    ghost predicate Valid()
      reads this, reader
    {
      reader.Valid()
    }

    ghost function S(): seq<bool> { reader.Stream() }

    /** Parses the whole stream. On success the tables are those of the specification. */
    method Parse() returns (ok: bool)
      requires Valid() && reader.bitOffset == 0 && registry == []
      modifies this, reader
      ensures Valid()
      ensures var r := Bitcode.Parse(S());
              ok == r.Some? && (ok ==> blocks == r.value.blocks && records == r.value.records
                                       && AsMap(registry) == r.value.reg && reader.bitOffset == r.value.off)
    {
      var got, magic := reader.ReadBits(32);
      if !got || magic != MAGIC {
        return false;
      }
      blocks, records := [], [];
      ok := ParseBlock(ROOT_ID, 2, 0, reader.bitLimit);
    }

    method ParseBlock(id: nat, width: nat, depth: nat, endBit: nat) returns (ok: bool)
      requires Valid() && endBit <= reader.bitLimit
      modifies this, reader
      ensures Valid()
      ensures var r := Bitcode.ParseBlock(S(), old(reader.bitOffset), old(AsMap(registry)), id, width, depth, endBit);
              ok == r.Some? && (ok ==>
                    && blocks == old(blocks) + r.value.blocks && records == old(records) + r.value.records
                    && AsMap(registry) == r.value.reg && reader.bitOffset == r.value.off)
      decreases reader.bitLimit - reader.bitOffset
    {
      if depth > MAX_DEPTH || width == 0 || width > 32 {
        return false;
      }
      var blockIndex := |blocks|;
      var start := reader.bitOffset;
      blocks := blocks + [BlockInfo(id, width, depth, start, 0, 0)];
      var abbrevs := FindBlockInfoAbbrevs(id);
      var setBid := 0;

      ghost var b := Frame(id, width, depth, start, endBit, abbrevs);
      ghost var run := Run(b, ParseItems(S(), b, start, AsMap(registry), []), old(blocks), old(records));
      ghost var h: History := [];
      assert Bitcode.ParseBlock(S(), start, AsMap(registry), id, width, depth, endBit) == run.goal;
      assert Looping(run, h, abbrevs, setBid, reader.bitOffset);
      hide Bitcode.ParseBlock, Lex, ParseItems, ReadFixed, AsMap, Kids, Records, RecordCount, OwnDefs, SetBid;
      while reader.bitOffset < endBit
        invariant Looping(run, h, abbrevs, setBid, reader.bitOffset)
        decreases endBit - reader.bitOffset
      {
        ghost var at := reader.bitOffset;
        var got, abbrevId := reader.ReadBits(width);
        if !got {
          BadElement(run, h, abbrevs, setBid, at);
          return false;
        }
        if abbrevId == END_BLOCK {
          ok := EndItem(run, h, abbrevs, setBid, at, blockIndex, endBit);
          return;
        } else if abbrevId == ENTER_SUBBLOCK {
          ok, h := ChildItem(run, h, abbrevs, setBid, at, depth, endBit);
        } else if abbrevId == DEFINE_ABBREV {
          ok, abbrevs, h := DefineItem(run, h, abbrevs, setBid, at, id);
        } else {
          ok, setBid, h := RecordItem(run, h, abbrevs, setBid, at, id, abbrevId, blockIndex);
        }
        if !ok {
          return;
        }
      }
      ok := LimitReached(run, h, abbrevs, setBid, blockIndex, endBit);
    }

    /** The state of the block loop at offset off, after the items h: what the tables hold, and that
        the answer is still to be found from here. */
    ghost predicate Looping(run: Run, h: History, abbrevs: seq<Abbrev>, setBid: nat, off: nat)
      reads this, reader
    {
      var b := run.frame;
      && Valid() && FrameOk(S(), b) && b.start <= off
      && abbrevs == InForce(b, h) && setBid == SetBid(b.id, h)
      && blocks == run.blocks + [BlockInfo(b.id, b.width, b.depth, b.start, 0, RecordCount(h))] + Kids(h)
      && records == run.records + Records(b.id, h)
      && run.goal == ParseItems(S(), b, off, AsMap(registry), h)
    }

    /** The abbreviation id value was read at offset at; the cursor stands after it. */
    ghost predicate AfterId(b: Frame, at: nat, id: nat)
      reads this, reader
    {
      Valid() && at < b.limit && reader.bitOffset == at + b.width
        && ReadFixed(S(), at, b.width) == Got(id, at + b.width)
    }

    lemma BadElement(run: Run, h: History, abbrevs: seq<Abbrev>, setBid: nat, at: nat)
      requires Looping(run, h, abbrevs, setBid, at) && at < run.frame.limit
      requires Lex(S(), at, run.frame.width, abbrevs) == Bad
      ensures run.goal == None
    {
      StepEnd(S(), run.frame, at, AsMap(registry), h);
    }

    /** A block may also stop without END_BLOCK, exactly at its limit. */
    method LimitReached(ghost run: Run, ghost h: History, ghost abbrevs: seq<Abbrev>, ghost setBid: nat,
                        blockIndex: nat, endBit: nat) returns (ok: bool)
      requires Looping(run, h, abbrevs, setBid, reader.bitOffset) && reader.bitOffset >= endBit
      requires blockIndex == |run.blocks| && endBit == run.frame.limit
      modifies this`blocks
      ensures Valid() && ok == run.goal.Some?
      ensures ok ==> blocks == run.blocks + run.goal.value.blocks && records == run.records + run.goal.value.records
                     && AsMap(registry) == run.goal.value.reg && reader.bitOffset == run.goal.value.off
    {
      hide ParseItems, AsMap, Kids, Records, RecordCount, OwnDefs, SetBid;
      StepEnd(S(), run.frame, reader.bitOffset, AsMap(registry), h);
      if reader.bitOffset != endBit {
        return false;
      }
      Middle(run.blocks, blocks[blockIndex], Kids(h), blocks[blockIndex].(end := endBit));
      blocks := blocks[blockIndex := blocks[blockIndex].(end := endBit)];
      return true;
    }

    method EndItem(ghost run: Run, ghost h: History, ghost abbrevs: seq<Abbrev>, ghost setBid: nat, ghost at: nat,
                   blockIndex: nat, endBit: nat) returns (ok: bool)
      requires Looping(run, h, abbrevs, setBid, at) && AfterId(run.frame, at, END_BLOCK)
      requires blockIndex == |run.blocks| && endBit == run.frame.limit
      modifies this`blocks, reader
      ensures Valid() && ok == run.goal.Some?
      ensures ok ==> blocks == run.blocks + run.goal.value.blocks && records == run.records + run.goal.value.records
                     && AsMap(registry) == run.goal.value.reg && reader.bitOffset == run.goal.value.off
    {
      hide ParseItems, AsMap, Kids, Records, RecordCount, OwnDefs, SetBid;
      StepEnd(S(), run.frame, at, AsMap(registry), h);
      ok := reader.Align32();
      if !ok || reader.bitOffset > endBit {
        return false;
      }
      Middle(run.blocks, blocks[blockIndex], Kids(h), blocks[blockIndex].(end := reader.bitOffset));
      blocks := blocks[blockIndex := blocks[blockIndex].(end := reader.bitOffset)];
    }

    method ChildItem(ghost run: Run, ghost h: History, ghost abbrevs: seq<Abbrev>, ghost setBid: nat, ghost at: nat,
                     depth: nat, endBit: nat) returns (ok: bool, ghost h': History)
      requires Looping(run, h, abbrevs, setBid, at) && AfterId(run.frame, at, ENTER_SUBBLOCK)
      requires depth == run.frame.depth && endBit == run.frame.limit
      modifies this, reader
      ensures Valid()
      ensures if ok then reader.bitOffset > at && Looping(run, h', abbrevs, setBid, reader.bitOffset)
              else run.goal == None
      decreases reader.bitLimit - reader.bitOffset, 1
    {
      hide ParseItems, Bitcode.ParseChild, Lex, LexBody, LexEnter, ReadFixed, AsMap, Kids, Records, RecordCount,
        OwnDefs, SetBid;
      h' := h;
      ghost var reg := AsMap(registry);
      ghost var e := LexEnter(S(), reader.bitOffset);
      LexIsBody(S(), at, run.frame.width, abbrevs, ENTER_SUBBLOCK);
      ok := ParseChild(depth, endBit);
      if e.Bad? {
        StepEnd(S(), run.frame, at, reg, h);
      } else {
        StepChild(S(), run.frame, at, reg, h, e.value.id, e.value.width, e.value.words, e.off);
      }
      if ok {
        ghost var o := Bitcode.ParseChild(S(), e.off, reg, e.value.id, e.value.width, e.value.words, depth,
          endBit).value;
        Snoc(run.frame.id, h, ChildOf(e.value.id % U32, o));
        Regroup(old(blocks), o.blocks, run.blocks + [old(blocks)[|run.blocks|]], Kids(h));
        Regroup(old(records), o.records, run.records, Records(run.frame.id, h));
        h' := h + [ChildOf(e.value.id % U32, o)];
      }
    }

    method DefineItem(ghost run: Run, ghost h: History, abbrevs: seq<Abbrev>, setBid: nat, ghost at: nat, id: nat)
      returns (ok: bool, abbrevs': seq<Abbrev>, ghost h': History)
      requires Looping(run, h, abbrevs, setBid, at) && AfterId(run.frame, at, DEFINE_ABBREV) && id == run.frame.id
      modifies this`registry, reader
      ensures Valid()
      ensures if ok then reader.bitOffset > at && Looping(run, h', abbrevs', setBid, reader.bitOffset)
              else run.goal == None
    {
      hide ParseItems, ReadAbbrev, ReadFixed, AsMap, Kids, Records, RecordCount, OwnDefs, SetBid;
      h', abbrevs' := h, abbrevs;
      ghost var reg := AsMap(registry);
      StepEnd(S(), run.frame, at, reg, h);
      var abbrev;
      ok, abbrev := ReadAbbrevDef();
      if !ok {
        return;
      }
      StepDefine(S(), run.frame, at, reg, h, abbrev, reader.bitOffset);
      Snoc(id, h, Define(abbrev));
      h' := h + [Define(abbrev)];
      if id == BLOCKINFO_ID && setBid != 0 {
        AddBlockInfoAbbrev(setBid, abbrev);
      } else {
        abbrevs' := abbrevs + [abbrev];
      }
    }

    method RecordItem(ghost run: Run, ghost h: History, abbrevs: seq<Abbrev>, setBid: nat, ghost at: nat, id: nat,
                      abbrevId: nat, blockIndex: nat) returns (ok: bool, setBid': nat, ghost h': History)
      requires Looping(run, h, abbrevs, setBid, at) && AfterId(run.frame, at, abbrevId) && abbrevId >= UNABBREV_RECORD
      requires id == run.frame.id && blockIndex == |run.blocks|
      modifies this`blocks, this`records, reader
      ensures Valid()
      ensures if ok then reader.bitOffset > at && Looping(run, h', abbrevs, setBid', reader.bitOffset)
              else run.goal == None
    {
      hide ParseItems, LexBody, ReadFixed, AsMap, Kids, Records, RecordCount, OwnDefs, SetBid;
      h', setBid' := h, setBid;
      ghost var lexed := LexBody(S(), reader.bitOffset, abbrevId, abbrevs);
      assert Lex(S(), at, run.frame.width, abbrevs) == lexed;
      StepEnd(S(), run.frame, at, AsMap(registry), h);
      var record, values;
      ok, record, values := ReadRecord(id, abbrevId, abbrevs);
      if !ok {
        return;
      }
      ghost var rec := lexed.value.rec;
      StepRecord(S(), run.frame, at, AsMap(registry), h, rec, reader.bitOffset);
      Snoc(id, h, Record(rec));
      h' := h + [Record(rec)];
      if id == BLOCKINFO_ID && record.code == SETBID_CODE && |values| >= 2 {
        setBid' := values[1] % U32;
      }
      var info := blocks[blockIndex];
      Middle(run.blocks, info, Kids(h), info.(recordCount := info.recordCount + 1));
      blocks := blocks[blockIndex := info.(recordCount := info.recordCount + 1)];
      records := records + [record];
    }

    /** A record, unabbreviated or through one of the abbreviations in force. */
    method ReadRecord(
      id: nat, abbrevId: nat, abbrevs: seq<Abbrev>)
      returns (ok: bool, record: RecordInfo, values: seq<nat>)
      requires Valid() && abbrevId >= UNABBREV_RECORD
      modifies reader
      ensures Valid()
      ensures var r := LexBody(S(), old(reader.bitOffset), abbrevId, abbrevs);
              ok == r.Got? && (ok ==>
                    && r.value.LRecord? && reader.bitOffset == r.off && record == Summary(id, r.value.rec)
                    && values == Kept(r.value.rec.values))
    {
      hide ReadUnabbreviated, ReadFields;
      record, values := RecordInfo(id, 0, 0, false), [];
      if abbrevId == UNABBREV_RECORD {
        var code, count;
        ok, code, count, values := ReadUnabbreviatedRecord();
        record := RecordInfo(id, code % U32, count % U32, false);
      } else {
        if abbrevId - FIRST_APPLICATION_ABBREV >= |abbrevs| {
          return false, record, values;
        }
        var count;
        ok, count, values := ReadAbbreviatedRecord(abbrevs[abbrevId - FIRST_APPLICATION_ABBREV]);
        if !ok || values == [] {
          return false, record, values;
        }
        record := RecordInfo(id, values[0] % U32, if count > 0 then count - 1 else 0, true);
      }
    }

    /** The header and body of a nested block, from just after the abbreviation id. */
    method ParseChild(depth: nat, endBit: nat) returns (ok: bool)
      requires Valid() && endBit <= reader.bitLimit
      modifies this, reader
      ensures Valid()
      ensures match LexEnter(S(), old(reader.bitOffset))
              case Bad => !ok
              case Got(e, next) =>
                var r := Bitcode.ParseChild(S(), next, old(AsMap(registry)), e.id, e.width, e.words, depth, endBit);
                ok == r.Some? && (ok ==>
                    && blocks == old(blocks) + r.value.blocks && records == old(records) + r.value.records
                    && AsMap(registry) == r.value.reg && reader.bitOffset == r.value.off)
      decreases reader.bitLimit - reader.bitOffset, 0
    {
      hide ReadVbr, ReadFixed, Bitcode.ParseBlock;
      var got, childId := reader.ReadVbrBits(8);
      if !got {
        return false;
      }
      var got2, childWidth := reader.ReadVbrBits(4);
      if !got2 {
        return false;
      }
      var aligned := reader.Align32();
      if !aligned {
        return false;
      }
      var got3, words := reader.ReadBits(32);
      if !got3 {
        return false;
      }
      var childEnd := reader.bitOffset + words * 32;
      if childEnd > endBit {
        return false;
      }
      ok := ParseBlock(childId % U32, childWidth % U32, depth + 1, childEnd);
      if ok {
        if reader.bitOffset > childEnd {
          return false;
        }
        ok := reader.Seek(childEnd);
      }
    }

    method ReadAbbrevDef() returns (ok: bool, abbrev: Abbrev)
      requires Valid()
      modifies reader
      ensures Valid()
      ensures var r := ReadAbbrev(S(), old(reader.bitOffset));
              ok == r.Got? && (ok ==> abbrev == r.value && reader.bitOffset == r.off)
    {
      hide ReadAbbrevOp, ReadVbr;
      abbrev := [];
      var got, count := reader.ReadVbrBits(5);
      if !got {
        return false, abbrev;
      }
      ghost var goal := ReadAbbrevOps(S(), reader.bitOffset, count, []);
      var i := 0;
      while i < count
        invariant Valid() && 0 <= i <= count
        invariant goal == ReadAbbrevOps(S(), reader.bitOffset, count - i, abbrev)
      {
        var read, op := ReadAbbrevOperand();
        if !read {
          return false, abbrev;
        }
        abbrev := abbrev + [op];
        i := i + 1;
      }
      ok := true;
    }

    method ReadAbbrevOperand() returns (ok: bool, op: AbbrevOp)
      requires Valid()
      modifies reader
      ensures Valid()
      ensures var r := ReadAbbrevOp(S(), old(reader.bitOffset));
              ok == r.Got? && (ok ==> op == r.value && reader.bitOffset == r.off)
    {
      op := Array;
      var got, isLiteral := reader.ReadBits(1);
      if !got {
        return false, op;
      }
      if isLiteral != 0 {
        var read, value := reader.ReadVbrBits(8);
        return read, Literal(value);
      }
      var got2, encoding := reader.ReadBits(3);
      if !got2 || encoding < 1 || encoding > 5 {
        return false, op;
      }
      if encoding == 1 || encoding == 2 {
        var read, value := reader.ReadVbrBits(5);
        return read, if encoding == 1 then Fixed(value) else Vbr(value);
      }
      return true, if encoding == 3 then Array else if encoding == 4 then Char6 else Blob;
    }

    /** Reads every operand but keeps at most sixteen values. */
    method ReadUnabbreviatedRecord() returns (ok: bool, code: nat, count: nat, values: seq<nat>)
      requires Valid()
      modifies reader
      ensures Valid()
      ensures var r := ReadUnabbreviated(S(), old(reader.bitOffset));
              ok == r.Got? && (ok ==> reader.bitOffset == r.off && code == r.value.values[0]
                                      && count == |r.value.values| - 1 && values == Kept(r.value.values))
    {
      hide ReadVbr;
      count, values := 0, [];
      ok, code := reader.ReadVbrBits(6);
      if !ok {
        return;
      }
      ok, count := reader.ReadVbrBits(6);
      if !ok {
        return;
      }
      values := [code];
      ghost var all := [code];
      ghost var goal := ReadArray(S(), reader.bitOffset, Vbr(6), count, all);
      var i := 0;
      while i < count
        invariant Valid() && 0 <= i <= count
        invariant values == Kept(all) && |all| == i + 1 && all[0] == code
        invariant goal == ReadArray(S(), reader.bitOffset, Vbr(6), count - i, all)
      {
        var read, value := reader.ReadVbrBits(6);
        if !read {
          return false, code, count, values;
        }
        all := all + [value];
        if |values| < 16 {
          values := values + [value];
        }
        i := i + 1;
      }
    }

    /** Reads a record through an abbreviation; the count wraps at 32 bits. */
    method ReadAbbreviatedRecord(abbrev: Abbrev) returns (ok: bool, count: nat, values: seq<nat>)
      requires Valid()
      modifies reader
      ensures Valid()
      ensures var r := ReadFields(S(), old(reader.bitOffset), abbrev, [], 0);
              ok == r.Got? && (ok ==> reader.bitOffset == r.off && values == Kept(r.value.values)
                                      && count == Wrapped(|r.value.values| + r.value.blobs))
    {
      hide ReadVbr, ReadScalar, ReadBlob, ReadArray, ReadFields, Kept, Wrapped;
      NoneRead();
      values, count := [], 0;
      ghost var all, blobs: nat := [], 0;
      ghost var goal := ReadFields(S(), reader.bitOffset, abbrev, all, blobs);
      assert abbrev[0..] == abbrev;
      var i := 0;
      while i < |abbrev|
        invariant Valid() && 0 <= i <= |abbrev|
        invariant values == Kept(all) && count == Wrapped(|all| + blobs)
        invariant goal == ReadFields(S(), reader.bitOffset, abbrev[i..], all, blobs)
      {
        var op := abbrev[i];
        ghost var rest := abbrev[i..];
        assert rest[1..] == abbrev[i + 1..];
        if op == Array {
          FieldsArray(S(), reader.bitOffset, rest, all, blobs);
          if i + 1 >= |abbrev| {
            return false, count, values;
          }
          assert rest[2..] == abbrev[i + 2..];
          var got, length := reader.ReadVbrBits(6);
          if !got {
            return false, count, values;
          }
          ghost var items := ReadArray(S(), reader.bitOffset, abbrev[i + 1], length, all);
          ok, count, values := ReadArrayItems(abbrev[i + 1], length, count, values, all, blobs);
          if !ok {
            return;
          }
          all := items.value;
          i := i + 2;
        } else if op == Blob {
          FieldsBlob(S(), reader.bitOffset, rest, all, blobs);
          ok := ReadBlobBytes();
          if !ok {
            return;
          }
          CountOneMore(|all| + blobs);
          count := (count + 1) % U32;
          blobs := blobs + 1;
          i := i + 1;
        } else {
          FieldsScalar(S(), reader.bitOffset, rest, all, blobs);
          var read, value := ReadEncodedValue(op);
          if !read {
            return false, count, values;
          }
          count, values := PushRecordValue(values, value, count, all, blobs);
          all := all + [value];
          i := i + 1;
        }
      }
      assert abbrev[i..] == [];
      assert goal == Got(Rec(all, blobs, true), reader.bitOffset) by { FieldsNone(S(), reader.bitOffset, all, blobs); }
      ok := true;
    }

    method ReadArrayItems(
      elt: AbbrevOp, length: nat, count0: nat, values0: seq<nat>, ghost all0: seq<nat>, ghost blobs: nat)
      returns (ok: bool, count: nat, values: seq<nat>)
      requires Valid() && values0 == Kept(all0) && count0 == Wrapped(|all0| + blobs)
      modifies reader
      ensures Valid()
      ensures var r := ReadArray(S(), old(reader.bitOffset), elt, length, all0);
              ok == r.Got? && (ok ==> reader.bitOffset == r.off && values == Kept(r.value)
                                      && count == Wrapped(|r.value| + blobs))
    {
      hide ReadScalar, Kept, Wrapped;
      count, values := count0, values0;
      ghost var all := all0;
      ghost var goal := ReadArray(S(), reader.bitOffset, elt, length, all0);
      var item := 0;
      while item < length
        invariant Valid() && 0 <= item <= length
        invariant values == Kept(all) && count == Wrapped(|all| + blobs)
        invariant goal == ReadArray(S(), reader.bitOffset, elt, length - item, all)
      {
        var read, value := ReadEncodedValue(elt);
        if !read {
          return false, count, values;
        }
        count, values := PushRecordValue(values, value, count, all, blobs);
        all := all + [value];
        item := item + 1;
      }
      ok := true;
    }

    method ReadBlobBytes() returns (ok: bool)
      requires Valid()
      modifies reader
      ensures Valid()
      ensures var r := ReadBlob(S(), old(reader.bitOffset));
              ok == r.Got? && (ok ==> reader.bitOffset == r.off)
    {
      var length;
      ok, length := reader.ReadVbrBits(6);
      if !ok || length > (WORD - 1) / 8 {
        return false;
      }
      ok := reader.Align32();
      if ok {
        ok := reader.SkipBits(length * 8);
      }
      if ok {
        ok := reader.Align32();
      }
    }

    method ReadEncodedValue(op: AbbrevOp) returns (ok: bool, value: nat)
      requires Valid()
      modifies reader
      ensures Valid()
      ensures var r := ReadScalar(S(), old(reader.bitOffset), op);
              ok == r.Got? && (ok ==> value == r.value && reader.bitOffset == r.off)
    {
      match op
      case Literal(v) => return true, v;
      case Fixed(w) => ok, value := reader.ReadBits(w % U32);
      case Vbr(w) => ok, value := reader.ReadVbrBits(w % U32);
      case Char6 => ok, value := reader.ReadBits(6);
      case Array => return false, 0;
      case Blob => return false, 0;
    }

    method PushRecordValue(values: seq<nat>, value: nat, count: nat, ghost all: seq<nat>, ghost blobs: nat)
      returns (count': nat, values': seq<nat>)
      requires values == Kept(all) && count == Wrapped(|all| + blobs)
      ensures values' == Kept(all + [value]) && count' == Wrapped(|all + [value]| + blobs)
    {
      hide Wrapped;
      CountOneMore(|all| + blobs);
      count' := (count + 1) % U32;
      values' := if |values| < 16 then values + [value] else values;
    }

    method FindBlockInfoAbbrevs(id: nat) returns (abbrevs: seq<Abbrev>)
      ensures abbrevs == Lookup(AsMap(registry), id)
    {
      for i := 0 to |registry|
        invariant forall j :: 0 <= j < i ==> registry[j].0 != id
      {
        if registry[i].0 == id {
          FoundIn(registry, i, id);
          return registry[i].1;
        }
      }
      NotFoundIn(registry, id);
      return [];
    }

    method AddBlockInfoAbbrev(id: nat, abbrev: Abbrev)
      modifies this`registry
      ensures AsMap(registry) == Register(old(AsMap(registry)), id, abbrev)
    {
      for i := 0 to |registry|
        invariant registry == old(registry)
        invariant forall j :: 0 <= j < i ==> registry[j].0 != id
      {
        if registry[i].0 == id {
          FoundIn(registry, i, id);
          UpdateAt(registry, i, id, registry[i].1 + [abbrev]);
          registry := registry[i := (id, registry[i].1 + [abbrev])];
          return;
        }
      }
      NotFoundIn(registry, id);
      assert Lookup(AsMap(registry), id) + [abbrev] == [abbrev];
      AppendNew(registry, id, [abbrev]);
      registry := registry + [(id, [abbrev])];
    }
  }
}
