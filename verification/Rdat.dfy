/** The RDAT runtime-data tables. Tables are parsed in stages; a stage checks its references against
    the tables already parsed. */
module Rdat {
  import opened Options

  const NULL_REF: nat := 0xffff_ffff

  const STRING_BUFFER: nat := 1
  const INDEX_ARRAYS: nat := 2
  const RESOURCE_TABLE: nat := 3
  const FUNCTION_TABLE: nat := 4
  const RAW_BYTES: nat := 5
  const SUBOBJECT_TABLE: nat := 6
  const NODE_ID_TABLE: nat := 7
  const NODE_IO_ATTRIB_TABLE: nat := 8
  const NODE_FUNC_ATTRIB_TABLE: nat := 9
  const IO_NODE_TABLE: nat := 10
  const NODE_SHADER_TABLE: nat := 11
  const SIGNATURE_TABLE: nat := 13
  const VS_TABLE: nat := 14
  const PS_TABLE: nat := 15
  const HS_TABLE: nat := 16
  const DS_TABLE: nat := 17
  const GS_TABLE: nat := 18
  const CS_TABLE: nat := 19
  const MS_TABLE: nat := 20
  const AS_TABLE: nat := 21
  const PDB_TABLE: nat := 0x10001
  const PDB_SOURCE_TABLE: nat := 0x10002
  const PDB_LIBRARY_TABLE: nat := 0x10003

  /** A part: its payload as bytes and as 32-bit words, and, for tables, its records as words. */
  datatype Part = Part(kind: nat, bytes: seq<nat>, words: seq<nat>, isTable: bool, stride: nat, records: seq<seq<nat>>)

  function FindPart(parts: seq<Part>, kind: nat): Option<Part> {
    if parts == [] then None else if parts[0].kind == kind then Some(parts[0]) else FindPart(parts[1..], kind)
  }

  /** Word k of a record; a record is at least as long as the fields its table reads. */
  function Word(record: seq<nat>, k: nat): nat { if k < |record| then record[k] else 0 }

  /** A byte or half word at a byte offset. */
  function Byte(record: seq<nat>, k: nat): nat { Word(record, k / 4) / Power(k % 4) % 256 }
  function Half(record: seq<nat>, k: nat): nat { Word(record, k / 4) / Power(k % 4) % 0x1_0000 }

  function Power(n: nat): (p: nat)
    ensures p > 0
  {
    if n == 0 then 1 else if n == 1 then 0x100 else if n == 2 then 0x1_0000 else 0x100_0000
  }

  // ----- strings, index arrays and raw bytes

  type Text = seq<nat>

  /** The characters up to the next terminator, if there is one. */
  function ReadText(bytes: seq<nat>, offset: nat): Option<Text>
    decreases |bytes| - offset
  {
    if offset >= |bytes| then None
    else if bytes[offset] == 0 then Some([])
    else
      var rest := ReadText(bytes, offset + 1);
      if rest.None? then None else Some([bytes[offset]] + rest.value)
  }

  function ReadString(parts: seq<Part>, offset: nat): Option<Text> {
    if offset == NULL_REF then Some([])
    else
      var p := FindPart(parts, STRING_BUFFER);
      if p.None? then None else ReadText(p.value.bytes, offset)
  }

  function ReadStrings(parts: seq<Part>, offsets: seq<nat>): Option<seq<Text>> {
    if offsets == [] then Some([])
    else
      var first, rest := ReadString(parts, offsets[0]), ReadStrings(parts, offsets[1..]);
      if first.Some? && rest.Some? then Some([first.value] + rest.value) else None
  }

  function ReadStringArray(parts: seq<Part>, offset: nat): Option<seq<Text>> {
    var offsets := ReadIndexArray(parts, offset);
    if offsets.None? then None else ReadStrings(parts, offsets.value)
  }

  function ReadBytes(parts: seq<Part>, offset: nat, size: nat): Option<seq<nat>> {
    var p := FindPart(parts, RAW_BYTES);
    if size == 0 then Some([])
    else if offset == NULL_REF || p.None? || offset + size > |p.value.bytes| then None
    else Some(p.value.bytes[offset..offset + size])
  }

  function ReadIndexArray(parts: seq<Part>, offset: nat): Option<seq<nat>> {
    if offset == NULL_REF then Some([])
    else
      var p := FindPart(parts, INDEX_ARRAYS);
      if p.None? || |p.value.words| < 1 || offset >= |p.value.words| - 1 then None
      else
        var words := p.value.words;
        var n := words[offset];
        if n > |words| - offset - 1 then None else Some(words[offset + 1..offset + 1 + n])
  }

  ghost predicate Below(indices: seq<nat>, limit: nat) {
    forall i :: 0 <= i < |indices| ==> indices[i] < limit
  }

  function AllBelow(indices: seq<nat>, limit: nat): (r: bool)
    ensures r <==> Below(indices, limit)
  {
    forall i :: 0 <= i < |indices| ==> indices[i] < limit
  }

  /** An index array whose elements all name one of limit records. */
  function ReadRecordArray(parts: seq<Part>, offset: nat, limit: nat): (r: Option<seq<nat>>)
    ensures r.Some? ==> Below(r.value, limit)
  {
    var a := ReadIndexArray(parts, offset);
    if a.Some? && AllBelow(a.value, limit) then a else None
  }

  // ----- tables

  /** Every record of the table in order, or nothing if one is refused. */
  function ParseRecords<T>(records: seq<seq<nat>>, n: nat, parse: (nat, seq<nat>) -> Option<T>): (r: Option<seq<T>>)
    requires n <= |records|
    ensures r.Some? ==> |r.value| == n && forall i :: 0 <= i < n ==> parse(i, records[i]) == Some(r.value[i])
  {
    if n == 0 then Some([])
    else
      var front := ParseRecords(records, n - 1, parse);
      var last := parse(n - 1, records[n - 1]);
      if front.Some? && last.Some? then Some(front.value + [last.value]) else None
  }

  /** The value is what some record parses to. */
  ghost predicate Produced<T>(parse: (nat, seq<nat>) -> Option<T>, i: nat, value: T) {
    exists rec :: parse(i, rec) == Some(value)
  }

  function ParseTable<T>(
    parts: seq<Part>, kind: nat, minStride: nat, parse: (nat, seq<nat>) -> Option<T>): (r: Option<seq<T>>)
    ensures r.Some? ==> forall i :: 0 <= i < |r.value| ==> Produced(parse, i, r.value[i])
  {
    var p := FindPart(parts, kind);
    if p.None? || p.value.records == [] then Some([])
    else if !p.value.isTable || p.value.stride < minStride then None
    else ParseRecords(p.value.records, |p.value.records|, parse)
  }

  /** The loop every table shares: check the stride, then append record after record. */
  method ReadTable<T>(
    parts: seq<Part>, kind: nat, minStride: nat, parse: (nat, seq<nat>) -> Option<T>)
    returns (r: Option<seq<T>>)
    ensures r == ParseTable(parts, kind, minStride, parse)
  {
    var p := FindPart(parts, kind);
    if p.None? || p.value.records == [] { return Some([]); }
    if !p.value.isTable || p.value.stride < minStride { return None; }
    var table, i := [], 0;
    ghost var records := p.value.records;
    while i < |p.value.records|
      invariant 0 <= i <= |records| && ParseRecords(records, i, parse) == Some(table)
    {
      var record := parse(i, p.value.records[i]);
      if record.None? {
        Refused(records, i, |records|, parse);
        return None;
      }
      table := table + [record.value];
      i := i + 1;
    }
    return Some(table);
  }

  lemma {:induction false} Refused<T>(records: seq<seq<nat>>, i: nat, n: nat, parse: (nat, seq<nat>) -> Option<T>)
    requires i < n <= |records| && parse(i, records[i]).None?
    ensures ParseRecords(records, n, parse) == None
    decreases n
  {
    if n - 1 > i { Refused(records, i, n - 1, parse); }
  }

  // ----- the records

  datatype Resource =
    Resource(cls: nat, kind: nat, id: nat, space: nat, lower: nat, upper: nat, name: Text, flags: nat)
  datatype Subobject = Subobject(kind: nat, name: Text, payload: Payload)
  datatype Payload =
    | StateObject(flags: nat)
    | RootSignature(bytes: seq<nat>)
    | Exports(associated: Text, exports: seq<Text>)
    | RaytracingShader(payloadSize: nat, attributeSize: nat)
    | RaytracingPipeline(depth: nat)
    | HitGroup(hitKind: nat, anyHit: Text, closestHit: Text, intersection: Text)
    | RaytracingPipeline1(depth: nat, pipelineFlags: nat)
    | NoPayload
  datatype NodeId = NodeId(name: Text, index: nat)
  /** A field is set for the kinds that have it. */
  datatype FuncAttrib = FuncAttrib(kind: nat, nodeId: Option<nat>, values: seq<nat>, value: Option<nat>)
  datatype IoAttrib = IoAttrib(kind: nat, nodeId: Option<nat>, grid: Option<Grid>, value: Option<nat>)
  datatype Grid = Grid(byteOffset: nat, components: nat, componentType: nat)
  datatype IoNode = IoNode(flags: nat, attribs: seq<nat>)
  datatype NodeShader = NodeShader(launch: nat, shared: nat, attribs: seq<nat>, outputs: seq<nat>, inputs: seq<nat>)
  datatype SignatureElement =
    SignatureElement(name: Text, indices: seq<nat>, kind: nat, component: nat, interpolation: nat, startRow: nat,
                     cols: nat, startCol: nat, stream: nat, usage: nat, dynamic: nat)
  /** The masks and numbers are those of the record's table, in the order they are stored. */
  datatype ShaderInfo =
    ShaderInfo(table: nat, index: nat, inputs: seq<nat>, outputs: seq<nat>, patch: seq<nat>, primitive: seq<nat>,
               masks: seq<seq<nat>>, threads: seq<nat>, numbers: seq<nat>)
  datatype FunctionRecord =
    FunctionRecord(name: Text, unmangled: Text, resources: seq<nat>, dependencies: seq<Text>, kind: nat,
                   numbers: seq<nat>, extra: Option<seq<nat>>, shader: Option<(nat, nat)>)
  datatype Source = Source(name: Text, content: Text)
  datatype Library = Library(name: Text, data: seq<nat>)
  datatype PdbInfo =
    PdbInfo(sources: seq<nat>, libraries: seq<nat>, args: seq<Text>, hash: seq<nat>, name: Text, toolchain: nat,
            toolchainData: seq<nat>, dxil: seq<nat>)

  datatype Tables =
    Tables(resources: seq<Resource>, subobjects: seq<Subobject>, nodeIds: seq<NodeId>, funcAttribs: seq<FuncAttrib>,
           ioAttribs: seq<IoAttrib>, ioNodes: seq<IoNode>, nodeShaders: seq<NodeShader>,
           signature: seq<SignatureElement>, shaders: seq<ShaderInfo>, functions: seq<FunctionRecord>,
           pdbSources: seq<Source>, pdbLibraries: seq<Library>, pdbs: seq<PdbInfo>)

  function ParseResource(parts: seq<Part>, r: seq<nat>): Option<Resource> {
    var name := ReadString(parts, Word(r, 6));
    if name.None? then None
    else
      Some(Resource(Word(r, 0), Word(r, 1), Word(r, 2), Word(r, 3), Word(r, 4), Word(r, 5), name.value, Word(r, 7)))
  }

  function ParseNodeId(parts: seq<Part>, r: seq<nat>): Option<NodeId> {
    var name := ReadString(parts, Word(r, 0));
    if name.None? then None else Some(NodeId(name.value, Word(r, 1)))
  }

  function ParseFuncAttrib(parts: seq<Part>, nodeIds: nat, r: seq<nat>): (o: Option<FuncAttrib>)
    ensures o.Some? && o.value.nodeId.Some? ==> o.value.nodeId.value < nodeIds
  {
    var kind, payload := Word(r, 0), Word(r, 1);
    if kind == 1 || kind == 3 then
      if payload >= nodeIds then None else Some(FuncAttrib(kind, Some(payload), [], None))
    else if kind == 2 || kind == 4 || kind == 7 then
      var values := ReadIndexArray(parts, payload);
      if values.None? then None else Some(FuncAttrib(kind, None, values.value, None))
    else if kind == 5 || kind == 6 || kind == 8 || kind == 9 then Some(FuncAttrib(kind, None, [], Some(payload)))
    else Some(FuncAttrib(kind, None, [], None))
  }

  function ParseIoAttrib(nodeIds: nat, r: seq<nat>): (o: Option<IoAttrib>)
    ensures o.Some? && o.value.nodeId.Some? ==> o.value.nodeId.value < nodeIds
  {
    var kind := Word(r, 0);
    if kind == 1 then
      if Word(r, 1) >= nodeIds then None else Some(IoAttrib(kind, Some(Word(r, 1)), None, None))
    else if kind == 5 then
      var component := Half(r, 6);
      Some(IoAttrib(kind, None, Some(Grid(Half(r, 4), component % 4, component / 4)), None))
    else if kind in {2, 3, 4, 6, 7, 8} then Some(IoAttrib(kind, None, None, Some(Word(r, 1))))
    else Some(IoAttrib(kind, None, None, None))
  }

  function ParseIoNode(parts: seq<Part>, ioAttribs: nat, r: seq<nat>): (o: Option<IoNode>)
    ensures o.Some? ==> Below(o.value.attribs, ioAttribs)
  {
    var a := ReadRecordArray(parts, Word(r, 1), ioAttribs);
    if a.None? then None else Some(IoNode(Word(r, 0), a.value))
  }

  function ParseNodeShader(parts: seq<Part>, funcAttribs: nat, ioNodes: nat, r: seq<nat>): (o: Option<NodeShader>)
    ensures o.Some? ==>
              && Below(o.value.attribs, funcAttribs)
              && Below(o.value.outputs, ioNodes) && Below(o.value.inputs, ioNodes)
  {
    var a := ReadRecordArray(parts, Word(r, 2), funcAttribs);
    var outs := ReadRecordArray(parts, Word(r, 3), ioNodes);
    var ins := ReadRecordArray(parts, Word(r, 4), ioNodes);
    if a.None? || outs.None? || ins.None? then None
    else Some(NodeShader(Word(r, 0), Word(r, 1), a.value, outs.value, ins.value))
  }

  function ParseSignatureElement(parts: seq<Part>, r: seq<nat>): Option<SignatureElement> {
    var name, indices := ReadString(parts, Word(r, 0)), ReadIndexArray(parts, Word(r, 1));
    var place, masks := Byte(r, 12), Byte(r, 13);
    if name.None? || indices.None? then None
    else Some(SignatureElement(name.value, indices.value, Byte(r, 8), Byte(r, 9), Byte(r, 10), Byte(r, 11),
                               place % 4 + 1, place / 4 % 4, place / 16 % 4, masks % 16, masks / 16 % 16))
  }

  /** A number in a record, by byte offset: one, two or four bytes wide. */
  datatype Number = B(at: nat) | H(at: nat) | W(at: nat)

  function ReadNumber(n: Number, r: seq<nat>): nat {
    match n case B(k) => Byte(r, k) case H(k) => Half(r, k) case W(k) => Word(r, k / 4)
  }

  function ReadNumbers(ns: seq<Number>, r: seq<nat>): seq<nat> {
    seq(|ns|, i requires 0 <= i < |ns| => ReadNumber(ns[i], r))
  }

  /** The signature arrays and byte masks of each shader-info table, by word offset: input, output,
      patch-constant and primitive signatures, the thread-count array and the masks; then its numbers. */
  datatype Layout =
    Layout(table: nat, size: nat, input: Option<nat>, output: Option<nat>, patch: Option<nat>,
           primitive: Option<nat>, threads: Option<nat>, masks: seq<nat>, numbers: seq<Number>)

  const LAYOUTS: seq<Layout> := [
    Layout(VS_TABLE, 16, Some(0), Some(1), None, None, None, [2], []),
    Layout(PS_TABLE, 8, Some(0), Some(1), None, None, None, [], []),
    Layout(HS_TABLE, 48, Some(0), Some(1), Some(2), None, None, [3, 5, 7, 9], [B(44), B(45), B(46), B(47)]),
    Layout(DS_TABLE, 38, Some(0), Some(1), Some(2), None, None, [3, 5, 7], [B(36), B(37)]),
    Layout(GS_TABLE, 28, Some(0), Some(1), None, None, None, [2, 4], [B(24), B(25), B(26), B(27)]),
    Layout(CS_TABLE, 8, None, None, None, None, Some(0), [], [W(4)]),
    Layout(MS_TABLE, 45, None, Some(0), None, Some(1), Some(6), [2, 4], [W(28), W(32), W(36), H(40), H(42), B(44)]),
    Layout(AS_TABLE, 12, None, None, None, None, Some(0), [], [W(4), W(8)])
  ]

  function SignatureArray(parts: seq<Part>, signature: nat, field: Option<nat>, r: seq<nat>): (o: Option<seq<nat>>)
    ensures o.Some? ==> Below(o.value, signature)
  {
    if field.None? then Some([]) else ReadRecordArray(parts, Word(r, field.value), signature)
  }

  function ReadMasks(parts: seq<Part>, masks: seq<nat>, r: seq<nat>): Option<seq<seq<nat>>> {
    if masks == [] then Some([])
    else
      var first, rest := ReadBytes(parts, Word(r, masks[0]), Word(r, masks[0] + 1)), ReadMasks(parts, masks[1..], r);
      if first.Some? && rest.Some? then Some([first.value] + rest.value) else None
  }

  /** Three thread counts, each one unless the array gives it. */
  function ReadThreads(parts: seq<Part>, field: Option<nat>, r: seq<nat>): Option<seq<nat>> {
    if field.None? then Some([1, 1, 1])
    else
      var v := ReadIndexArray(parts, Word(r, field.value));
      if v.None? then None
      else
        var n := v.value;
        Some([if |n| > 0 then n[0] else 1, if |n| > 1 then n[1] else 1, if |n| > 2 then n[2] else 1])
  }

  function ParseShaderInfo(parts: seq<Part>, signature: nat, l: Layout, i: nat, r: seq<nat>): (o: Option<ShaderInfo>)
    ensures o.Some? ==> o.value.table == l.table && o.value.index == i
    ensures o.Some? ==> SignaturesBelow(o.value, signature)
  {
    var ins := SignatureArray(parts, signature, l.input, r);
    var outs := SignatureArray(parts, signature, l.output, r);
    var patch := SignatureArray(parts, signature, l.patch, r);
    var primitive := SignatureArray(parts, signature, l.primitive, r);
    var masks, threads := ReadMasks(parts, l.masks, r), ReadThreads(parts, l.threads, r);
    if ins.None? || outs.None? || patch.None? || primitive.None? || masks.None? || threads.None? then None
    else Some(ShaderInfo(l.table, i, ins.value, outs.value, patch.value, primitive.value, masks.value, threads.value,
                         ReadNumbers(l.numbers, r)))
  }

  ghost predicate SignaturesBelow(s: ShaderInfo, limit: nat) {
    Below(s.inputs, limit) && Below(s.outputs, limit) && Below(s.patch, limit) && Below(s.primitive, limit)
  }

  function ShaderRule(parts: seq<Part>, signature: nat, l: Layout): (nat, seq<nat>) -> Option<ShaderInfo> {
    (i: nat, rec: seq<nat>) => ParseShaderInfo(parts, signature, l, i, rec)
  }

  function ShaderTable(parts: seq<Part>, signature: nat, l: Layout): (r: Option<seq<ShaderInfo>>)
    ensures r.Some? ==> forall i :: 0 <= i < |r.value| ==>
              r.value[i].table == l.table && r.value[i].index == i && SignaturesBelow(r.value[i], signature)
  {
    ParseTable(parts, l.table, l.size, ShaderRule(parts, signature, l))
  }

  /** The shader-info tables one after the other, appended to one list. */
  function ShaderTables(parts: seq<Part>, signature: nat, n: nat): (r: Option<seq<ShaderInfo>>)
    requires n <= |LAYOUTS|
    ensures r.Some? ==> forall i :: 0 <= i < |r.value| ==> SignaturesBelow(r.value[i], signature)
  {
    if n == 0 then Some([])
    else
      var front := ShaderTables(parts, signature, n - 1);
      var last := ShaderTable(parts, signature, LAYOUTS[n - 1]);
      if front.Some? && last.Some? then Some(front.value + last.value) else None
  }

  /** The table of the shader info a function of this kind points to. */
  function ShaderTableOf(kind: nat): Option<nat> {
    if kind == 0 then Some(PS_TABLE) else if kind == 1 then Some(VS_TABLE) else if kind == 2 then Some(GS_TABLE)
    else if kind == 3 then Some(HS_TABLE) else if kind == 4 then Some(DS_TABLE) else if kind == 5 then Some(CS_TABLE)
    else if kind == 13 then Some(MS_TABLE) else if kind == 14 then Some(AS_TABLE)
    else if kind == 15 then Some(NODE_SHADER_TABLE)
    else None
  }

  predicate HasShaderInfo(shaders: seq<ShaderInfo>, table: nat, index: nat) {
    exists i :: 0 <= i < |shaders| && shaders[i].table == table && shaders[i].index == index
  }

  predicate ShaderExists(nodeShaders: nat, shaders: seq<ShaderInfo>, ref: (nat, nat)) {
    if ref.0 == NODE_SHADER_TABLE then ref.1 < nodeShaders else HasShaderInfo(shaders, ref.0, ref.1)
  }

  function ParseFunction(
    parts: seq<Part>, stride: nat, resources: nat, nodeShaders: nat, shaders: seq<ShaderInfo>, r: seq<nat>)
    : (o: Option<FunctionRecord>)
    ensures o.Some? ==> Below(o.value.resources, resources)
    ensures o.Some? && o.value.shader.Some? ==> ShaderExists(nodeShaders, shaders, o.value.shader.value)
  {
    var table := if stride >= 52 then ShaderTableOf(Word(r, 4)) else None;
    var shader := if table.Some? && Word(r, 12) != NULL_REF then Some((table.value, Word(r, 12))) else None;
    var extra := if stride >= 52 then Some([Byte(r, 44), Byte(r, 45), Half(r, 46), Word(r, 12)]) else None;
    var name, unmangled := ReadString(parts, Word(r, 0)), ReadString(parts, Word(r, 1));
    var res, deps := ReadRecordArray(parts, Word(r, 2), resources), ReadStringArray(parts, Word(r, 3));
    if name.None? || unmangled.None? || res.None? || deps.None?
       || (shader.Some? && !ShaderExists(nodeShaders, shaders, shader.value))
    then None
    else
      Some(FunctionRecord(
             name.value, unmangled.value, res.value, deps.value, Word(r, 4),
             [Word(r, 5), Word(r, 6), Word(r, 7), Word(r, 8), Word(r, 9), Word(r, 10)], extra, shader))
  }

  function ParseSource(parts: seq<Part>, r: seq<nat>): Option<Source> {
    var name, content := ReadString(parts, Word(r, 0)), ReadString(parts, Word(r, 1));
    if name.None? || content.None? then None else Some(Source(name.value, content.value))
  }

  function ParseLibrary(parts: seq<Part>, r: seq<nat>): Option<Library> {
    var name, data := ReadString(parts, Word(r, 0)), ReadBytes(parts, Word(r, 1), Word(r, 2));
    if name.None? || data.None? then None else Some(Library(name.value, data.value))
  }

  function ParsePdb(parts: seq<Part>, sources: nat, libraries: nat, r: seq<nat>): (o: Option<PdbInfo>)
    ensures o.Some? ==> Below(o.value.sources, sources) && Below(o.value.libraries, libraries)
  {
    var ss := ReadRecordArray(parts, Word(r, 0), sources);
    var ls := ReadRecordArray(parts, Word(r, 1), libraries);
    var args, name := ReadStringArray(parts, Word(r, 2)), ReadString(parts, Word(r, 5));
    var hash := ReadBytes(parts, Word(r, 3), Word(r, 4));
    var data, dxil := ReadBytes(parts, Word(r, 7), Word(r, 8)), ReadBytes(parts, Word(r, 9), Word(r, 10));
    if ss.None? || ls.None? || args.None? || name.None? || hash.None? || data.None? || dxil.None? then None
    else Some(PdbInfo(ss.value, ls.value, args.value, hash.value, name.value, Word(r, 6), data.value, dxil.value))
  }

  function FunctionStride(parts: seq<Part>): nat {
    var p := FindPart(parts, FUNCTION_TABLE);
    if p.Some? then p.value.stride else 0
  }

  // ----- referential integrity

  /** Every stored index names a record of the table it refers to. */
  ghost predicate Intact(t: Tables) {
    && (forall i :: 0 <= i < |t.funcAttribs| && t.funcAttribs[i].nodeId.Some? ==>
          t.funcAttribs[i].nodeId.value < |t.nodeIds|)
    && (forall i :: 0 <= i < |t.ioAttribs| && t.ioAttribs[i].nodeId.Some? ==> t.ioAttribs[i].nodeId.value < |t.nodeIds|)
    && (forall i :: 0 <= i < |t.ioNodes| ==> Below(t.ioNodes[i].attribs, |t.ioAttribs|))
    && (forall i :: 0 <= i < |t.nodeShaders| ==>
          Below(t.nodeShaders[i].attribs, |t.funcAttribs|) && Below(t.nodeShaders[i].outputs, |t.ioNodes|)
          && Below(t.nodeShaders[i].inputs, |t.ioNodes|))
    && (forall i :: 0 <= i < |t.shaders| ==> SignaturesBelow(t.shaders[i], |t.signature|))
    && (forall i :: 0 <= i < |t.functions| ==> Below(t.functions[i].resources, |t.resources|))
    && (forall i :: 0 <= i < |t.functions| && t.functions[i].shader.Some? ==>
          ShaderExists(|t.nodeShaders|, t.shaders, t.functions[i].shader.value))
    && (forall i :: 0 <= i < |t.pdbs| ==>
          Below(t.pdbs[i].sources, |t.pdbSources|) && Below(t.pdbs[i].libraries, |t.pdbLibraries|))
  }

  function ParseSubobject(parts: seq<Part>, r: seq<nat>): Option<Subobject> {
    var name, payload := ReadString(parts, Word(r, 1)), ParsePayload(parts, Word(r, 0), r);
    if name.None? || payload.None? then None else Some(Subobject(Word(r, 0), name.value, payload.value))
  }

  function ParsePayload(parts: seq<Part>, kind: nat, r: seq<nat>): Option<Payload> {
    if kind == 0 then Some(StateObject(Word(r, 2)))
    else if kind == 1 || kind == 2 then
      var bytes := ReadBytes(parts, Word(r, 2), Word(r, 3));
      if bytes.None? then None else Some(RootSignature(bytes.value))
    else if kind == 8 then
      var associated, exports := ReadString(parts, Word(r, 2)), ReadStringArray(parts, Word(r, 3));
      if associated.None? || exports.None? then None else Some(Exports(associated.value, exports.value))
    else if kind == 9 then Some(RaytracingShader(Word(r, 2), Word(r, 3)))
    else if kind == 10 then Some(RaytracingPipeline(Word(r, 2)))
    else if kind == 11 then
      var anyHit, closestHit := ReadString(parts, Word(r, 3)), ReadString(parts, Word(r, 4));
      var intersection := ReadString(parts, Word(r, 5));
      if anyHit.None? || closestHit.None? || intersection.None? then None
      else Some(HitGroup(Word(r, 2), anyHit.value, closestHit.value, intersection.value))
    else if kind == 12 then Some(RaytracingPipeline1(Word(r, 2), Word(r, 3)))
    else Some(NoPayload)
  }

  // ----- the stages

  /** Each stage fills one table from the ones before it. */
  function ResourceRule(parts: seq<Part>): (nat, seq<nat>) -> Option<Resource> { (i, r) => ParseResource(parts, r) }
  function SubobjectRule(parts: seq<Part>): (nat, seq<nat>) -> Option<Subobject> { (i, r) => ParseSubobject(parts, r) }
  function NodeIdRule(parts: seq<Part>): (nat, seq<nat>) -> Option<NodeId> { (i, r) => ParseNodeId(parts, r) }
  function FuncAttribRule(parts: seq<Part>, nodeIds: nat): (nat, seq<nat>) -> Option<FuncAttrib> {
    (i, r) => ParseFuncAttrib(parts, nodeIds, r)
  }
  function IoAttribRule(nodeIds: nat): (nat, seq<nat>) -> Option<IoAttrib> { (i, r) => ParseIoAttrib(nodeIds, r) }
  function IoNodeRule(parts: seq<Part>, ioAttribs: nat): (nat, seq<nat>) -> Option<IoNode> {
    (i, r) => ParseIoNode(parts, ioAttribs, r)
  }
  function NodeShaderRule(parts: seq<Part>, funcAttribs: nat, ioNodes: nat): (nat, seq<nat>) -> Option<NodeShader> {
    (i, r) => ParseNodeShader(parts, funcAttribs, ioNodes, r)
  }
  function SignatureRule(parts: seq<Part>): (nat, seq<nat>) -> Option<SignatureElement>
  {
    (i, r) => ParseSignatureElement(parts, r)
  }
  function FunctionRule(
    parts: seq<Part>, resources: nat, nodeShaders: nat, shaders: seq<ShaderInfo>)
    : (nat, seq<nat>) -> Option<FunctionRecord>
  {
    (i, r) => ParseFunction(parts, FunctionStride(parts), resources, nodeShaders, shaders, r)
  }
  function SourceRule(parts: seq<Part>): (nat, seq<nat>) -> Option<Source> { (i, r) => ParseSource(parts, r) }
  function LibraryRule(parts: seq<Part>): (nat, seq<nat>) -> Option<Library> { (i, r) => ParseLibrary(parts, r) }
  function PdbRule(parts: seq<Part>, sources: nat, libraries: nat): (nat, seq<nat>) -> Option<PdbInfo> {
    (i, r) => ParsePdb(parts, sources, libraries, r)
  }

  const EMPTY := Tables([], [], [], [], [], [], [], [], [], [], [], [], [])

  const STAGES: nat := 13

  /** Stage k of the parse, in the source's order. */
  function Stage(parts: seq<Part>, t: Tables, k: nat): Option<Tables>
    requires k < STAGES
  {
    if k == 0 then Set(ParseTable(parts, RESOURCE_TABLE, 32, ResourceRule(parts)), v => t.(resources := v))
    else if k == 1 then Set(ParseTable(parts, SUBOBJECT_TABLE, 24, SubobjectRule(parts)), v => t.(subobjects := v))
    else if k == 2 then Set(ParseTable(parts, NODE_ID_TABLE, 8, NodeIdRule(parts)), v => t.(nodeIds := v))
    else if k == 3 then Set(ParseTable(parts, NODE_FUNC_ATTRIB_TABLE, 8, FuncAttribRule(parts, |t.nodeIds|)),
      v => t.(funcAttribs := v))
    else if k == 4 then
      Set(ParseTable(parts, NODE_IO_ATTRIB_TABLE, 8, IoAttribRule(|t.nodeIds|)), v => t.(ioAttribs := v))
    else if k == 5 then
      Set(ParseTable(parts, IO_NODE_TABLE, 8, IoNodeRule(parts, |t.ioAttribs|)), v => t.(ioNodes := v))
    else if k == 6 then
      Set(ParseTable(parts, NODE_SHADER_TABLE, 20, NodeShaderRule(parts, |t.funcAttribs|, |t.ioNodes|)),
          v => t.(nodeShaders := v))
    else if k == 7 then Set(ParseTable(parts, SIGNATURE_TABLE, 14, SignatureRule(parts)), v => t.(signature := v))
    else if k == 8 then Set(ShaderTables(parts, |t.signature|, |LAYOUTS|), v => t.(shaders := v))
    else if k == 9 then
      Set(ParseTable(parts, FUNCTION_TABLE, 44, FunctionRule(parts, |t.resources|, |t.nodeShaders|, t.shaders)),
          v => t.(functions := v))
    else if k == 10 then Set(ParseTable(parts, PDB_SOURCE_TABLE, 8, SourceRule(parts)), v => t.(pdbSources := v))
    else if k == 11 then Set(ParseTable(parts, PDB_LIBRARY_TABLE, 12, LibraryRule(parts)), v => t.(pdbLibraries := v))
    else Set(ParseTable(parts, PDB_TABLE, 44, PdbRule(parts, |t.pdbSources|, |t.pdbLibraries|)), v => t.(pdbs := v))
  }

  function Set<T>(r: Option<T>, put: T -> Tables): Option<Tables> { if r.Some? then Some(put(r.value)) else None }

  /** The tables after the first k stages. */
  function AfterStages(parts: seq<Part>, k: nat): Option<Tables>
    requires k <= STAGES
  {
    if k == 0 then Some(EMPTY)
    else
      var t := AfterStages(parts, k - 1);
      if t.None? then None else Stage(parts, t.value, k - 1)
  }

  // ----- why the order keeps references valid

  /** A stage only touches tables that nothing parsed so far refers to: the tables of later stages
      are still empty. */
  ghost predicate StillEmpty(t: Tables, k: nat) {
    && (k <= 2 ==> t.nodeIds == []) && (k <= 3 ==> t.funcAttribs == []) && (k <= 4 ==> t.ioAttribs == [])
    && (k <= 5 ==> t.ioNodes == []) && (k <= 6 ==> t.nodeShaders == []) && (k <= 7 ==> t.signature == [])
    && (k <= 8 ==> t.shaders == []) && (k <= 9 ==> t.functions == []) && (k <= 12 ==> t.pdbs == [])
  }

  lemma NodeStagesKeep(parts: seq<Part>, t: Tables, k: nat)
    requires k <= 6 && Intact(t) && StillEmpty(t, k) && Stage(parts, t, k).Some?
    ensures Intact(Stage(parts, t, k).value) && StillEmpty(Stage(parts, t, k).value, k + 1)
  {
    hide ParseTable, ShaderTables, Below, ShaderExists, SignaturesBelow;
    hide ParseFuncAttrib, ParseIoAttrib, ParseIoNode, ParseNodeShader;
  }

  lemma LateStagesKeep(parts: seq<Part>, t: Tables, k: nat)
    requires 7 <= k < STAGES && Intact(t) && StillEmpty(t, k) && Stage(parts, t, k).Some?
    ensures Intact(Stage(parts, t, k).value) && StillEmpty(Stage(parts, t, k).value, k + 1)
  {
    hide ParseTable, ShaderTables, Below, ShaderExists, SignaturesBelow, ParseFunction, ParsePdb;
  }

  lemma {:induction false} StagesIntact(parts: seq<Part>, k: nat)
    requires k <= STAGES && AfterStages(parts, k).Some?
    ensures Intact(AfterStages(parts, k).value) && StillEmpty(AfterStages(parts, k).value, k)
  {
    hide Stage, Intact, StillEmpty;
    if k == 0 {
      EmptyIntact();
    } else {
      StagesIntact(parts, k - 1);
      var t := AfterStages(parts, k - 1).value;
      if k - 1 <= 6 { NodeStagesKeep(parts, t, k - 1); } else { LateStagesKeep(parts, t, k - 1); }
    }
  }

  lemma EmptyIntact()
    ensures Intact(EMPTY) && StillEmpty(EMPTY, 0)
  {
  }
}
