/** What runtime data says, in the numbers of its format, and that the tables parsed are exactly these. */
module RdatFormat {
  import opened Options
  import opened Rdat

  // ----- the parts

  /** The first part of a kind, if there is one. */
  ghost predicate First(parts: seq<Part>, kind: nat, p: Option<Part>) {
    if p.None? then forall i :: 0 <= i < |parts| ==> parts[i].kind != kind
    else exists i :: FirstAt(parts, kind, i) && parts[i] == p.value
  }

  ghost predicate FirstAt(parts: seq<Part>, kind: nat, i: int) {
    0 <= i < |parts| && parts[i].kind == kind && forall j :: 0 <= j < i ==> parts[j].kind != kind
  }

  /** The parts records refer into, and the function table, whose stride says which fields there are. */
  datatype Heap = Heap(text: Option<Part>, indices: Option<Part>, raw: Option<Part>, functions: Option<Part>)

  ghost predicate HeapOf(parts: seq<Part>, h: Heap) {
    First(parts, 1, h.text) && First(parts, 2, h.indices) && First(parts, 5, h.raw) && First(parts, 4, h.functions)
  }

  /** A table's records are as long as its stride says. */
  ghost predicate RecordsFit(parts: seq<Part>) {
    forall i, k :: 0 <= i < |parts| && 0 <= k < |parts[i].records| ==> 4 * |parts[i].records[k]| >= parts[i].stride
  }

  // ----- what an offset refers to

  /** The characters stand at the offset and a zero ends them; no part is needed for the null offset. */
  ghost predicate TextAt(h: Heap, offset: nat, text: Text) {
    if offset == 0xffff_ffff then text == [] else h.text.Some? && TextStands(h.text.value.bytes, offset, text)
  }

  ghost predicate TextStands(bytes: seq<nat>, offset: nat, text: Text) {
    && offset + |text| < |bytes| && bytes[offset + |text|] == 0
    && forall k :: 0 <= k < |text| ==> text[k] == bytes[offset + k] && text[k] != 0
  }

  /** The list stands at the offset as its length and then its elements. The last word is never taken
      as a length. */
  ghost predicate ListAt(h: Heap, offset: nat, xs: seq<nat>) {
    if offset == 0xffff_ffff then xs == [] else h.indices.Some? && ListStands(h.indices.value.words, offset, xs)
  }

  ghost predicate ListStands(words: seq<nat>, offset: nat, xs: seq<nat>) {
    && offset + 1 < |words| && offset + 1 + |xs| <= |words| && words[offset] == |xs|
    && forall k :: 0 <= k < |xs| ==> xs[k] == words[offset + 1 + k]
  }

  /** A list of indices into a table of so many records. */
  ghost predicate IndicesAt(h: Heap, offset: nat, records: nat, xs: seq<nat>) {
    ListAt(h, offset, xs) && forall k :: 0 <= k < |xs| ==> xs[k] < records
  }

  ghost predicate TextsAt(h: Heap, offset: nat, texts: seq<Text>) {
    exists offsets :: ListAt(h, offset, offsets) && EachTextAt(h, offsets, texts)
  }

  ghost predicate EachTextAt(h: Heap, offsets: seq<nat>, texts: seq<Text>) {
    |offsets| == |texts| && forall i :: 0 <= i < |texts| ==> TextAt(h, offsets[i], texts[i])
  }

  ghost predicate BytesAt(h: Heap, offset: nat, size: nat, bytes: seq<nat>) {
    if size == 0 then bytes == []
    else
      && offset != 0xffff_ffff && h.raw.Some? && offset + size <= |h.raw.value.bytes|
      && bytes == h.raw.value.bytes[offset..offset + size]
  }

  // ----- the records, word by word

  ghost predicate ResourceRow(h: Heap, r: seq<nat>, x: Resource) {
    && |r| >= 8 && [x.cls, x.kind, x.id, x.space, x.lower, x.upper] == r[..6] && TextAt(h, r[6], x.name)
    && x.flags == r[7]
  }

  ghost predicate SubobjectRow(h: Heap, r: seq<nat>, x: Subobject) {
    && |r| >= 6 && x.kind == r[0] && TextAt(h, r[1], x.name)
    && (r[0] == 0 ==> x.payload == StateObject(r[2]))
    && (r[0] == 1 || r[0] == 2 ==> x.payload.RootSignature? && BytesAt(h, r[2], r[3], x.payload.bytes))
    && (r[0] == 8 ==>
          x.payload.Exports? && TextAt(h, r[2], x.payload.associated) && TextsAt(h, r[3], x.payload.exports))
    && (r[0] == 9 ==> x.payload == RaytracingShader(r[2], r[3]))
    && (r[0] == 10 ==> x.payload == RaytracingPipeline(r[2]))
    && (r[0] == 11 ==>
          x.payload.HitGroup? && x.payload.hitKind == r[2] && TextAt(h, r[3], x.payload.anyHit)
          && TextAt(h, r[4], x.payload.closestHit) && TextAt(h, r[5], x.payload.intersection))
    && (r[0] == 12 ==> x.payload == RaytracingPipeline1(r[2], r[3]))
    && (3 <= r[0] <= 7 || r[0] > 12 ==> x.payload == NoPayload)
  }

  ghost predicate NodeIdRow(h: Heap, r: seq<nat>, x: NodeId) {
    |r| >= 2 && TextAt(h, r[0], x.name) && x.index == r[1]
  }

  ghost predicate FuncAttribRow(h: Heap, nodeIds: nat, r: seq<nat>, x: FuncAttrib) {
    && |r| >= 2 && x.kind == r[0]
    && (r[0] == 1 || r[0] == 3 ==> r[1] < nodeIds && x.nodeId == Some(r[1]) && x.values == [] && x.value == None)
    && (r[0] == 2 || r[0] == 4 || r[0] == 7 ==> x.nodeId == None && ListAt(h, r[1], x.values) && x.value == None)
    && (r[0] == 5 || r[0] == 6 || r[0] == 8 || r[0] == 9 ==>
          x.nodeId == None && x.values == [] && x.value == Some(r[1]))
    && (r[0] == 0 || r[0] > 9 ==> x.nodeId == None && x.values == [] && x.value == None)
  }

  ghost predicate IoAttribRow(nodeIds: nat, r: seq<nat>, x: IoAttrib) {
    && |r| >= 2 && x.kind == r[0]
    && (r[0] == 1 ==> r[1] < nodeIds && x.nodeId == Some(r[1])) && (r[0] != 1 ==> x.nodeId == None)
    && (r[0] == 5 ==> x.grid == Some(Grid(r[1] % 0x1_0000, r[1] / 0x1_0000 % 4, r[1] / 0x1_0000 % 0x1_0000 / 4)))
    && (r[0] != 5 ==> x.grid == None)
    && (2 <= r[0] <= 8 && r[0] != 5 ==> x.value == Some(r[1]))
    && (r[0] < 2 || r[0] == 5 || r[0] > 8 ==> x.value == None)
  }

  ghost predicate IoNodeRow(h: Heap, ioAttribs: nat, r: seq<nat>, x: IoNode) {
    |r| >= 2 && x.flags == r[0] && IndicesAt(h, r[1], ioAttribs, x.attribs)
  }

  ghost predicate NodeShaderRow(h: Heap, funcAttribs: nat, ioNodes: nat, r: seq<nat>, x: NodeShader) {
    && |r| >= 5 && x.launch == r[0] && x.shared == r[1] && IndicesAt(h, r[2], funcAttribs, x.attribs)
    && IndicesAt(h, r[3], ioNodes, x.outputs) && IndicesAt(h, r[4], ioNodes, x.inputs)
  }

  ghost predicate SignatureRow(h: Heap, r: seq<nat>, x: SignatureElement) {
    && |r| >= 4 && TextAt(h, r[0], x.name) && ListAt(h, r[1], x.indices)
    && x.kind == r[2] % 0x100 && x.component == r[2] / 0x100 % 0x100
    && x.interpolation == r[2] / 0x1_0000 % 0x100 && x.startRow == r[2] / 0x100_0000 % 0x100
    && x.cols == r[3] % 4 + 1 && x.startCol == r[3] % 0x100 / 4 % 4 && x.stream == r[3] % 0x100 / 16 % 4
    && x.usage == r[3] / 0x100 % 0x100 % 16 && x.dynamic == r[3] / 0x100 % 0x100 / 16 % 16
  }

  ghost predicate SourceRow(h: Heap, r: seq<nat>, x: Source) {
    |r| >= 2 && TextAt(h, r[0], x.name) && TextAt(h, r[1], x.content)
  }

  ghost predicate LibraryRow(h: Heap, r: seq<nat>, x: Library) {
    |r| >= 3 && TextAt(h, r[0], x.name) && BytesAt(h, r[1], r[2], x.data)
  }

  ghost predicate PdbRow(h: Heap, sources: nat, libraries: nat, r: seq<nat>, x: PdbInfo) {
    && |r| >= 11 && IndicesAt(h, r[0], sources, x.sources) && IndicesAt(h, r[1], libraries, x.libraries)
    && TextsAt(h, r[2], x.args) && BytesAt(h, r[3], r[4], x.hash) && TextAt(h, r[5], x.name) && x.toolchain == r[6]
    && BytesAt(h, r[7], r[8], x.toolchainData) && BytesAt(h, r[9], r[10], x.dxil)
  }

  // ----- shader infos

  /** The four signatures; a table without one of them leaves it empty. */
  ghost predicate Signed(h: Heap, n: nat, ins: nat, outs: nat, patch: nat, primitive: nat, x: ShaderInfo) {
    && IndicesAt(h, ins, n, x.inputs) && IndicesAt(h, outs, n, x.outputs) && IndicesAt(h, patch, n, x.patch)
    && IndicesAt(h, primitive, n, x.primitive)
  }

  /** One to three thread counts; those the list lacks are one. */
  ghost predicate ThreadsAt(h: Heap, offset: nat, threads: seq<nat>) {
    exists n :: ListAt(h, offset, n) && Threads(n, threads)
  }

  ghost predicate Threads(n: seq<nat>, threads: seq<nat>) {
    |threads| == 3 && forall k :: 0 <= k < 3 ==> threads[k] == if k < |n| then n[k] else 1
  }

  ghost predicate VertexRow(h: Heap, n: nat, r: seq<nat>, x: ShaderInfo) {
    && |r| >= 4 && x.table == 14 && Signed(h, n, r[0], r[1], 0xffff_ffff, 0xffff_ffff, x)
    && |x.masks| == 1 && BytesAt(h, r[2], r[3], x.masks[0]) && x.threads == [1, 1, 1] && x.numbers == []
  }

  ghost predicate PixelRow(h: Heap, n: nat, r: seq<nat>, x: ShaderInfo) {
    && |r| >= 2 && x.table == 15 && Signed(h, n, r[0], r[1], 0xffff_ffff, 0xffff_ffff, x)
    && x.masks == [] && x.threads == [1, 1, 1] && x.numbers == []
  }

  ghost predicate HullRow(h: Heap, n: nat, r: seq<nat>, x: ShaderInfo) {
    && |r| >= 12 && x.table == 16 && Signed(h, n, r[0], r[1], r[2], 0xffff_ffff, x)
    && |x.masks| == 4 && BytesAt(h, r[3], r[4], x.masks[0]) && BytesAt(h, r[5], r[6], x.masks[1])
    && BytesAt(h, r[7], r[8], x.masks[2]) && BytesAt(h, r[9], r[10], x.masks[3]) && x.threads == [1, 1, 1]
    && x.numbers == [r[11] % 0x100, r[11] / 0x100 % 0x100, r[11] / 0x1_0000 % 0x100, r[11] / 0x100_0000 % 0x100]
  }

  ghost predicate DomainRow(h: Heap, n: nat, r: seq<nat>, x: ShaderInfo) {
    && |r| >= 10 && x.table == 17 && Signed(h, n, r[0], r[1], r[2], 0xffff_ffff, x)
    && |x.masks| == 3 && BytesAt(h, r[3], r[4], x.masks[0]) && BytesAt(h, r[5], r[6], x.masks[1])
    && BytesAt(h, r[7], r[8], x.masks[2]) && x.threads == [1, 1, 1]
    && x.numbers == [r[9] % 0x100, r[9] / 0x100 % 0x100]
  }

  ghost predicate GeometryRow(h: Heap, n: nat, r: seq<nat>, x: ShaderInfo) {
    && |r| >= 7 && x.table == 18 && Signed(h, n, r[0], r[1], 0xffff_ffff, 0xffff_ffff, x)
    && |x.masks| == 2 && BytesAt(h, r[2], r[3], x.masks[0]) && BytesAt(h, r[4], r[5], x.masks[1])
    && x.threads == [1, 1, 1]
    && x.numbers == [r[6] % 0x100, r[6] / 0x100 % 0x100, r[6] / 0x1_0000 % 0x100, r[6] / 0x100_0000 % 0x100]
  }

  ghost predicate ComputeRow(h: Heap, n: nat, r: seq<nat>, x: ShaderInfo) {
    && |r| >= 2 && x.table == 19 && Signed(h, n, 0xffff_ffff, 0xffff_ffff, 0xffff_ffff, 0xffff_ffff, x)
    && x.masks == [] && ThreadsAt(h, r[0], x.threads) && x.numbers == [r[1]]
  }

  ghost predicate MeshRow(h: Heap, n: nat, r: seq<nat>, x: ShaderInfo) {
    && |r| >= 12 && x.table == 20 && Signed(h, n, 0xffff_ffff, r[0], 0xffff_ffff, r[1], x)
    && |x.masks| == 2 && BytesAt(h, r[2], r[3], x.masks[0]) && BytesAt(h, r[4], r[5], x.masks[1])
    && ThreadsAt(h, r[6], x.threads)
    && x.numbers == [r[7], r[8], r[9], r[10] % 0x1_0000, r[10] / 0x1_0000 % 0x1_0000, r[11] % 0x100]
  }

  ghost predicate AmplificationRow(h: Heap, n: nat, r: seq<nat>, x: ShaderInfo) {
    && |r| >= 3 && x.table == 21 && Signed(h, n, 0xffff_ffff, 0xffff_ffff, 0xffff_ffff, 0xffff_ffff, x)
    && x.masks == [] && ThreadsAt(h, r[0], x.threads) && x.numbers == [r[1], r[2]]
  }

  /** A record of shader-info table k of eight. */
  ghost predicate ShaderRow(h: Heap, n: nat, k: nat, i: nat, r: seq<nat>, x: ShaderInfo) {
    && x.index == i
    && (k == 0 ==> VertexRow(h, n, r, x)) && (k == 1 ==> PixelRow(h, n, r, x)) && (k == 2 ==> HullRow(h, n, r, x))
    && (k == 3 ==> DomainRow(h, n, r, x)) && (k == 4 ==> GeometryRow(h, n, r, x))
    && (k == 5 ==> ComputeRow(h, n, r, x)) && (k == 6 ==> MeshRow(h, n, r, x))
    && (k == 7 ==> AmplificationRow(h, n, r, x))
  }

  // ----- functions

  /** The table that holds the infos of a shader of this kind. */
  ghost predicate InfoTable(kind: nat, table: nat) {
    || (kind == 0 && table == 15) || (kind == 1 && table == 14) || (kind == 2 && table == 18)
    || (kind == 3 && table == 16) || (kind == 4 && table == 17) || (kind == 5 && table == 19)
    || (kind == 13 && table == 20) || (kind == 14 && table == 21) || (kind == 15 && table == 11)
  }

  /** The info a function names: the kind's table and the last word of the longer record. */
  ghost predicate Names(long: bool, r: seq<nat>, shader: Option<(nat, nat)>)
    requires |r| >= if long then 13 else 11
  {
    if shader.Some? then long && InfoTable(r[4], shader.value.0) && shader.value.1 == r[12] && r[12] != 0xffff_ffff
    else long ==> r[12] == 0xffff_ffff || !(r[4] <= 5 || 13 <= r[4] <= 15)
  }

  /** It exists: a node shader by index, any other by its table and index. */
  ghost predicate Exists(nodeShaders: nat, shaders: seq<ShaderInfo>, shader: (nat, nat)) {
    if shader.0 == 11 then shader.1 < nodeShaders
    else exists i :: 0 <= i < |shaders| && shaders[i].table == shader.0 && shaders[i].index == shader.1
  }

  ghost predicate Long(h: Heap) { h.functions.Some? && h.functions.value.stride >= 52 }

  ghost predicate FunctionRow(
    h: Heap, resources: nat, nodeShaders: nat, shaders: seq<ShaderInfo>, r: seq<nat>, x: FunctionRecord)
  {
    && |r| >= (if Long(h) then 13 else 11)
    && TextAt(h, r[0], x.name) && TextAt(h, r[1], x.unmangled) && IndicesAt(h, r[2], resources, x.resources)
    && TextsAt(h, r[3], x.dependencies) && x.kind == r[4] && x.numbers == r[5..11]
    && (Long(h) ==> x.extra == Some([r[11] % 0x100, r[11] / 0x100 % 0x100, r[11] / 0x1_0000 % 0x1_0000, r[12]]))
    && (!Long(h) ==> x.extra == None)
    && Names(Long(h), r, x.shader) && (x.shader.Some? ==> Exists(nodeShaders, shaders, x.shader.value))
  }

  // ----- the tables

  ghost function ResourceRows(h: Heap): (nat, seq<nat>, Resource) -> bool { (i, r, x) => ResourceRow(h, r, x) }
  ghost function SubobjectRows(h: Heap): (nat, seq<nat>, Subobject) -> bool { (i, r, x) => SubobjectRow(h, r, x) }
  ghost function NodeIdRows(h: Heap): (nat, seq<nat>, NodeId) -> bool { (i, r, x) => NodeIdRow(h, r, x) }
  ghost function FuncAttribRows(h: Heap, nodeIds: nat): (nat, seq<nat>, FuncAttrib) -> bool {
    (i, r, x) => FuncAttribRow(h, nodeIds, r, x)
  }
  ghost function IoAttribRows(nodeIds: nat): (nat, seq<nat>, IoAttrib) -> bool {
    (i, r, x) => IoAttribRow(nodeIds, r, x)
  }
  ghost function IoNodeRows(h: Heap, ioAttribs: nat): (nat, seq<nat>, IoNode) -> bool {
    (i, r, x) => IoNodeRow(h, ioAttribs, r, x)
  }
  ghost function NodeShaderRows(h: Heap, funcAttribs: nat, ioNodes: nat): (nat, seq<nat>, NodeShader) -> bool {
    (i, r, x) => NodeShaderRow(h, funcAttribs, ioNodes, r, x)
  }
  ghost function SignatureRows(h: Heap): (nat, seq<nat>, SignatureElement) -> bool {
    (i, r, x) => SignatureRow(h, r, x)
  }
  ghost function ShaderRows(h: Heap, n: nat, k: nat): (nat, seq<nat>, ShaderInfo) -> bool {
    (i: nat, r, x) => ShaderRow(h, n, k, i, r, x)
  }
  ghost function FunctionRows(
    h: Heap, resources: nat, nodeShaders: nat, shaders: seq<ShaderInfo>): (nat, seq<nat>, FunctionRecord) -> bool
  {
    (i, r, x) => FunctionRow(h, resources, nodeShaders, shaders, r, x)
  }
  ghost function SourceRows(h: Heap): (nat, seq<nat>, Source) -> bool { (i, r, x) => SourceRow(h, r, x) }
  ghost function LibraryRows(h: Heap): (nat, seq<nat>, Library) -> bool { (i, r, x) => LibraryRow(h, r, x) }
  ghost function PdbRows(h: Heap, sources: nat, libraries: nat): (nat, seq<nat>, PdbInfo) -> bool {
    (i, r, x) => PdbRow(h, sources, libraries, r, x)
  }

  /** The table is the first part of its kind, record by record in order. No such part, or one without
      records, stands for an empty table; otherwise its records must be long enough. */
  ghost predicate TableHolds<T(!new)>(
    parts: seq<Part>, kind: nat, size: nat, row: (nat, seq<nat>, T) -> bool, xs: seq<T>)
  {
    exists p: Option<Part> :: First(parts, kind, p) && PartHolds(p, size, row, xs)
  }

  ghost predicate PartHolds<T(!new)>(p: Option<Part>, size: nat, row: (nat, seq<nat>, T) -> bool, xs: seq<T>) {
    if p.None? || p.value.records == [] then xs == []
    else
      && p.value.isTable && p.value.stride >= size && |xs| == |p.value.records|
      && forall i :: 0 <= i < |xs| ==> row(i, p.value.records[i], xs[i])
  }

  /** Number and least record size of the eight shader-info tables. */
  ghost function ShaderKind(k: nat): nat { 14 + k }
  ghost function ShaderSize(k: nat): nat {
    if k == 0 then 16 else if k == 1 then 8 else if k == 2 then 48 else if k == 3 then 38 else if k == 4 then 28
    else if k == 5 then 8 else if k == 6 then 45 else 12
  }

  /** The first k shader-info tables one after the other. */
  ghost predicate ShadersHold(parts: seq<Part>, h: Heap, n: nat, k: nat, xs: seq<ShaderInfo>) {
    if k == 0 then xs == []
    else
      exists cut :: 0 <= cut <= |xs| && ShadersHold(parts, h, n, k - 1, xs[..cut])
                    && TableHolds(parts, ShaderKind(k - 1), ShaderSize(k - 1), ShaderRows(h, n, k - 1), xs[cut..])
  }

  /** Table j of the thirteen, in the order they are parsed. */
  ghost predicate Says(parts: seq<Part>, h: Heap, t: Tables, j: nat) {
    if j == 0 then TableHolds(parts, 3, 32, ResourceRows(h), t.resources)
    else if j == 1 then TableHolds(parts, 6, 24, SubobjectRows(h), t.subobjects)
    else if j == 2 then TableHolds(parts, 7, 8, NodeIdRows(h), t.nodeIds)
    else if j == 3 then TableHolds(parts, 9, 8, FuncAttribRows(h, |t.nodeIds|), t.funcAttribs)
    else if j == 4 then TableHolds(parts, 8, 8, IoAttribRows(|t.nodeIds|), t.ioAttribs)
    else if j == 5 then TableHolds(parts, 10, 8, IoNodeRows(h, |t.ioAttribs|), t.ioNodes)
    else if j == 6 then TableHolds(parts, 11, 20, NodeShaderRows(h, |t.funcAttribs|, |t.ioNodes|), t.nodeShaders)
    else if j == 7 then TableHolds(parts, 13, 14, SignatureRows(h), t.signature)
    else if j == 8 then ShadersHold(parts, h, |t.signature|, 8, t.shaders)
    else if j == 9 then
      TableHolds(parts, 4, 44, FunctionRows(h, |t.resources|, |t.nodeShaders|, t.shaders), t.functions)
    else if j == 10 then TableHolds(parts, 0x10002, 8, SourceRows(h), t.pdbSources)
    else if j == 11 then TableHolds(parts, 0x10003, 12, LibraryRows(h), t.pdbLibraries)
    else TableHolds(parts, 0x10001, 44, PdbRows(h, |t.pdbSources|, |t.pdbLibraries|), t.pdbs)
  }

  /** The parts say these thirteen tables. */
  ghost predicate Describes(parts: seq<Part>, t: Tables) {
    exists h :: HeapOf(parts, h) && forall j :: 0 <= j < 13 ==> Says(parts, h, t, j)
  }

  // ----- what is read at an offset

  lemma {:induction false} FirstExact(parts: seq<Part>, kind: nat, p: Option<Part>)
    ensures FindPart(parts, kind) == p <==> First(parts, kind, p)
    decreases |parts|
  {
    if parts != [] && parts[0].kind != kind {
      var rest := parts[1..];
      FirstExact(rest, kind, p);
      if First(rest, kind, p) && p.Some? {
        var i :| FirstAt(rest, kind, i) && rest[i] == p.value;
        assert FirstAt(parts, kind, i + 1);
      }
      if First(parts, kind, p) {
        if p.Some? {
          var i :| FirstAt(parts, kind, i) && parts[i] == p.value;
          assert FirstAt(rest, kind, i - 1) by {
            forall j | 0 <= j < i - 1 ensures rest[j].kind != kind { assert rest[j] == parts[j + 1]; }
          }
        } else {
          forall j | 0 <= j < |rest| ensures rest[j].kind != kind { assert rest[j] == parts[j + 1]; }
        }
      }
    } else if parts != [] {
      assert FirstAt(parts, kind, 0);
    }
  }

  lemma {:induction false} TextStandsExact(bytes: seq<nat>, offset: nat, text: Text)
    ensures ReadText(bytes, offset) == Some(text) <==> TextStands(bytes, offset, text)
    decreases |bytes| - offset
  {
    if offset < |bytes| && bytes[offset] != 0 && text != [] {
      TextStandsExact(bytes, offset + 1, text[1..]);
      assert text == [text[0]] + text[1..];
      if TextStands(bytes, offset + 1, text[1..]) && text[0] == bytes[offset] {
        forall k | 0 <= k < |text| ensures text[k] == bytes[offset + k] && text[k] != 0 {
          if k > 0 { assert text[k] == text[1..][k - 1]; }
        }
      }
      if TextStands(bytes, offset, text) {
        forall k | 0 <= k < |text[1..]| ensures text[1..][k] == bytes[offset + 1 + k] && text[1..][k] != 0 {
          assert text[1..][k] == text[k + 1];
        }
      }
    } else if text != [] {
      var first := text[0];
      assert first == text[0];
    }
  }

  /** A string is read as the characters that stand at its offset, and refused when none do. */
  lemma TextExact(parts: seq<Part>, h: Heap, offset: nat, text: Text)
    requires HeapOf(parts, h)
    ensures ReadString(parts, offset) == Some(text) <==> TextAt(h, offset, text)
  {
    FirstExact(parts, 1, h.text);
    if h.text.Some? { TextStandsExact(h.text.value.bytes, offset, text); }
  }

  /** A list is read as what stands at its offset after its length, and refused when nothing does. */
  lemma ListExact(parts: seq<Part>, h: Heap, offset: nat, xs: seq<nat>)
    requires HeapOf(parts, h)
    ensures ReadIndexArray(parts, offset) == Some(xs) <==> ListAt(h, offset, xs)
  {
    FirstExact(parts, 2, h.indices);
    if offset != 0xffff_ffff && h.indices.Some? {
      var words := h.indices.value.words;
      if ListStands(words, offset, xs) { assert words[offset + 1..offset + 1 + |xs|] == xs; }
    }
  }

  /** A list is refused exactly when it is not the null offset and there is no part, the offset is not
      before the last word, or the length goes past the end. */
  lemma ListRefused(parts: seq<Part>, h: Heap, offset: nat)
    requires HeapOf(parts, h)
    ensures ReadIndexArray(parts, offset).None? <==>
              && offset != 0xffff_ffff
              && (h.indices.None? || var w := h.indices.value.words;
                  offset + 1 >= |w| || offset + 1 + w[offset] > |w|)
  {
    FirstExact(parts, 2, h.indices);
  }

  /** A written list is read back, unless it is the empty list on the very last word: that is refused. */
  lemma ListReadBack(front: seq<nat>, xs: seq<nat>, back: seq<nat>, part: Part)
    requires |front| != 0xffff_ffff && part.kind == 2 && part.words == front + [|xs|] + xs + back
    ensures ReadIndexArray([part], |front|) == (if xs != [] || back != [] then Some(xs) else None)
  {
    var words := part.words;
    assert words[|front|] == |xs|;
    assert words[|front| + 1..|front| + 1 + |xs|] == xs;
  }

  lemma IndicesExact(parts: seq<Part>, h: Heap, offset: nat, records: nat, xs: seq<nat>)
    requires HeapOf(parts, h)
    ensures ReadRecordArray(parts, offset, records) == Some(xs) <==> IndicesAt(h, offset, records, xs)
  {
    hide ReadIndexArray, ListAt;
    ListExact(parts, h, offset, xs);
  }

  lemma {:induction false} EachTextExact(parts: seq<Part>, h: Heap, offsets: seq<nat>, texts: seq<Text>)
    requires HeapOf(parts, h)
    ensures ReadStrings(parts, offsets) == Some(texts) <==> EachTextAt(h, offsets, texts)
    decreases |offsets|
  {
    hide ReadString, TextAt, HeapOf;
    if offsets != [] && texts != [] {
      TextExact(parts, h, offsets[0], texts[0]);
      EachTextExact(parts, h, offsets[1..], texts[1..]);
      assert texts == [texts[0]] + texts[1..];
      if TextAt(h, offsets[0], texts[0]) && EachTextAt(h, offsets[1..], texts[1..]) {
        forall i | 0 <= i < |texts| ensures TextAt(h, offsets[i], texts[i]) {
          if i > 0 { assert offsets[i] == offsets[1..][i - 1] && texts[i] == texts[1..][i - 1]; }
        }
      }
    }
  }

  lemma TextsExact(parts: seq<Part>, h: Heap, offset: nat, texts: seq<Text>)
    requires HeapOf(parts, h)
    ensures ReadStringArray(parts, offset) == Some(texts) <==> TextsAt(h, offset, texts)
  {
    hide ReadIndexArray, ReadStrings, ListAt, EachTextAt, HeapOf;
    var read := ReadIndexArray(parts, offset);
    if read.Some? {
      ListExact(parts, h, offset, read.value);
      EachTextExact(parts, h, read.value, texts);
    }
    if TextsAt(h, offset, texts) {
      var offsets :| ListAt(h, offset, offsets) && EachTextAt(h, offsets, texts);
      ListExact(parts, h, offset, offsets);
    }
  }

  lemma BytesExact(parts: seq<Part>, h: Heap, offset: nat, size: nat, bytes: seq<nat>)
    requires HeapOf(parts, h)
    ensures ReadBytes(parts, offset, size) == Some(bytes) <==> BytesAt(h, offset, size, bytes)
  {
    FirstExact(parts, 5, h.raw);
  }

  // ----- each record is read as what its words say

  lemma ResourceExact(parts: seq<Part>, h: Heap, r: seq<nat>, x: Resource)
    requires HeapOf(parts, h) && |r| >= 8
    ensures ParseResource(parts, r) == Some(x) <==> ResourceRow(h, r, x)
  {
    hide ReadString, TextAt, HeapOf;
    TextExact(parts, h, r[6], x.name);
  }

  lemma SubobjectExact(parts: seq<Part>, h: Heap, r: seq<nat>, x: Subobject)
    requires HeapOf(parts, h) && |r| >= 6
    ensures ParseSubobject(parts, r) == Some(x) <==> SubobjectRow(h, r, x)
  {
    hide ReadString, ReadStringArray, ReadBytes, TextAt, TextsAt, BytesAt, HeapOf;
    TextExact(parts, h, r[1], x.name);
    match x.payload
    case RootSignature(bytes) => BytesExact(parts, h, r[2], r[3], bytes);
    case Exports(associated, exports) =>
      TextExact(parts, h, r[2], associated);
      TextsExact(parts, h, r[3], exports);
    case HitGroup(_, anyHit, closestHit, intersection) =>
      TextExact(parts, h, r[3], anyHit);
      TextExact(parts, h, r[4], closestHit);
      TextExact(parts, h, r[5], intersection);
    case _ =>
  }

  lemma NodeIdExact(parts: seq<Part>, h: Heap, r: seq<nat>, x: NodeId)
    requires HeapOf(parts, h) && |r| >= 2
    ensures ParseNodeId(parts, r) == Some(x) <==> NodeIdRow(h, r, x)
  {
    hide ReadString, TextAt, HeapOf;
    TextExact(parts, h, r[0], x.name);
  }

  lemma FuncAttribExact(parts: seq<Part>, h: Heap, nodeIds: nat, r: seq<nat>, x: FuncAttrib)
    requires HeapOf(parts, h) && |r| >= 2
    ensures ParseFuncAttrib(parts, nodeIds, r) == Some(x) <==> FuncAttribRow(h, nodeIds, r, x)
  {
    hide ReadIndexArray, ListAt, HeapOf;
    ListExact(parts, h, r[1], x.values);
  }

  lemma IoAttribExact(nodeIds: nat, r: seq<nat>, x: IoAttrib)
    requires |r| >= 2
    ensures ParseIoAttrib(nodeIds, r) == Some(x) <==> IoAttribRow(nodeIds, r, x)
  {
  }

  lemma IoNodeExact(parts: seq<Part>, h: Heap, ioAttribs: nat, r: seq<nat>, x: IoNode)
    requires HeapOf(parts, h) && |r| >= 2
    ensures ParseIoNode(parts, ioAttribs, r) == Some(x) <==> IoNodeRow(h, ioAttribs, r, x)
  {
    hide ReadRecordArray, IndicesAt, HeapOf;
    IndicesExact(parts, h, r[1], ioAttribs, x.attribs);
  }

  lemma NodeShaderExact(parts: seq<Part>, h: Heap, funcAttribs: nat, ioNodes: nat, r: seq<nat>, x: NodeShader)
    requires HeapOf(parts, h) && |r| >= 5
    ensures ParseNodeShader(parts, funcAttribs, ioNodes, r) == Some(x)
       <==> NodeShaderRow(h, funcAttribs, ioNodes, r, x)
  {
    hide ReadRecordArray, IndicesAt, HeapOf;
    IndicesExact(parts, h, r[2], funcAttribs, x.attribs);
    IndicesExact(parts, h, r[3], ioNodes, x.outputs);
    IndicesExact(parts, h, r[4], ioNodes, x.inputs);
  }

  lemma SignatureExact(parts: seq<Part>, h: Heap, r: seq<nat>, x: SignatureElement)
    requires HeapOf(parts, h) && |r| >= 4
    ensures ParseSignatureElement(parts, r) == Some(x) <==> SignatureRow(h, r, x)
  {
    hide ReadString, ReadIndexArray, TextAt, ListAt, HeapOf;
    TextExact(parts, h, r[0], x.name);
    ListExact(parts, h, r[1], x.indices);
    FirstTwoBits(r[3]);
  }

  lemma FirstTwoBits(w: nat)
    ensures w % 0x100 % 4 == w % 4
  {
  }

  lemma SourceExact(parts: seq<Part>, h: Heap, r: seq<nat>, x: Source)
    requires HeapOf(parts, h) && |r| >= 2
    ensures ParseSource(parts, r) == Some(x) <==> SourceRow(h, r, x)
  {
    hide ReadString, TextAt, HeapOf;
    TextExact(parts, h, r[0], x.name);
    TextExact(parts, h, r[1], x.content);
  }

  lemma LibraryExact(parts: seq<Part>, h: Heap, r: seq<nat>, x: Library)
    requires HeapOf(parts, h) && |r| >= 3
    ensures ParseLibrary(parts, r) == Some(x) <==> LibraryRow(h, r, x)
  {
    hide ReadString, ReadBytes, TextAt, BytesAt, HeapOf;
    TextExact(parts, h, r[0], x.name);
    BytesExact(parts, h, r[1], r[2], x.data);
  }

  lemma PdbExact(parts: seq<Part>, h: Heap, sources: nat, libraries: nat, r: seq<nat>, x: PdbInfo)
    requires HeapOf(parts, h) && |r| >= 11
    ensures ParsePdb(parts, sources, libraries, r) == Some(x) <==> PdbRow(h, sources, libraries, r, x)
  {
    hide ReadString, ReadStringArray, ReadRecordArray, ReadBytes, TextAt, TextsAt, IndicesAt, BytesAt, HeapOf;
    IndicesExact(parts, h, r[0], sources, x.sources);
    IndicesExact(parts, h, r[1], libraries, x.libraries);
    TextsExact(parts, h, r[2], x.args);
    BytesExact(parts, h, r[3], r[4], x.hash);
    TextExact(parts, h, r[5], x.name);
    BytesExact(parts, h, r[7], r[8], x.toolchainData);
    BytesExact(parts, h, r[9], r[10], x.dxil);
  }

  // ----- shader infos

  /** A signature a table lacks is the empty one. */
  ghost predicate SignatureIs(h: Heap, n: nat, field: Option<nat>, r: seq<nat>, xs: seq<nat>) {
    if field.None? then xs == [] else IndicesAt(h, Word(r, field.value), n, xs)
  }

  lemma SignatureArrayExact(parts: seq<Part>, h: Heap, n: nat, field: Option<nat>, r: seq<nat>, xs: seq<nat>)
    requires HeapOf(parts, h)
    ensures SignatureArray(parts, n, field, r) == Some(xs) <==> SignatureIs(h, n, field, r, xs)
  {
    hide ReadRecordArray, IndicesAt, HeapOf;
    if field.Some? { IndicesExact(parts, h, Word(r, field.value), n, xs); }
  }

  ghost predicate MasksAre(h: Heap, at: seq<nat>, r: seq<nat>, masks: seq<seq<nat>>) {
    |masks| == |at| && forall k :: 0 <= k < |at| ==> BytesAt(h, Word(r, at[k]), Word(r, at[k] + 1), masks[k])
  }

  lemma {:induction false} MasksExact(parts: seq<Part>, h: Heap, at: seq<nat>, r: seq<nat>, masks: seq<seq<nat>>)
    requires HeapOf(parts, h)
    ensures ReadMasks(parts, at, r) == Some(masks) <==> MasksAre(h, at, r, masks)
    decreases |at|
  {
    hide ReadBytes, BytesAt, HeapOf, Word;
    if at != [] && masks != [] {
      BytesExact(parts, h, Word(r, at[0]), Word(r, at[0] + 1), masks[0]);
      MasksExact(parts, h, at[1..], r, masks[1..]);
      assert masks == [masks[0]] + masks[1..];
      if MasksAre(h, at[1..], r, masks[1..]) && BytesAt(h, Word(r, at[0]), Word(r, at[0] + 1), masks[0]) {
        forall k | 0 <= k < |at| ensures BytesAt(h, Word(r, at[k]), Word(r, at[k] + 1), masks[k]) {
          if k > 0 { assert at[k] == at[1..][k - 1] && masks[k] == masks[1..][k - 1]; }
        }
      }
    }
  }

  ghost predicate ThreadsAre(h: Heap, field: Option<nat>, r: seq<nat>, threads: seq<nat>) {
    if field.None? then threads == [1, 1, 1] else ThreadsAt(h, Word(r, field.value), threads)
  }

  lemma ThreadsExact(parts: seq<Part>, h: Heap, field: Option<nat>, r: seq<nat>, threads: seq<nat>)
    requires HeapOf(parts, h)
    ensures ReadThreads(parts, field, r) == Some(threads) <==> ThreadsAre(h, field, r, threads)
  {
    hide ReadIndexArray, ListAt, HeapOf;
    if field.Some? {
      var offset := Word(r, field.value);
      var read := ReadIndexArray(parts, offset);
      if read.Some? { ListExact(parts, h, offset, read.value); }
      if ThreadsAt(h, offset, threads) {
        var n :| ListAt(h, offset, n) && Threads(n, threads);
        ListExact(parts, h, offset, n);
        assert threads == [threads[0], threads[1], threads[2]];
      }
    }
  }

  ghost predicate LayoutRow(h: Heap, n: nat, l: Layout, i: nat, r: seq<nat>, x: ShaderInfo) {
    && x.table == l.table && x.index == i && SignatureIs(h, n, l.input, r, x.inputs)
    && SignatureIs(h, n, l.output, r, x.outputs) && SignatureIs(h, n, l.patch, r, x.patch)
    && SignatureIs(h, n, l.primitive, r, x.primitive) && MasksAre(h, l.masks, r, x.masks)
    && ThreadsAre(h, l.threads, r, x.threads) && x.numbers == ReadNumbers(l.numbers, r)
  }

  lemma LayoutExact(parts: seq<Part>, h: Heap, n: nat, l: Layout, i: nat, r: seq<nat>, x: ShaderInfo)
    requires HeapOf(parts, h)
    ensures ParseShaderInfo(parts, n, l, i, r) == Some(x) <==> LayoutRow(h, n, l, i, r, x)
  {
    hide SignatureArray, ReadMasks, ReadThreads, SignatureIs, MasksAre, ThreadsAre, HeapOf, ReadNumbers;
    SignatureArrayExact(parts, h, n, l.input, r, x.inputs);
    SignatureArrayExact(parts, h, n, l.output, r, x.outputs);
    SignatureArrayExact(parts, h, n, l.patch, r, x.patch);
    SignatureArrayExact(parts, h, n, l.primitive, r, x.primitive);
    MasksExact(parts, h, l.masks, r, x.masks);
    ThreadsExact(parts, h, l.threads, r, x.threads);
  }

  lemma NullIsEmpty(h: Heap, n: nat, xs: seq<nat>)
    ensures IndicesAt(h, 0xffff_ffff, n, xs) <==> xs == []
  {
  }

  lemma NumbersOf(ns: seq<Number>, r: seq<nat>)
    ensures |ReadNumbers(ns, r)| == |ns|
    ensures forall k :: 0 <= k < |ns| ==> ReadNumbers(ns, r)[k] == ReadNumber(ns[k], r)
  {
  }

  lemma VertexExact(h: Heap, n: nat, i: nat, r: seq<nat>, x: ShaderInfo)
    requires |r| >= 4
    ensures LayoutRow(h, n, LAYOUTS[0], i, r, x) <==> VertexRow(h, n, r, x) && x.index == i
  {
    hide IndicesAt, BytesAt, ThreadsAt;
    NullIsEmpty(h, n, x.patch);
    NullIsEmpty(h, n, x.primitive);
  }

  lemma PixelExact(h: Heap, n: nat, i: nat, r: seq<nat>, x: ShaderInfo)
    requires |r| >= 2
    ensures LayoutRow(h, n, LAYOUTS[1], i, r, x) <==> PixelRow(h, n, r, x) && x.index == i
  {
    hide IndicesAt, BytesAt, ThreadsAt;
    NullIsEmpty(h, n, x.patch);
    NullIsEmpty(h, n, x.primitive);
  }

  lemma HullExact(h: Heap, n: nat, i: nat, r: seq<nat>, x: ShaderInfo)
    requires |r| >= 12
    ensures LayoutRow(h, n, LAYOUTS[2], i, r, x) <==> HullRow(h, n, r, x) && x.index == i
  {
    hide IndicesAt, BytesAt, ThreadsAt;
    NullIsEmpty(h, n, x.primitive);
  }

  lemma DomainExact(h: Heap, n: nat, i: nat, r: seq<nat>, x: ShaderInfo)
    requires |r| >= 10
    ensures LayoutRow(h, n, LAYOUTS[3], i, r, x) <==> DomainRow(h, n, r, x) && x.index == i
  {
    hide IndicesAt, BytesAt, ThreadsAt;
    NullIsEmpty(h, n, x.primitive);
  }

  lemma GeometryExact(h: Heap, n: nat, i: nat, r: seq<nat>, x: ShaderInfo)
    requires |r| >= 7
    ensures LayoutRow(h, n, LAYOUTS[4], i, r, x) <==> GeometryRow(h, n, r, x) && x.index == i
  {
    hide IndicesAt, BytesAt, ThreadsAt;
    NullIsEmpty(h, n, x.patch);
    NullIsEmpty(h, n, x.primitive);
  }

  lemma ComputeExact(h: Heap, n: nat, i: nat, r: seq<nat>, x: ShaderInfo)
    requires |r| >= 2
    ensures LayoutRow(h, n, LAYOUTS[5], i, r, x) <==> ComputeRow(h, n, r, x) && x.index == i
  {
    hide IndicesAt, BytesAt, ThreadsAt;
    NullIsEmpty(h, n, x.inputs);
    NullIsEmpty(h, n, x.outputs);
    NullIsEmpty(h, n, x.patch);
    NullIsEmpty(h, n, x.primitive);
  }

  lemma MeshExact(h: Heap, n: nat, i: nat, r: seq<nat>, x: ShaderInfo)
    requires |r| >= 12
    ensures LayoutRow(h, n, LAYOUTS[6], i, r, x) <==> MeshRow(h, n, r, x) && x.index == i
  {
    hide IndicesAt, BytesAt, ThreadsAt;
    NullIsEmpty(h, n, x.inputs);
    NullIsEmpty(h, n, x.patch);
  }

  lemma AmplificationExact(h: Heap, n: nat, i: nat, r: seq<nat>, x: ShaderInfo)
    requires |r| >= 3
    ensures LayoutRow(h, n, LAYOUTS[7], i, r, x) <==> AmplificationRow(h, n, r, x) && x.index == i
  {
    hide IndicesAt, BytesAt, ThreadsAt;
    NullIsEmpty(h, n, x.inputs);
    NullIsEmpty(h, n, x.outputs);
    NullIsEmpty(h, n, x.patch);
    NullIsEmpty(h, n, x.primitive);
  }

  /** The record of any of the eight tables is read as its words say. */
  lemma ShaderExact(parts: seq<Part>, h: Heap, n: nat, k: nat, i: nat, r: seq<nat>, x: ShaderInfo)
    requires HeapOf(parts, h) && k < 8 && 4 * |r| >= ShaderSize(k)
    ensures ParseShaderInfo(parts, n, LAYOUTS[k], i, r) == Some(x) <==> ShaderRow(h, n, k, i, r, x)
    ensures LAYOUTS[k].table == ShaderKind(k) && LAYOUTS[k].size == ShaderSize(k)
  {
    hide ParseShaderInfo, LayoutRow, VertexRow, PixelRow, HullRow, DomainRow, GeometryRow, ComputeRow, MeshRow,
      AmplificationRow, HeapOf;
    LayoutExact(parts, h, n, LAYOUTS[k], i, r, x);
    if k == 0 { VertexExact(h, n, i, r, x); }
    else if k == 1 { PixelExact(h, n, i, r, x); }
    else if k == 2 { HullExact(h, n, i, r, x); }
    else if k == 3 { DomainExact(h, n, i, r, x); }
    else if k == 4 { GeometryExact(h, n, i, r, x); }
    else if k == 5 { ComputeExact(h, n, i, r, x); }
    else if k == 6 { MeshExact(h, n, i, r, x); }
    else { AmplificationExact(h, n, i, r, x); }
  }

  // ----- functions

  lemma InfoTableExact(kind: nat, table: nat)
    ensures ShaderTableOf(kind) == Some(table) <==> InfoTable(kind, table)
    ensures ShaderTableOf(kind).Some? <==> kind <= 5 || 13 <= kind <= 15
  {
  }

  /** The shader info the parse takes from a record. */
  function InfoOf(long: bool, r: seq<nat>): Option<(nat, nat)> {
    var table := if long then ShaderTableOf(Word(r, 4)) else None;
    if table.Some? && Word(r, 12) != NULL_REF then Some((table.value, Word(r, 12))) else None
  }

  lemma NamesExact(long: bool, r: seq<nat>, shader: Option<(nat, nat)>)
    requires |r| >= if long then 13 else 11
    ensures InfoOf(long, r) == shader <==> Names(long, r, shader)
  {
    hide ShaderTableOf, InfoTable;
    var table := ShaderTableOf(r[4]);
    InfoTableExact(r[4], if table.Some? then table.value else 0);
    if shader.Some? { InfoTableExact(r[4], shader.value.0); }
  }

  lemma FunctionExact(parts: seq<Part>, h: Heap, resources: nat, nodeShaders: nat, shaders: seq<ShaderInfo>,
                      r: seq<nat>, x: FunctionRecord)
    requires HeapOf(parts, h) && |r| >= if Long(h) then 13 else 11
    ensures ParseFunction(parts, FunctionStride(parts), resources, nodeShaders, shaders, r) == Some(x)
       <==> FunctionRow(h, resources, nodeShaders, shaders, r, x)
  {
    hide ReadString, ReadStringArray, ReadRecordArray, TextAt, TextsAt, IndicesAt, HeapOf, ShaderTableOf, Names,
      ShaderExists, Exists, FunctionStride, Long;
    StrideIs(parts, h);
    TextExact(parts, h, r[0], x.name);
    TextExact(parts, h, r[1], x.unmangled);
    IndicesExact(parts, h, r[2], resources, x.resources);
    TextsExact(parts, h, r[3], x.dependencies);
    NamesExact(Long(h), r, x.shader);
    if x.shader.Some? { ExistsExact(nodeShaders, shaders, x.shader.value); }
    assert r[5..11] == [r[5], r[6], r[7], r[8], r[9], r[10]];
  }

  lemma ExistsExact(nodeShaders: nat, shaders: seq<ShaderInfo>, shader: (nat, nat))
    ensures ShaderExists(nodeShaders, shaders, shader) <==> Exists(nodeShaders, shaders, shader)
  {
  }

  lemma StrideIs(parts: seq<Part>, h: Heap)
    requires HeapOf(parts, h)
    ensures FunctionStride(parts) >= 52 <==> Long(h)
  {
    FirstExact(parts, 4, h.functions);
  }

  // ----- whole tables

  ghost predicate Agree<T(!new)>(
    parse: (nat, seq<nat>) -> Option<T>, row: (nat, seq<nat>, T) -> bool, size: nat)
  {
    forall i: nat, r: seq<nat>, x: T :: 4 * |r| >= size ==> (parse(i, r) == Some(x) <==> row(i, r, x))
  }

  lemma {:induction false} RecordsExact<T(!new)>(
    records: seq<seq<nat>>, n: nat, parse: (nat, seq<nat>) -> Option<T>, xs: seq<T>)
    requires n <= |records|
    ensures ParseRecords(records, n, parse) == Some(xs)
       <==> |xs| == n && forall i :: 0 <= i < n ==> parse(i, records[i]) == Some(xs[i])
    decreases n
  {
    if n > 0 && |xs| == n {
      RecordsExact(records, n - 1, parse, xs[..n - 1]);
      assert xs == xs[..n - 1] + [xs[n - 1]];
      var front := ParseRecords(records, n - 1, parse);
      if front.Some? && ParseRecords(records, n, parse) == Some(xs) {
        assert front.value == (front.value + [xs[n - 1]])[..n - 1];
      }
    }
  }

  /** A table whose records are read as their words say is read as the first part of its kind says. */
  lemma TableExact<T(!new)>(parts: seq<Part>, kind: nat, min: nat, size: nat,
                            parse: (nat, seq<nat>) -> Option<T>, row: (nat, seq<nat>, T) -> bool, xs: seq<T>)
    requires RecordsFit(parts) && Agree(parse, row, size)
    requires forall p :: First(parts, kind, Some(p)) && p.stride >= min ==> p.stride >= size
    ensures ParseTable(parts, kind, min, parse) == Some(xs) <==> TableHolds(parts, kind, min, row, xs)
  {
    var p := FindPart(parts, kind);
    FirstExact(parts, kind, p);
    if TableHolds(parts, kind, min, row, xs) {
      var q :| First(parts, kind, q) && PartHolds(q, min, row, xs);
      FirstExact(parts, kind, q);
    }
    if p.Some? && p.value.records != [] && p.value.stride >= min {
      var records := p.value.records;
      RecordsExact(records, |records|, parse, xs);
      forall i | 0 <= i < |records| && i < |xs|
        ensures parse(i, records[i]) == Some(xs[i]) <==> row(i, records[i], xs[i])
      {
        var at :| FirstAt(parts, kind, at) && parts[at] == p.value;
        assert 4 * |parts[at].records[i]| >= parts[at].stride;
      }
    }
  }

  lemma {:induction false} ShadersExact(parts: seq<Part>, h: Heap, n: nat, k: nat, xs: seq<ShaderInfo>)
    requires RecordsFit(parts) && HeapOf(parts, h) && k <= 8
    ensures ShaderTables(parts, n, k) == Some(xs) <==> ShadersHold(parts, h, n, k, xs)
    decreases k
  {
    hide HeapOf, RecordsFit, ParseTable, TableHolds;
    if k > 0 {
      var front, last := ShaderTables(parts, n, k - 1), ShaderTable(parts, n, LAYOUTS[k - 1]);
      if front.Some? && last.Some? && front.value + last.value == xs {
        var cut := |front.value|;
        assert xs[..cut] == front.value && xs[cut..] == last.value;
        ShadersExact(parts, h, n, k - 1, xs[..cut]);
        ShaderTableExact(parts, h, n, k - 1, xs[cut..]);
      }
      if ShadersHold(parts, h, n, k, xs) {
        var cut :| 0 <= cut <= |xs| && ShadersHold(parts, h, n, k - 1, xs[..cut])
                   && TableHolds(parts, ShaderKind(k - 1), ShaderSize(k - 1), ShaderRows(h, n, k - 1), xs[cut..]);
        ShadersExact(parts, h, n, k - 1, xs[..cut]);
        ShaderTableExact(parts, h, n, k - 1, xs[cut..]);
        assert xs == xs[..cut] + xs[cut..];
      }
    }
  }

  lemma ShaderTableExact(parts: seq<Part>, h: Heap, n: nat, k: nat, xs: seq<ShaderInfo>)
    requires RecordsFit(parts) && HeapOf(parts, h) && k < 8
    ensures ShaderTable(parts, n, LAYOUTS[k]) == Some(xs)
       <==> TableHolds(parts, ShaderKind(k), ShaderSize(k), ShaderRows(h, n, k), xs)
  {
    hide HeapOf, RecordsFit, ParseTable, TableHolds, ShaderRow, ParseShaderInfo;
    var rule, rows, size := ShaderRule(parts, n, LAYOUTS[k]), ShaderRows(h, n, k), ShaderSize(k);
    forall i: nat, r: seq<nat>, x | 4 * |r| >= size ensures rule(i, r) == Some(x) <==> rows(i, r, x) {
      ShaderExact(parts, h, n, k, i, r, x);
    }
    ShaderExact(parts, h, n, k, 0, [0, 0, 0, 0, 0, 0, 0, 0, 0, 0, 0, 0], ShaderInfo(0, 0, [], [], [], [], [], [], []));
    TableExact(parts, ShaderKind(k), size, size, rule, rows, xs);
  }

  // ----- all thirteen tables

  /** Table j is what its stage reads. */
  ghost predicate IsRead(parts: seq<Part>, t: Tables, j: nat) {
    if j == 0 then ParseTable(parts, RESOURCE_TABLE, 32, ResourceRule(parts)) == Some(t.resources)
    else if j == 1 then ParseTable(parts, SUBOBJECT_TABLE, 24, SubobjectRule(parts)) == Some(t.subobjects)
    else if j == 2 then ParseTable(parts, NODE_ID_TABLE, 8, NodeIdRule(parts)) == Some(t.nodeIds)
    else if j == 3 then
      ParseTable(parts, NODE_FUNC_ATTRIB_TABLE, 8, FuncAttribRule(parts, |t.nodeIds|)) == Some(t.funcAttribs)
    else if j == 4 then ParseTable(parts, NODE_IO_ATTRIB_TABLE, 8, IoAttribRule(|t.nodeIds|)) == Some(t.ioAttribs)
    else if j == 5 then ParseTable(parts, IO_NODE_TABLE, 8, IoNodeRule(parts, |t.ioAttribs|)) == Some(t.ioNodes)
    else if j == 6 then
      ParseTable(parts, NODE_SHADER_TABLE, 20, NodeShaderRule(parts, |t.funcAttribs|, |t.ioNodes|))
      == Some(t.nodeShaders)
    else if j == 7 then ParseTable(parts, SIGNATURE_TABLE, 14, SignatureRule(parts)) == Some(t.signature)
    else if j == 8 then ShaderTables(parts, |t.signature|, |LAYOUTS|) == Some(t.shaders)
    else if j == 9 then
      ParseTable(parts, FUNCTION_TABLE, 44, FunctionRule(parts, |t.resources|, |t.nodeShaders|, t.shaders))
      == Some(t.functions)
    else if j == 10 then ParseTable(parts, PDB_SOURCE_TABLE, 8, SourceRule(parts)) == Some(t.pdbSources)
    else if j == 11 then ParseTable(parts, PDB_LIBRARY_TABLE, 12, LibraryRule(parts)) == Some(t.pdbLibraries)
    else ParseTable(parts, PDB_TABLE, 44, PdbRule(parts, |t.pdbSources|, |t.pdbLibraries|)) == Some(t.pdbs)
  }

  /** The same tables up to the first k. */
  ghost predicate SameFirst(t: Tables, u: Tables, k: nat) {
    && (k > 0 ==> t.resources == u.resources) && (k > 1 ==> t.subobjects == u.subobjects)
    && (k > 2 ==> t.nodeIds == u.nodeIds) && (k > 3 ==> t.funcAttribs == u.funcAttribs)
    && (k > 4 ==> t.ioAttribs == u.ioAttribs) && (k > 5 ==> t.ioNodes == u.ioNodes)
    && (k > 6 ==> t.nodeShaders == u.nodeShaders) && (k > 7 ==> t.signature == u.signature)
    && (k > 8 ==> t.shaders == u.shaders) && (k > 9 ==> t.functions == u.functions)
    && (k > 10 ==> t.pdbSources == u.pdbSources) && (k > 11 ==> t.pdbLibraries == u.pdbLibraries)
    && (k > 12 ==> t.pdbs == u.pdbs)
  }

  lemma ReadDependsOnFirst(parts: seq<Part>, t: Tables, u: Tables, j: nat)
    requires SameFirst(t, u, j + 1) && j < 13
    ensures IsRead(parts, t, j) <==> IsRead(parts, u, j)
  {
    hide ParseTable, ShaderTables;
  }

  lemma EarlierSame(t: Tables, u: Tables, j: nat, k: nat)
    requires j <= k && SameFirst(t, u, k)
    ensures SameFirst(t, u, j)
  {
  }

  /** A stage fills its own table with what it reads and leaves those before it. */
  lemma StageReads(parts: seq<Part>, t: Tables, k: nat, u: Tables)
    requires k < 13 && SameFirst(t, u, k)
    ensures IsRead(parts, u, k) <==> Stage(parts, t, k).Some? && SameFirst(Stage(parts, t, k).value, u, k + 1)
  {
    hide ParseTable, ShaderTables;
  }

  /** After k stages the tables are those of u up to the first k exactly when u's are what is read. */
  lemma {:induction false} StagesRead(parts: seq<Part>, k: nat, u: Tables)
    requires k <= 13
    ensures (forall j :: 0 <= j < k ==> IsRead(parts, u, j))
       <==> AfterStages(parts, k).Some? && SameFirst(AfterStages(parts, k).value, u, k)
    decreases k
  {
    hide Stage, IsRead, SameFirst;
    if k == 0 {
      NoneSame(EMPTY, u);
    } else {
      StagesRead(parts, k - 1, u);
      var t := AfterStages(parts, k - 1);
      if t.Some? {
        if SameFirst(t.value, u, k - 1) {
          StageReads(parts, t.value, k - 1, u);
        } else if Stage(parts, t.value, k - 1).Some? {
          StageKeepsFirst(parts, t.value, k - 1, u);
        }
      }
    }
  }

  lemma NoneSame(t: Tables, u: Tables)
    ensures SameFirst(t, u, 0)
  {
  }

  lemma StageKeepsFirst(parts: seq<Part>, t: Tables, k: nat, u: Tables)
    requires k < 13 && Stage(parts, t, k).Some?
    ensures SameFirst(Stage(parts, t, k).value, u, k + 1) ==> SameFirst(t, u, k)
  {
    hide ParseTable, ShaderTables;
  }

  lemma AllSame(t: Tables, u: Tables)
    ensures SameFirst(t, u, 13) <==> t == u
  {
  }

  lemma EarlySaysExact(parts: seq<Part>, h: Heap, t: Tables, j: nat)
    requires RecordsFit(parts) && HeapOf(parts, h) && j < 7
    ensures IsRead(parts, t, j) <==> Says(parts, h, t, j)
  {
    hide HeapOf, RecordsFit, ParseTable, TableHolds;
    hide ParseResource, ParseSubobject, ParseNodeId, ParseFuncAttrib, ParseIoAttrib, ParseIoNode, ParseNodeShader;
    hide ResourceRow, SubobjectRow, NodeIdRow, FuncAttribRow, IoAttribRow, IoNodeRow, NodeShaderRow;
    if j == 0 {
      var rule, rows := ResourceRule(parts), ResourceRows(h);
      forall i: nat, r: seq<nat>, x | 4 * |r| >= 32 ensures rule(i, r) == Some(x) <==> rows(i, r, x) {
        ResourceExact(parts, h, r, x);
      }
      TableExact(parts, 3, 32, 32, rule, rows, t.resources);
    } else if j == 1 {
      var rule, rows := SubobjectRule(parts), SubobjectRows(h);
      forall i: nat, r: seq<nat>, x | 4 * |r| >= 24 ensures rule(i, r) == Some(x) <==> rows(i, r, x) {
        SubobjectExact(parts, h, r, x);
      }
      TableExact(parts, 6, 24, 24, rule, rows, t.subobjects);
    } else if j == 2 {
      var rule, rows := NodeIdRule(parts), NodeIdRows(h);
      forall i: nat, r: seq<nat>, x | 4 * |r| >= 8 ensures rule(i, r) == Some(x) <==> rows(i, r, x) {
        NodeIdExact(parts, h, r, x);
      }
      TableExact(parts, 7, 8, 8, rule, rows, t.nodeIds);
    } else if j == 3 {
      var rule, rows := FuncAttribRule(parts, |t.nodeIds|), FuncAttribRows(h, |t.nodeIds|);
      forall i: nat, r: seq<nat>, x | 4 * |r| >= 8 ensures rule(i, r) == Some(x) <==> rows(i, r, x) {
        FuncAttribExact(parts, h, |t.nodeIds|, r, x);
      }
      TableExact(parts, 9, 8, 8, rule, rows, t.funcAttribs);
    } else if j == 4 {
      var rule, rows := IoAttribRule(|t.nodeIds|), IoAttribRows(|t.nodeIds|);
      forall i: nat, r: seq<nat>, x | 4 * |r| >= 8 ensures rule(i, r) == Some(x) <==> rows(i, r, x) {
        IoAttribExact(|t.nodeIds|, r, x);
      }
      TableExact(parts, 8, 8, 8, rule, rows, t.ioAttribs);
    } else if j == 5 {
      var rule, rows := IoNodeRule(parts, |t.ioAttribs|), IoNodeRows(h, |t.ioAttribs|);
      forall i: nat, r: seq<nat>, x | 4 * |r| >= 8 ensures rule(i, r) == Some(x) <==> rows(i, r, x) {
        IoNodeExact(parts, h, |t.ioAttribs|, r, x);
      }
      TableExact(parts, 10, 8, 8, rule, rows, t.ioNodes);
    } else {
      var rule, rows := NodeShaderRule(parts, |t.funcAttribs|, |t.ioNodes|),
        NodeShaderRows(h, |t.funcAttribs|, |t.ioNodes|);
      forall i: nat, r: seq<nat>, x | 4 * |r| >= 20 ensures rule(i, r) == Some(x) <==> rows(i, r, x) {
        NodeShaderExact(parts, h, |t.funcAttribs|, |t.ioNodes|, r, x);
      }
      TableExact(parts, 11, 20, 20, rule, rows, t.nodeShaders);
    }
  }

  lemma LateSaysExact(parts: seq<Part>, h: Heap, t: Tables, j: nat)
    requires RecordsFit(parts) && HeapOf(parts, h) && 7 <= j < 13
    ensures IsRead(parts, t, j) <==> Says(parts, h, t, j)
  {
    hide HeapOf, RecordsFit, ParseTable, TableHolds, ShaderTables, ShadersHold;
    hide ParseSignatureElement, ParseFunction, ParseSource, ParseLibrary, ParsePdb, FunctionStride;
    hide SignatureRow, FunctionRow, SourceRow, LibraryRow, PdbRow;
    if j == 7 {
      var rule, rows := SignatureRule(parts), SignatureRows(h);
      forall i: nat, r: seq<nat>, x | 4 * |r| >= 14 ensures rule(i, r) == Some(x) <==> rows(i, r, x) {
        SignatureExact(parts, h, r, x);
      }
      TableExact(parts, 13, 14, 14, rule, rows, t.signature);
    } else if j == 8 {
      ShadersExact(parts, h, |t.signature|, 8, t.shaders);
    } else if j == 9 {
      FunctionsExact(parts, h, t);
    } else if j == 10 {
      var rule, rows := SourceRule(parts), SourceRows(h);
      forall i: nat, r: seq<nat>, x | 4 * |r| >= 8 ensures rule(i, r) == Some(x) <==> rows(i, r, x) {
        SourceExact(parts, h, r, x);
      }
      TableExact(parts, 0x10002, 8, 8, rule, rows, t.pdbSources);
    } else if j == 11 {
      var rule, rows := LibraryRule(parts), LibraryRows(h);
      forall i: nat, r: seq<nat>, x | 4 * |r| >= 12 ensures rule(i, r) == Some(x) <==> rows(i, r, x) {
        LibraryExact(parts, h, r, x);
      }
      TableExact(parts, 0x10003, 12, 12, rule, rows, t.pdbLibraries);
    } else {
      var rule, rows := PdbRule(parts, |t.pdbSources|, |t.pdbLibraries|),
        PdbRows(h, |t.pdbSources|, |t.pdbLibraries|);
      forall i: nat, r: seq<nat>, x | 4 * |r| >= 44 ensures rule(i, r) == Some(x) <==> rows(i, r, x) {
        PdbExact(parts, h, |t.pdbSources|, |t.pdbLibraries|, r, x);
      }
      TableExact(parts, 0x10001, 44, 44, rule, rows, t.pdbs);
    }
  }

  lemma FunctionsExact(parts: seq<Part>, h: Heap, t: Tables)
    requires RecordsFit(parts) && HeapOf(parts, h)
    ensures IsRead(parts, t, 9) <==> Says(parts, h, t, 9)
  {
    hide RecordsFit, ParseTable, TableHolds, ParseFunction, FunctionStride, FunctionRow, First;
    var rule := FunctionRule(parts, |t.resources|, |t.nodeShaders|, t.shaders);
    var rows := FunctionRows(h, |t.resources|, |t.nodeShaders|, t.shaders);
    var size := if Long(h) then 52 else 44;
    forall i: nat, r: seq<nat>, x | 4 * |r| >= size ensures rule(i, r) == Some(x) <==> rows(i, r, x) {
      FunctionExact(parts, h, |t.resources|, |t.nodeShaders|, t.shaders, r, x);
    }
    forall p | First(parts, 4, Some(p)) && p.stride >= 44 ensures p.stride >= size {
      FirstExact(parts, 4, Some(p));
      FirstExact(parts, 4, h.functions);
    }
    TableExact(parts, 4, 44, size, rule, rows, t.functions);
  }

  /** The parse succeeds with these tables exactly when the parts say them: every record of every table,
      in order, with the strings, lists and bytes its words refer to. */
  lemma TablesExact(parts: seq<Part>, t: Tables)
    requires RecordsFit(parts)
    ensures AfterStages(parts, 13) == Some(t) <==> Describes(parts, t)
  {
    hide RecordsFit, IsRead, Says, SameFirst, AfterStages, HeapOf;
    var h := HeapFound(parts);
    StagesRead(parts, 13, t);
    if AfterStages(parts, 13).Some? { AllSame(AfterStages(parts, 13).value, t); }
    forall j | 0 <= j < 13 ensures IsRead(parts, t, j) <==> Says(parts, h, t, j) {
      if j < 7 { EarlySaysExact(parts, h, t, j); } else { LateSaysExact(parts, h, t, j); }
    }
    if Describes(parts, t) {
      var g :| HeapOf(parts, g) && forall j :: 0 <= j < 13 ==> Says(parts, g, t, j);
      OneHeap(parts, g, h);
    }
  }

  lemma HeapFound(parts: seq<Part>) returns (h: Heap)
    ensures HeapOf(parts, h)
  {
    h := Heap(FindPart(parts, 1), FindPart(parts, 2), FindPart(parts, 5), FindPart(parts, 4));
    FirstExact(parts, 1, h.text);
    FirstExact(parts, 2, h.indices);
    FirstExact(parts, 5, h.raw);
    FirstExact(parts, 4, h.functions);
  }

  lemma OneHeap(parts: seq<Part>, g: Heap, h: Heap)
    requires HeapOf(parts, g) && HeapOf(parts, h)
    ensures g == h
  {
    FirstExact(parts, 1, g.text);
    FirstExact(parts, 1, h.text);
    FirstExact(parts, 2, g.indices);
    FirstExact(parts, 2, h.indices);
    FirstExact(parts, 5, g.raw);
    FirstExact(parts, 5, h.raw);
    FirstExact(parts, 4, g.functions);
    FirstExact(parts, 4, h.functions);
  }
}
