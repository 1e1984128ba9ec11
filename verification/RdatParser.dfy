/** The parse of the runtime data and the reflection calls that rely on it. */
module RdatParser {
  import opened Options
  import opened Rdat
  import opened RdatFormat

  // ----- the parse

  /** Reads the characters up to the terminator, or nothing when none follows. */
  method ScanText(bytes: seq<nat>, offset: nat) returns (r: Option<Text>)
    ensures r == ReadText(bytes, offset)
    ensures r.Some? ==> TextStands(bytes, offset, r.value)
    ensures r.None? ==> forall k :: offset <= k < |bytes| ==> bytes[k] != 0
  {
    if offset >= |bytes| { return None; }
    var end := offset;
    while end < |bytes| && bytes[end] != 0
      invariant offset <= end <= |bytes|
      invariant forall k :: offset <= k < end ==> bytes[k] != 0
      invariant forall text :: TextStands(bytes, offset, text) ==> offset + |text| >= end
    {
      end := end + 1;
    }
    if end == |bytes| {
      var read := ReadText(bytes, offset);
      if read.Some? { TextStandsExact(bytes, offset, read.value); }
      return None;
    }
    r := Some(bytes[offset..end]);
    TextStandsExact(bytes, offset, r.value);
  }

  class RuntimeData {
    const parts: seq<Part>
    var t: Tables

    constructor (ps: seq<Part>)
      ensures parts == ps && t == EMPTY
    {
      parts := ps;
      t := EMPTY;
    }

    /** Runs the stages in order, stopping at the first failure. It succeeds exactly when the parts say
        some tables, and those are the ones stored. Whatever the parts contain, success
        leaves every cross-table index in range of the final table it names. */
    method ParseCoreTables() returns (ok: bool)
      requires t == EMPTY
      modifies this
      ensures ok == AfterStages(parts, STAGES).Some?
      ensures ok ==> t == AfterStages(parts, STAGES).value && Intact(t)
      ensures RecordsFit(parts) && ok ==> Describes(parts, t)
      ensures RecordsFit(parts) && !ok ==> forall u :: !Describes(parts, u)
    {
      hide Stage, Intact, Describes, RecordsFit;
      var k := 0;
      while k < STAGES
        invariant 0 <= k <= STAGES && AfterStages(parts, k) == Some(t)
      {
        ok := RunStage(k);
        if !ok {
          StageRefused(k, STAGES);
          if RecordsFit(parts) {
            forall u ensures !Describes(parts, u) { TablesExact(parts, u); }
          }
          return;
        }
        k := k + 1;
      }
      StagesIntact(parts, STAGES);
      if RecordsFit(parts) { TablesExact(parts, t); }
      return true;
    }

    lemma {:induction false} StageRefused(i: nat, n: nat)
      requires i < n <= STAGES && AfterStages(parts, i).Some? && Stage(parts, AfterStages(parts, i).value, i).None?
      ensures AfterStages(parts, n) == None
      decreases n
    {
      hide Stage;
      if n - 1 > i { StageRefused(i, n - 1); }
    }

    method RunStage(k: nat) returns (ok: bool)
      requires k < STAGES
      modifies this
      ensures ok == Stage(parts, old(t), k).Some?
      ensures t == if ok then Stage(parts, old(t), k).value else old(t)
    {
      if k < 7 {
        ok := RunNodeStage(k);
      } else {
        ok := RunLateStage(k);
      }
    }

    method RunNodeStage(k: nat) returns (ok: bool)
      requires k < 7
      modifies this
      ensures ok == Stage(parts, old(t), k).Some?
      ensures t == if ok then Stage(parts, old(t), k).value else old(t)
    {
      hide ParseTable, ShaderTables;
      if k == 0 {
        var v := ReadTable(parts, RESOURCE_TABLE, 32, ResourceRule(parts));
        ok := v.Some?;
        if ok { t := t.(resources := v.value); }
      } else if k == 1 {
        var v := ReadTable(parts, SUBOBJECT_TABLE, 24, SubobjectRule(parts));
        ok := v.Some?;
        if ok { t := t.(subobjects := v.value); }
      } else if k == 2 {
        var v := ReadTable(parts, NODE_ID_TABLE, 8, NodeIdRule(parts));
        ok := v.Some?;
        if ok { t := t.(nodeIds := v.value); }
      } else if k == 3 {
        var v := ReadTable(parts, NODE_FUNC_ATTRIB_TABLE, 8, FuncAttribRule(parts, |t.nodeIds|));
        ok := v.Some?;
        if ok { t := t.(funcAttribs := v.value); }
      } else if k == 4 {
        var v := ReadTable(parts, NODE_IO_ATTRIB_TABLE, 8, IoAttribRule(|t.nodeIds|));
        ok := v.Some?;
        if ok { t := t.(ioAttribs := v.value); }
      } else if k == 5 {
        var v := ReadTable(parts, IO_NODE_TABLE, 8, IoNodeRule(parts, |t.ioAttribs|));
        ok := v.Some?;
        if ok { t := t.(ioNodes := v.value); }
      } else {
        var v := ReadTable(parts, NODE_SHADER_TABLE, 20, NodeShaderRule(parts, |t.funcAttribs|, |t.ioNodes|));
        ok := v.Some?;
        if ok { t := t.(nodeShaders := v.value); }
      }
    }

    method RunLateStage(k: nat) returns (ok: bool)
      requires 7 <= k < STAGES
      modifies this
      ensures ok == Stage(parts, old(t), k).Some?
      ensures t == if ok then Stage(parts, old(t), k).value else old(t)
    {
      hide ParseTable, ShaderTables;
      if k == 7 {
        var v := ReadTable(parts, SIGNATURE_TABLE, 14, SignatureRule(parts));
        ok := v.Some?;
        if ok { t := t.(signature := v.value); }
      } else if k == 8 {
        var v := ReadShaderTables(|t.signature|);
        ok := v.Some?;
        if ok { t := t.(shaders := v.value); }
      } else if k == 9 {
        var v := ReadTable(parts, FUNCTION_TABLE, 44, FunctionRule(parts, |t.resources|, |t.nodeShaders|, t.shaders));
        ok := v.Some?;
        if ok { t := t.(functions := v.value); }
      } else if k == 10 {
        var v := ReadTable(parts, PDB_SOURCE_TABLE, 8, SourceRule(parts));
        ok := v.Some?;
        if ok { t := t.(pdbSources := v.value); }
      } else if k == 11 {
        var v := ReadTable(parts, PDB_LIBRARY_TABLE, 12, LibraryRule(parts));
        ok := v.Some?;
        if ok { t := t.(pdbLibraries := v.value); }
      } else {
        var v := ReadTable(parts, PDB_TABLE, 44, PdbRule(parts, |t.pdbSources|, |t.pdbLibraries|));
        ok := v.Some?;
        if ok { t := t.(pdbs := v.value); }
      }
    }

    method ReadShaderTables(signature: nat) returns (r: Option<seq<ShaderInfo>>)
      ensures r == ShaderTables(parts, signature, |LAYOUTS|)
    {
      var list, n := [], 0;
      while n < |LAYOUTS|
        invariant 0 <= n <= |LAYOUTS| && ShaderTables(parts, signature, n) == Some(list)
      {
        var l := LAYOUTS[n];
        var one := ReadTable(parts, l.table, l.size, ShaderRule(parts, signature, l));
        if one.None? {
          ShaderRefused(signature, n, |LAYOUTS|);
          return None;
        }
        list := list + one.value;
        n := n + 1;
      }
      return Some(list);
    }

    lemma {:induction false} ShaderRefused(signature: nat, i: nat, n: nat)
      requires i < n <= |LAYOUTS| && ShaderTable(parts, signature, LAYOUTS[i]).None?
      ensures ShaderTables(parts, signature, n) == None
      decreases n
    {
      if n - 1 > i { ShaderRefused(signature, i, n - 1); }
    }
  }

  // ----- what reflection relies on

  /** Reflection indexes the resource table with the function's indices, unguarded. */
  method ReflectResources(t: Tables, f: nat) returns (out: seq<Resource>)
    requires Intact(t) && f < |t.functions|
    ensures |out| == |t.functions[f].resources|
    ensures forall i :: 0 <= i < |out| ==>
              t.functions[f].resources[i] < |t.resources| && out[i] == t.resources[t.functions[f].resources[i]]
  {
    out := [];
    var indices := t.functions[f].resources;
    for i := 0 to |indices|
      invariant |out| == i && forall k :: 0 <= k < i ==> out[k] == t.resources[indices[k]]
    {
      out := out + [t.resources[indices[i]]];
    }
  }

  /** Copies the signature elements in range. */
  method CopySignature(t: Tables, indices: seq<nat>) returns (out: seq<SignatureElement>)
    ensures |out| <= |indices|
    ensures |out| == |indices| <==> Below(indices, |t.signature|)
    ensures Below(indices, |t.signature|) ==> forall i :: 0 <= i < |out| ==> out[i] == t.signature[indices[i]]
  {
    out := [];
    for i := 0 to |indices|
      invariant |out| <= i
      invariant |out| == i <==> Below(indices[..i], |t.signature|)
      invariant |out| == i ==> forall k :: 0 <= k < i ==> out[k] == t.signature[indices[k]]
    {
      assert indices[..i + 1] == indices[..i] + [indices[i]];
      if indices[i] < |t.signature| {
        out := out + [t.signature[indices[i]]];
      } else {
        assert indices[..i + 1][i] == indices[i];
      }
    }
    assert indices[..|indices|] == indices;
  }

  /** After a successful parse none of a shader's four signatures loses an element when copied. */
  method ReflectSignatures(t: Tables, s: nat)
    returns (ins: seq<SignatureElement>, outs: seq<SignatureElement>, patch: seq<SignatureElement>,
      primitive: seq<SignatureElement>)
    requires Intact(t) && s < |t.shaders|
    ensures Copied(t, t.shaders[s].inputs, ins) && Copied(t, t.shaders[s].outputs, outs)
    ensures Copied(t, t.shaders[s].patch, patch) && Copied(t, t.shaders[s].primitive, primitive)
  {
    assert SignaturesBelow(t.shaders[s], |t.signature|);
    ins := CopySignature(t, t.shaders[s].inputs);
    outs := CopySignature(t, t.shaders[s].outputs);
    patch := CopySignature(t, t.shaders[s].patch);
    primitive := CopySignature(t, t.shaders[s].primitive);
  }

  /** Every index is in range and its element is there, in order. */
  ghost predicate Copied(t: Tables, indices: seq<nat>, out: seq<SignatureElement>) {
    |out| == |indices| && forall i :: 0 <= i < |out| ==> indices[i] < |t.signature| && out[i] == t.signature[indices[i]]
  }
}
