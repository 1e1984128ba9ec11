/** Resource handles: the forward pass that gives every operation the resource its handle names,
    and the usage flags collected from the operations. */
module Handles {
  import opened Options

  datatype ResourceClass = Unknown | Srv | Uav | Cbv | Sampler

  datatype Kind = ResourceHandle | ResourceRead | ResourceWrite | ResourceSample | ResourceQuery | OtherKind

  /** An operation: the fields the pass reads and writes. operand is the text of operand 0. */
  datatype Operation =
    Operation(kind: Kind, opcodeName: string, resultName: string, resultText: string, operand: Option<string>,
              hasId: bool, id: nat, hasBinding: bool, space: nat, lower: nat, hasClass: bool, classValue: nat)

  datatype Resource =
    Resource(cls: ResourceClass, id: nat, space: nat, lower: nat, byHandle: bool, read: bool, written: bool,
             sampled: bool, compared: bool, queried: bool, counter: bool)

  datatype Handle = Handle(cls: ResourceClass, id: nat, hasId: bool, valid: bool)

  const NO_HANDLE := Handle(Unknown, 0, false, false)

  function ClassFromValue(v: nat): ResourceClass {
    if v == 0 then Srv else if v == 1 then Uav else if v == 2 then Cbv else if v == 3 then Sampler else Unknown
  }

  function ClassToValue(c: ResourceClass): Option<nat> {
    match c case Srv => Some(0) case Uav => Some(1) case Cbv => Some(2) case Sampler => Some(3) case Unknown => None
  }

  /** An LLVM value name without its percent sign. */
  function Normalize(name: string): string { if name != "" && name[0] == '%' then name[1..] else name }

  function OperandName(op: Operation): string { if op.operand.None? then "" else Normalize(op.operand.value) }

  function OwnClass(op: Operation): ResourceClass { if op.hasClass then ClassFromValue(op.classValue) else Unknown }

  /** The first resource bound where the operation says. */
  function BoundResource(op: Operation, cls: ResourceClass, rs: seq<Resource>): Option<nat> {
    if rs == [] then None
    else if rs[0].cls == cls && rs[0].space == op.space && rs[0].lower == op.lower then Some(rs[0].id)
    else BoundResource(op, cls, rs[1..])
  }

  /** An operation that names its resource itself, by id or by binding. */
  predicate IsRoot(op: Operation) { op.hasId || (op.kind == ResourceHandle && op.hasBinding) }

  function RootHandle(op: Operation, rs: seq<Resource>): Handle
    requires IsRoot(op)
  {
    var cls := OwnClass(op);
    if op.hasId then Handle(cls, op.id, true, cls != Unknown)
    else
      var bound := BoundResource(op, cls, rs);
      Handle(cls, if bound.Some? then bound.value else 0, bound.Some?, cls != Unknown)
  }

  /** A binding makes a handle valid even when its class is not known. */
  function Adjusted(op: Operation, h: Handle): Handle { if op.hasBinding then h.(valid := true) else h }

  function UseHandle(op: Operation, rs: seq<Resource>, handles: map<string, Handle>): Handle {
    if IsRoot(op) then RootHandle(op, rs)
    else if OperandName(op) != "" && OperandName(op) in handles then handles[OperandName(op)]
    else NO_HANDLE
  }

  predicate Names(op: Operation, name: string) {
    || (op.resultName != "" && Normalize(op.resultName) == name)
    || (op.resultText != "" && Normalize(op.resultText) == name)
  }

  function Store(handles: map<string, Handle>, op: Operation, h: Handle): map<string, Handle> {
    if !h.valid then handles
    else
      var first := if op.resultName != "" then handles[Normalize(op.resultName) := h] else handles;
      if op.resultText != "" then first[Normalize(op.resultText) := h] else first
  }

  /** What a using operation takes from its handle. */
  function Resolved(op: Operation, h: Handle): Operation {
    if !h.valid then op
    else
      var withId := if h.hasId then op.(id := h.id, hasId := true) else op;
      if !op.hasClass && ClassToValue(h.cls).Some?
      then withId.(classValue := ClassToValue(h.cls).value, hasClass := true)
      else withId
  }

  // ----- what the pass means, without its map

  /** The handle the pass holds for a name just before operation i: that of the latest earlier
      handle operation with the name whose handle is valid. */
  function Held(ops: seq<Operation>, rs: seq<Resource>, i: nat, name: string): Handle
    requires i <= |ops|
    decreases i, 0
  {
    if i == 0 then NO_HANDLE
    else if ops[i - 1].kind == ResourceHandle && Names(ops[i - 1], name) && HandleOf(ops, rs, i - 1).valid
    then HandleOf(ops, rs, i - 1)
    else Held(ops, rs, i - 1, name)
  }

  /** The handle operation i works with, chasing handle operations that only pass one on. */
  function HandleOf(ops: seq<Operation>, rs: seq<Resource>, i: nat): Handle
    requires i < |ops|
    decreases i, 1
  {
    var op := ops[i];
    var h := if IsRoot(op) then RootHandle(op, rs)
             else if OperandName(op) == "" then NO_HANDLE
             else Held(ops, rs, i, OperandName(op));
    if op.kind == ResourceHandle then Adjusted(op, h) else h
  }

  function Final(ops: seq<Operation>, rs: seq<Resource>, i: nat): Operation
    requires i < |ops|
  {
    if ops[i].kind == ResourceHandle then ops[i] else Resolved(ops[i], HandleOf(ops, rs, i))
  }

  function Propagated(ops: seq<Operation>, rs: seq<Resource>): (out: seq<Operation>)
    ensures |out| == |ops|
    ensures forall i :: 0 <= i < |ops| ==> out[i] == Final(ops, rs, i)
  {
    seq(|ops|, i requires 0 <= i < |ops| => Final(ops, rs, i))
  }

  // ----- what a handle is, field by field

  /** The class an operation states; values above 3 and no value at all leave it unknown. */
  predicate States(op: Operation, cls: ResourceClass) {
    if !op.hasClass || op.classValue > 3 then cls == Unknown
    else
      && (op.classValue == 0 ==> cls == Srv) && (op.classValue == 1 ==> cls == Uav)
      && (op.classValue == 2 ==> cls == Cbv) && (op.classValue == 3 ==> cls == Sampler)
  }

  lemma StatesExact(op: Operation, cls: ResourceClass)
    ensures OwnClass(op) == cls <==> States(op, cls)
  {
  }

  /** The resource is of this class and starts at the operation's register. */
  predicate BoundAt(r: Resource, op: Operation, cls: ResourceClass) {
    r.cls == cls && r.space == op.space && r.lower == op.lower
  }

  /** No resource before this one is bound there. */
  predicate FirstBound(rs: seq<Resource>, op: Operation, cls: ResourceClass, i: int) {
    0 <= i < |rs| && BoundAt(rs[i], op, cls) && forall j :: 0 <= j < i ==> !BoundAt(rs[j], op, cls)
  }

  /** The handle of an operation that names its resource itself: its own id, or else the id of the first
      resource bound at its register, if there is one. */
  ghost predicate Yields(op: Operation, rs: seq<Resource>, h: Handle) {
    && States(op, h.cls)
    && (op.hasId ==> h.hasId && h.id == op.id)
    && (!op.hasId ==> (h.hasId <==> exists i :: 0 <= i < |rs| && BoundAt(rs[i], op, h.cls)))
    && (!op.hasId && h.hasId ==> exists i :: FirstBound(rs, op, h.cls, i) && h.id == rs[i].id)
    && (!h.hasId ==> h.id == 0)
  }

  lemma {:induction false} BoundExact(op: Operation, cls: ResourceClass, rs: seq<Resource>)
    ensures var b := BoundResource(op, cls, rs);
            && (b.Some? <==> exists i :: 0 <= i < |rs| && BoundAt(rs[i], op, cls))
            && (b.Some? ==> exists i :: FirstBound(rs, op, cls, i) && b.value == rs[i].id)
    decreases |rs|
  {
    if rs != [] {
      if BoundAt(rs[0], op, cls) {
        assert FirstBound(rs, op, cls, 0);
      } else {
        var rest := rs[1..];
        BoundExact(op, cls, rest);
        if exists i :: 0 <= i < |rs| && BoundAt(rs[i], op, cls) {
          var i :| 0 <= i < |rs| && BoundAt(rs[i], op, cls);
          assert rest[i - 1] == rs[i];
        }
        if BoundResource(op, cls, rest).Some? {
          var i :| FirstBound(rest, op, cls, i) && BoundResource(op, cls, rest).value == rest[i].id;
          forall j | 0 <= j < i + 1 ensures !BoundAt(rs[j], op, cls) {
            if j > 0 { assert rs[j] == rest[j - 1]; }
          }
          assert FirstBound(rs, op, cls, i + 1);
        }
      }
    }
  }

  lemma RootExact(op: Operation, rs: seq<Resource>)
    requires op.hasId || (op.kind == ResourceHandle && op.hasBinding)
    ensures IsRoot(op) && Yields(op, rs, RootHandle(op, rs))
    ensures RootHandle(op, rs).valid <==> !States(op, Unknown)
  {
    hide BoundResource, BoundAt, FirstBound;
    StatesExact(op, OwnClass(op));
    StatesExact(op, Unknown);
    BoundExact(op, OwnClass(op), rs);
  }

  /** What the root of a chain yields: a handle that is valid when the class is known, or on the strength
      of a binding alone when the root makes a handle. */
  lemma YieldExact(ops: seq<Operation>, rs: seq<Resource>, i: nat)
    requires i < |ops| && (ops[i].hasId || (ops[i].kind == ResourceHandle && ops[i].hasBinding))
    ensures IsRoot(ops[i]) && Yields(ops[i], rs, RootYield(ops, rs, i))
    ensures RootYield(ops, rs, i).valid
       <==> !States(ops[i], Unknown) || (ops[i].kind == ResourceHandle && ops[i].hasBinding)
  {
    hide RootHandle, States, FirstBound, BoundAt;
    RootExact(ops[i], rs);
  }

  /** The name is the text, without one leading percent sign if it has one. */
  lemma NormalizeExact(text: string, name: string)
    ensures Normalize(text) == name
       <==> text == "%" + name || (text == name && (name == "" || name[0] != '%'))
  {
  }

  /** The text is the name, with or without a percent sign before it. */
  predicate TextNames(text: string, name: string) {
    text == "%" + name || (text == name && name != "" && name[0] != '%')
  }

  /** An operation defines a name by its result's name or by its result's text. */
  lemma DefinesExact(op: Operation, name: string)
    ensures Defines(op, name) <==>
              && op.kind == ResourceHandle && name != ""
              && (TextNames(op.resultName, name) || TextNames(op.resultText, name))
  {
    hide Normalize;
    NormalizeExact(op.resultName, name);
    NormalizeExact(op.resultText, name);
  }

  /** What an operation has after the pass when its handle is h: an id of the handle's, and its class
      when the operation states none; nothing else changes, and nothing at all without a valid handle. */
  predicate Takes(before: Operation, after: Operation, h: Handle) {
    && after == before.(id := after.id, hasId := after.hasId, classValue := after.classValue,
                        hasClass := after.hasClass)
    && (if h.valid && h.hasId then after.hasId && after.id == h.id
        else after.hasId == before.hasId && after.id == before.id)
    && (if h.valid && !before.hasClass && h.cls != Unknown then after.hasClass && States(after, h.cls)
        else after.hasClass == before.hasClass && after.classValue == before.classValue)
  }

  lemma TakesExact(op: Operation, h: Handle)
    ensures Takes(op, Resolved(op, h), h)
  {
  }

  // ----- the pass

  /** The map holds, for every name, what Held says; names without a valid handle are absent. */
  ghost predicate MapHolds(ops: seq<Operation>, rs: seq<Resource>, i: nat, handles: map<string, Handle>)
    requires i <= |ops|
  {
    forall name :: (if name in handles then handles[name] else NO_HANDLE) == Held(ops, rs, i, name)
  }

  lemma StoreHolds(ops: seq<Operation>, rs: seq<Resource>, i: nat, handles: map<string, Handle>)
    requires i < |ops| && MapHolds(ops, rs, i, handles)
    ensures ops[i].kind == ResourceHandle ==> MapHolds(ops, rs, i + 1, Store(handles, ops[i], HandleOf(ops, rs, i)))
    ensures ops[i].kind != ResourceHandle ==> MapHolds(ops, rs, i + 1, handles)
  {
    hide HandleOf, Normalize;
    if ops[i].kind == ResourceHandle {
      var stored := Store(handles, ops[i], HandleOf(ops, rs, i));
      forall name
        ensures (if name in stored then stored[name] else NO_HANDLE) == Held(ops, rs, i + 1, name)
      {
        assert (if name in handles then handles[name] else NO_HANDLE) == Held(ops, rs, i, name);
      }
    } else {
      forall name
        ensures (if name in handles then handles[name] else NO_HANDLE) == Held(ops, rs, i + 1, name)
      {
        assert (if name in handles then handles[name] else NO_HANDLE) == Held(ops, rs, i, name);
      }
    }
  }

  lemma UseHolds(ops: seq<Operation>, rs: seq<Resource>, i: nat, handles: map<string, Handle>)
    requires i < |ops| && MapHolds(ops, rs, i, handles)
    ensures var h := UseHandle(ops[i], rs, handles);
            HandleOf(ops, rs, i) == if ops[i].kind == ResourceHandle then Adjusted(ops[i], h) else h
  {
    hide Normalize, Held, RootHandle;
    assert (if OperandName(ops[i]) in handles then handles[OperandName(ops[i])] else NO_HANDLE)
      == Held(ops, rs, i, OperandName(ops[i]));
  }

  /** The handle stored under the operand's name; none for no operand, an empty name or an unknown one. */
  ghost predicate HeldFor(operand: Option<string>, handles: map<string, Handle>, h: Handle) {
    if operand.None? || operand.value == "" || operand.value == "%" then h == Handle(Unknown, 0, false, false)
    else
      var text := operand.value;
      var name := if text[0] == '%' then text[1..] else text;
      h == if name in handles then handles[name] else Handle(Unknown, 0, false, false)
  }

  /** The handle an operation works with, given the handles stored so far. An operation that names its
      resource by binding gets the first resource of its class, space and register. */
  method ResourceUseHandle(op: Operation, resources: seq<Resource>, handles: map<string, Handle>) returns (h: Handle)
    ensures h == UseHandle(op, resources, handles)
    ensures op.hasId || (op.kind == ResourceHandle && op.hasBinding) ==>
              Yields(op, resources, h) && (h.valid <==> !States(op, Unknown))
    ensures !op.hasId && (op.kind != ResourceHandle || !op.hasBinding) ==>
              HeldFor(op.operand, handles, h)
  {
    hide BoundAt, FirstBound;
    if op.hasId || (op.kind == ResourceHandle && op.hasBinding) { RootExact(op, resources); }
    var cls := OwnClass(op);
    if op.hasId { return Handle(cls, op.id, true, cls != Unknown); }
    if op.kind == ResourceHandle && op.hasBinding {
      h := Handle(cls, 0, false, cls != Unknown);
      var i := 0;
      while i < |resources|
        invariant 0 <= i <= |resources| && h == Handle(cls, 0, false, cls != Unknown)
        invariant BoundResource(op, cls, resources) == BoundResource(op, cls, resources[i..])
      {
        var r := resources[i];
        if r.cls == cls && r.space == op.space && r.lower == op.lower {
          h := Handle(cls, r.id, true, cls != Unknown);
          break;
        }
        i := i + 1;
      }
      return;
    }
    var name := OperandName(op);
    if name != "" && name in handles { return handles[name]; }
    h := NO_HANDLE;
  }

  /** The single forward pass over the operations, in place. */
  method PropagateResourceUses(operations: array<Operation>, resources: seq<Resource>)
    modifies operations
    ensures operations[..] == Propagated(old(operations[..]), resources)
    ensures forall i :: 0 <= i < operations.Length ==>
              if old(operations[i]).kind == ResourceHandle then operations[i] == old(operations[i])
              else Takes(old(operations[i]), operations[i], HandleOf(old(operations[..]), resources, i))
  {
    hide UseHandle, HandleOf, Held, Store, Resolved, Takes;
    ghost var ops := operations[..];
    var handles: map<string, Handle> := map[];
    EmptyHolds(ops, resources);
    var i := 0;
    while i < operations.Length
      invariant 0 <= i <= operations.Length
      invariant operations[i..] == ops[i..]
      invariant forall k :: 0 <= k < i ==> operations[k] == Final(ops, resources, k)
      invariant MapHolds(ops, resources, i, handles)
    {
      var op := operations[i];
      assert op == operations[i..][0] == ops[i];
      UseHolds(ops, resources, i, handles);
      StoreHolds(ops, resources, i, handles);
      var h := ResourceUseHandle(op, resources, handles);
      if op.kind == ResourceHandle {
        handles := Store(handles, op, Adjusted(op, h));
      } else {
        operations[i] := Resolved(op, h);
      }
      assert operations[i + 1..] == ops[i + 1..];
      i := i + 1;
    }
    assert operations[..] == Propagated(ops, resources);
    forall i | 0 <= i < |ops| && ops[i].kind != ResourceHandle
      ensures Takes(ops[i], operations[i], HandleOf(ops, resources, i))
    {
      TakesExact(ops[i], HandleOf(ops, resources, i));
    }
  }

  lemma EmptyHolds(ops: seq<Operation>, rs: seq<Resource>)
    ensures MapHolds(ops, rs, 0, map[])
  {
  }

  // ----- the pass is idempotent

  lemma {:induction false} HandlesKept(ops: seq<Operation>, rs: seq<Resource>, i: nat, name: string)
    requires i <= |ops|
    ensures Held(Propagated(ops, rs), rs, i, name) == Held(ops, rs, i, name)
    decreases i, 0
  {
    hide HandleOf, Resolved, Names;
    if i > 0 {
      HandlesKept(ops, rs, i - 1, name);
      ResolvedKind(ops[i - 1], HandleOf(ops, rs, i - 1));
      if ops[i - 1].kind == ResourceHandle { HandleOpKept(ops, rs, i - 1); }
    }
  }

  lemma ResolvedKind(op: Operation, h: Handle)
    ensures Resolved(op, h).kind == op.kind && OperandName(Resolved(op, h)) == OperandName(op)
  {
  }

  lemma {:induction false} HandleOpKept(ops: seq<Operation>, rs: seq<Resource>, i: nat)
    requires i < |ops| && ops[i].kind == ResourceHandle
    ensures HandleOf(Propagated(ops, rs), rs, i) == HandleOf(ops, rs, i)
    decreases i, 1
  {
    hide Held, Resolved;
    HandlesKept(ops, rs, i, OperandName(ops[i]));
  }

  /** Running the pass again changes nothing, for any operations at all. */
  lemma PassIdempotent(ops: seq<Operation>, rs: seq<Resource>)
    ensures Propagated(Propagated(ops, rs), rs) == Propagated(ops, rs)
  {
    var once := Propagated(ops, rs);
    forall i | 0 <= i < |ops| ensures Final(once, rs, i) == once[i] {
      if ops[i].kind != ResourceHandle { UseStable(ops, rs, i); }
    }
  }

  lemma UseStable(ops: seq<Operation>, rs: seq<Resource>, i: nat)
    requires i < |ops| && ops[i].kind != ResourceHandle
    ensures Final(Propagated(ops, rs), rs, i) == Propagated(ops, rs)[i]
  {
    hide Held;
    var op, h := ops[i], HandleOf(ops, rs, i);
    ResolvedKind(op, h);
    HandlesKept(ops, rs, i, OperandName(op));
    ClassRoundTrip(h.cls);
  }

  lemma ClassRoundTrip(c: ResourceClass)
    ensures ClassToValue(c).Some? ==> ClassFromValue(ClassToValue(c).value) == c
    ensures ClassToValue(c).None? <==> c == Unknown
  {
  }

  // ----- definition chains

  /** Operation j defines the handle named name. */
  predicate Defines(op: Operation, name: string) { op.kind == ResourceHandle && name != "" && Names(op, name) }

  /** Names are defined once, and before they are used. */
  ghost predicate SingleAssignment(ops: seq<Operation>) {
    && (forall i, j, name :: 0 <= i < j < |ops| && Defines(ops[i], name) ==> !Defines(ops[j], name))
    && (forall i, j :: 0 <= i <= j < |ops| ==> !Defines(ops[j], OperandName(ops[i])))
  }

  /** The definition chain of operation i: each operation's operand is defined by the next, and the
      last one names its resource itself. */
  ghost predicate ChainTo(ops: seq<Operation>, chain: seq<nat>, i: nat) {
    && chain != [] && chain[0] == i
    && (forall k :: 0 <= k < |chain| ==> chain[k] < |ops|)
    && (forall k :: 0 <= k < |chain| - 1 ==>
          !IsRoot(ops[chain[k]]) && Defines(ops[chain[k + 1]], OperandName(ops[chain[k]])))
    && IsRoot(ops[chain[|chain| - 1]])
  }

  /** What the root of a chain yields. */
  function RootYield(ops: seq<Operation>, rs: seq<Resource>, i: nat): Handle
    requires i < |ops| && IsRoot(ops[i])
  {
    if ops[i].kind == ResourceHandle then Adjusted(ops[i], RootHandle(ops[i], rs)) else RootHandle(ops[i], rs)
  }

  /** With a single definition before i, the pass holds that definition's handle, if it is valid. */
  lemma {:induction false} HeldIsDefinition(ops: seq<Operation>, rs: seq<Resource>, n: nat, j: nat, name: string)
    requires SingleAssignment(ops) && j < n <= |ops| && Defines(ops[j], name)
    ensures Held(ops, rs, n, name) == if HandleOf(ops, rs, j).valid then HandleOf(ops, rs, j) else NO_HANDLE
    decreases n
  {
    hide HandleOf, Names;
    if n - 1 == j {
      if !HandleOf(ops, rs, j).valid { NothingHeld(ops, rs, j, name); }
    } else {
      assert !Defines(ops[n - 1], name);
      HeldIsDefinition(ops, rs, n - 1, j, name);
    }
  }

  lemma {:induction false} NothingHeld(ops: seq<Operation>, rs: seq<Resource>, n: nat, name: string)
    requires n <= |ops| && name != "" && (forall k :: 0 <= k < n ==> !Defines(ops[k], name))
    ensures Held(ops, rs, n, name) == NO_HANDLE
  {
    hide HandleOf, Names;
    if n > 0 { NothingHeld(ops, rs, n - 1, name); }
  }

  ghost predicate SameWhenValid(h: Handle, root: Handle) { if root.valid then h == root else !h.valid }

  /** When names are defined once and before use, the pass gives operation i exactly what the root
      of its definition chain yields: same id and class, or no handle when the root has none. */
  lemma {:induction false} ChainResolves(ops: seq<Operation>, rs: seq<Resource>, chain: seq<nat>, i: nat)
    requires SingleAssignment(ops) && ChainTo(ops, chain, i)
    ensures var root := chain[|chain| - 1];
            Yields(ops[root], rs, RootYield(ops, rs, root))
            && SameWhenValid(HandleOf(ops, rs, i), RootYield(ops, rs, root))
    decreases |chain|
  {
    hide Held, Names, RootHandle, Yields;
    YieldExact(ops, rs, chain[|chain| - 1]);
    if |chain| > 1 {
      var j, name := chain[1], OperandName(ops[i]);
      assert Defines(ops[j], name);
      assert j < i;
      assert ChainTo(ops, chain[1..], j);
      ChainResolves(ops, rs, chain[1..], j);
      HeldIsDefinition(ops, rs, i, j, name);
    }
  }

  /** So after the pass the operation has the id the root names or finds by its binding, whichever handle
      operations passed it on. */
  lemma UseTakesRoot(ops: seq<Operation>, rs: seq<Resource>, chain: seq<nat>, i: nat, h: Handle)
    requires SingleAssignment(ops) && ChainTo(ops, chain, i) && ops[i].kind != ResourceHandle
    requires var root := ops[chain[|chain| - 1]];
             Yields(root, rs, h) && (h.valid <==> h.cls != Unknown || (root.kind == ResourceHandle && root.hasBinding))
    ensures Takes(ops[i], Propagated(ops, rs)[i], h)
  {
    hide HandleOf, Resolved, RootYield, IsRoot;
    var last := chain[|chain| - 1];
    ChainResolves(ops, rs, chain, i);
    RootKinds(ops[last]);
    YieldExact(ops, rs, last);
    OneYield(ops[last], rs, h, RootYield(ops, rs, last));
    TakesExact(ops[i], HandleOf(ops, rs, i));
    if !h.valid { TakesNothing(ops[i], Propagated(ops, rs)[i], HandleOf(ops, rs, i), h); }
  }

  lemma RootKinds(op: Operation)
    ensures IsRoot(op) <==> op.hasId || (op.kind == ResourceHandle && op.hasBinding)
  {
  }

  lemma TakesNothing(op: Operation, after: Operation, g: Handle, h: Handle)
    requires !g.valid && !h.valid
    ensures Takes(op, after, g) <==> Takes(op, after, h)
  {
  }

  lemma OneYield(op: Operation, rs: seq<Resource>, g: Handle, h: Handle)
    requires Yields(op, rs, g) && Yields(op, rs, h)
    ensures g.cls == h.cls && g.id == h.id && g.hasId == h.hasId
  {
    hide BoundAt;
    if !op.hasId && g.hasId {
      var i :| FirstBound(rs, op, g.cls, i) && g.id == rs[i].id;
      var j :| FirstBound(rs, op, h.cls, j) && h.id == rs[j].id;
      assert i <= j && j <= i;
    }
  }

  /** Conversely, an operation with a valid handle has a definition chain, on any operations. */
  lemma {:induction false} ValidHasChain(ops: seq<Operation>, rs: seq<Resource>, i: nat) returns (chain: seq<nat>)
    requires i < |ops| && HandleOf(ops, rs, i).valid
    ensures ChainTo(ops, chain, i)
    decreases i, 1
  {
    hide Held, Names, RootHandle;
    if IsRoot(ops[i]) {
      chain := [i];
    } else {
      var j := HeldDefinition(ops, rs, i, OperandName(ops[i]));
      var rest := ValidHasChain(ops, rs, j);
      chain := [i] + rest;
    }
  }

  lemma {:induction false} HeldDefinition(ops: seq<Operation>, rs: seq<Resource>, n: nat, name: string) returns (j: nat)
    requires n <= |ops| && name != "" && Held(ops, rs, n, name).valid
    ensures j < n && Defines(ops[j], name) && HandleOf(ops, rs, j).valid
    decreases n, 0
  {
    hide HandleOf, Names;
    if Defines(ops[n - 1], name) && HandleOf(ops, rs, n - 1).valid {
      j := n - 1;
    } else {
      j := HeldDefinition(ops, rs, n - 1, name);
    }
  }

  // ----- one map for all functions

  lemma {:induction false} PrefixHeld(a: seq<Operation>, b: seq<Operation>, rs: seq<Resource>, i: nat, name: string)
    requires i <= |a|
    ensures Held(a + b, rs, i, name) == Held(a, rs, i, name)
    decreases i, 0
  {
    hide Names, HandleOf;
    if i > 0 {
      PrefixHeld(a, b, rs, i - 1, name);
      PrefixHandle(a, b, rs, i - 1);
    }
  }

  lemma {:induction false} PrefixHandle(a: seq<Operation>, b: seq<Operation>, rs: seq<Resource>, i: nat)
    requires i < |a|
    ensures HandleOf(a + b, rs, i) == HandleOf(a, rs, i)
    decreases i, 1
  {
    hide Held, RootHandle;
    PrefixHeld(a, b, rs, i, OperandName(a[i]));
  }

  ghost predicate Agree(a: seq<Operation>, b: seq<Operation>, rs: seq<Resource>, i: nat)
    requires i < |b|
  {
    HandleOf(a + b, rs, |a| + i) == HandleOf(b, rs, i)
  }

  /** Names of b hide those of a from where b defines them. */
  lemma {:induction false} HeldConcat(a: seq<Operation>, b: seq<Operation>, rs: seq<Resource>, i: nat, name: string)
    requires i <= |b| && forall k: nat :: k < i ==> Agree(a, b, rs, k)
    ensures Held(a + b, rs, |a| + i, name) == if Held(b, rs, i, name).valid then Held(b, rs, i, name)
            else Held(a, rs, |a|, name)
    decreases i
  {
    hide HandleOf, Names;
    if i == 0 {
      PrefixHeld(a, b, rs, |a|, name);
    } else {
      HeldConcat(a, b, rs, i - 1, name);
      assert Agree(a, b, rs, i - 1) && (a + b)[|a| + i - 1] == b[i - 1];
    }
  }

  /** Handle operations that lead back from a name, each defining what the one before it works on, to
      one that names its resource itself and yields a valid handle; the first stands before n. */
  ghost predicate LeadsTo(ops: seq<Operation>, rs: seq<Resource>, chain: seq<nat>, n: nat, name: string)
    requires n <= |ops|
  {
    && chain != [] && chain[0] < n && (forall k :: 0 <= k < |chain| - 1 ==> chain[k + 1] < chain[k])
    && (forall k :: 0 <= k < |chain| ==> chain[k] < |ops|)
    && Defines(ops[chain[0]], name)
    && (forall k :: 0 <= k < |chain| - 1 ==>
          !IsRoot(ops[chain[k]]) && Defines(ops[chain[k + 1]], OperandName(ops[chain[k]])))
    && var root := chain[|chain| - 1];
       IsRoot(ops[root]) && RootYield(ops, rs, root).valid
  }

  /** Some definition chain of the first n operations gives the name a valid handle. */
  ghost predicate HasHandle(ops: seq<Operation>, rs: seq<Resource>, n: nat, name: string)
    requires n <= |ops|
  {
    exists chain :: LeadsTo(ops, rs, chain, n, name)
  }

  lemma {:induction false} ChainGivesHandle(
    ops: seq<Operation>, rs: seq<Resource>, chain: seq<nat>, n: nat, name: string)
    requires n <= |ops| && LeadsTo(ops, rs, chain, n, name)
    ensures Held(ops, rs, n, name).valid
    decreases |chain|
  {
    hide Held, Names, RootHandle;
    var j := chain[0];
    if |chain| > 1 {
      var next := OperandName(ops[j]);
      assert LeadsTo(ops, rs, chain[1..], j, next);
      ChainGivesHandle(ops, rs, chain[1..], j, next);
    }
    assert HandleOf(ops, rs, j).valid;
    ValidIsHeld(ops, rs, n, j, name);
  }

  lemma {:induction false} ValidIsHeld(ops: seq<Operation>, rs: seq<Resource>, n: nat, j: nat, name: string)
    requires j < n <= |ops| && Defines(ops[j], name) && HandleOf(ops, rs, j).valid
    ensures Held(ops, rs, n, name).valid
    decreases n
  {
    hide HandleOf, Names;
    if n - 1 > j { ValidIsHeld(ops, rs, n - 1, j, name); }
  }

  lemma {:induction false} HandleHasChain(ops: seq<Operation>, rs: seq<Resource>, n: nat, name: string)
    returns (chain: seq<nat>)
    requires n <= |ops| && name != "" && Held(ops, rs, n, name).valid
    ensures LeadsTo(ops, rs, chain, n, name)
    decreases n
  {
    hide Held, Names, RootHandle;
    var j := HeldDefinition(ops, rs, n, name);
    if IsRoot(ops[j]) {
      chain := [j];
    } else {
      var rest := HandleHasChain(ops, rs, j, OperandName(ops[j]));
      chain := [j] + rest;
    }
  }

  /** On any operations, a name is held after the first n exactly when a definition chain leads from it
      to a valid root. */
  lemma HeldIffChain(ops: seq<Operation>, rs: seq<Resource>, n: nat, name: string)
    requires n <= |ops| && name != ""
    ensures Held(ops, rs, n, name).valid <==> HasHandle(ops, rs, n, name)
  {
    hide Held, LeadsTo;
    if Held(ops, rs, n, name).valid {
      var chain := HandleHasChain(ops, rs, n, name);
    }
    if HasHandle(ops, rs, n, name) {
      var chain :| LeadsTo(ops, rs, chain, n, name);
      ChainGivesHandle(ops, rs, chain, n, name);
    }
  }

  /** Operation i of b names no resource itself, its operand has a definition chain in a, and none in
      b before it. */
  ghost predicate Leaks(a: seq<Operation>, b: seq<Operation>, rs: seq<Resource>, i: nat)
    requires i < |b|
  {
    var name := OperandName(b[i]);
    !IsRoot(b[i]) && name != "" && HasHandle(a, rs, |a|, name) && !HasHandle(b, rs, i, name)
  }

  lemma AgreeStep(a: seq<Operation>, b: seq<Operation>, rs: seq<Resource>, i: nat)
    requires i < |b| && forall k: nat :: k < i ==> Agree(a, b, rs, k)
    ensures Agree(a, b, rs, i) <==> !Leaks(a, b, rs, i)
  {
    hide Held, Names, RootHandle, HasHandle;
    var name := OperandName(b[i]);
    if name != "" {
      HeldIffChain(a, rs, |a|, name);
      HeldIffChain(b, rs, i, name);
    }
    HeldConcat(a, b, rs, i, OperandName(b[i]));
    HeldOrNone(a, rs, |a|, OperandName(b[i]));
    HeldOrNone(b, rs, i, OperandName(b[i]));
    assert (a + b)[|a| + i] == b[i];
  }

  lemma {:induction false} HeldOrNone(ops: seq<Operation>, rs: seq<Resource>, n: nat, name: string)
    requires n <= |ops|
    ensures !Held(ops, rs, n, name).valid ==> Held(ops, rs, n, name) == NO_HANDLE
    decreases n
  {
    hide HandleOf, Names;
    if n > 0 { HeldOrNone(ops, rs, n - 1, name); }
  }

  lemma {:induction false} AgreeUpTo(a: seq<Operation>, b: seq<Operation>, rs: seq<Resource>, n: nat)
    requires n <= |b| && forall i: nat :: i < n ==> !Leaks(a, b, rs, i)
    ensures forall i: nat :: i < n ==> Agree(a, b, rs, i)
  {
    hide Agree, Leaks;
    if n > 0 {
      AgreeUpTo(a, b, rs, n - 1);
      AgreeStep(a, b, rs, n - 1);
    }
  }

  lemma {:induction false} NoLeakUpTo(a: seq<Operation>, b: seq<Operation>, rs: seq<Resource>, n: nat)
    requires n <= |b| && forall i: nat :: i < n ==> Agree(a, b, rs, i)
    ensures forall i: nat :: i < n ==> !Leaks(a, b, rs, i)
  {
    hide Agree, Leaks;
    if n > 0 {
      NoLeakUpTo(a, b, rs, n - 1);
      AgreeStep(a, b, rs, n - 1);
    }
  }

  /** After the operations a of earlier functions, those of b get the handles they would get alone
      exactly when none has an operand with a definition chain in a and none before it in b. */
  lemma FunctionsSeparateIff(a: seq<Operation>, b: seq<Operation>, rs: seq<Resource>)
    ensures (forall i: nat :: i < |b| ==> Agree(a, b, rs, i)) <==> (forall i: nat :: i < |b| ==> !Leaks(a, b, rs, i))
  {
    hide Agree, Leaks;
    if forall i: nat :: i < |b| ==> !Leaks(a, b, rs, i) { AgreeUpTo(a, b, rs, |b|); }
    if forall i: nat :: i < |b| ==> Agree(a, b, rs, i) { NoLeakUpTo(a, b, rs, |b|); }
  }

  const CREATE := Operation(ResourceHandle, "", "%1", "", None, true, 5, false, 0, 0, true, 0)
  const USE := Operation(ResourceRead, "", "", "", Some("%1"), false, 0, false, 0, 0, false, 0)

  /** A witness: a use in one function takes the handle another function made under the same name, though
      every name is defined once. */
  lemma NameLeaks(rs: seq<Resource>)
    ensures SingleAssignment([CREATE] + [USE])
    ensures Propagated([USE], rs) == [USE]
    ensures Propagated([CREATE] + [USE], rs)
         == [CREATE, USE.(id := 5, hasId := true, classValue := 0, hasClass := true)]
  {
    var ops := [CREATE] + [USE];
    assert ops == [CREATE, USE];
    assert OperandName(USE) == "1" && Normalize(CREATE.resultName) == "1";
    assert HandleOf([USE], rs, 0) == Held([USE], rs, 0, "1") == NO_HANDLE;
    assert HandleOf(ops, rs, 0) == Handle(Srv, 5, true, true);
    assert Names(CREATE, "1");
    assert HandleOf(ops, rs, 1) == Held(ops, rs, 1, "1") == Handle(Srv, 5, true, true);
  }

  lemma NoDefinitionNoHandle(a: seq<Operation>, rs: seq<Resource>, name: string)
    requires forall j :: 0 <= j < |a| ==> !Defines(a[j], name)
    ensures !HasHandle(a, rs, |a|, name)
  {
    hide RootYield, Names;
  }

  /** In particular when no operand name of b is defined in a; then the pass leaves b as alone. */
  lemma FunctionsSeparate(a: seq<Operation>, b: seq<Operation>, rs: seq<Resource>)
    requires forall i, j :: 0 <= i < |b| && 0 <= j < |a| ==> !Defines(a[j], OperandName(b[i]))
    ensures Propagated(a + b, rs)[|a|..] == Propagated(b, rs)
  {
    hide HandleOf, Held, Names, Resolved;
    forall i: nat | i < |b| ensures !Leaks(a, b, rs, i) { NoDefinitionNoHandle(a, rs, OperandName(b[i])); }
    AgreeUpTo(a, b, rs, |b|);
    var whole, alone := Propagated(a + b, rs)[|a|..], Propagated(b, rs);
    forall i: nat | i < |b| ensures whole[i] == alone[i] {
      assert Agree(a, b, rs, i) && (a + b)[|a| + i] == b[i];
    }
  }

  // ----- usage flags

  predicate Matches(r: Resource, op: Operation) {
    || (op.hasId && op.id == r.id)
    || (op.hasBinding && (!op.hasClass || ClassFromValue(op.classValue) == r.cls)
        && op.space == r.space && op.lower == r.lower)
  }

  predicate IsCounterUpdate(name: string) { name == "BufferUpdateCounter" }

  predicate IsComparison(name: string) {
    name == "SampleCmp" || name == "SampleCmpLevelZero" || name == "SampleCmpLevel"
    || name == "SampleCmpGrad" || name == "SampleCmpBias" || name == "TextureGatherCmp"
  }

  /** One operation applied to one resource. */
  function Applied(r: Resource, op: Operation): Resource {
    if !Matches(r, op) then r
    else match op.kind
         case ResourceHandle => r.(byHandle := true)
         case ResourceRead => r.(read := true)
         case ResourceWrite =>
           if IsCounterUpdate(op.opcodeName) then r.(written := true, read := true, counter := true)
             else r.(written := true)
         case ResourceSample =>
           if IsComparison(op.opcodeName) then r.(sampled := true, read := true, compared := true)
             else r.(sampled := true, read := true)
         case ResourceQuery => r.(queried := true)
         case OtherKind => r
  }

  function AppliedAll(r: Resource, ops: seq<Operation>): Resource {
    if ops == [] then r else Applied(AppliedAll(r, ops[..|ops| - 1]), ops[|ops| - 1])
  }

  datatype Flag = ByHandle | Read | Written | Sampled | Compared | Queried | Counter

  /** Which flags a kind of operation sets. */
  predicate Sets(op: Operation, f: Flag) {
    match f
    case ByHandle => op.kind == ResourceHandle
    case Read => op.kind == ResourceRead || op.kind == ResourceSample
        || (op.kind == ResourceWrite && IsCounterUpdate(op.opcodeName))
    case Written => op.kind == ResourceWrite
    case Sampled => op.kind == ResourceSample
    case Compared => op.kind == ResourceSample && IsComparison(op.opcodeName)
    case Queried => op.kind == ResourceQuery
    case Counter => op.kind == ResourceWrite && IsCounterUpdate(op.opcodeName)
  }

  /** Some operation of the list matches the resource and sets the flag. */
  ghost predicate AnySets(r: Resource, ops: seq<Operation>, f: Flag) {
    exists op :: op in ops && Matches(r, op) && Sets(op, f)
  }

  /** The flags as a property of the set of operations. */
  ghost function Flagged(r: Resource, ops: seq<Operation>): Resource {
    r.(byHandle := r.byHandle || AnySets(r, ops, ByHandle), read := r.read || AnySets(r, ops, Read),
       written := r.written || AnySets(r, ops, Written), sampled := r.sampled || AnySets(r, ops, Sampled),
       compared := r.compared || AnySets(r, ops, Compared), queried := r.queried || AnySets(r, ops, Queried),
       counter := r.counter || AnySets(r, ops, Counter))
  }

  lemma SomeSnoc(r: Resource, ops: seq<Operation>, op: Operation, f: Flag)
    ensures AnySets(r, ops + [op], f) <==> AnySets(r, ops, f) || (Matches(r, op) && Sets(op, f))
  {
    assert forall x :: x in ops + [op] <==> x in ops || x == op;
  }

  /** One operation, flag by flag. */
  lemma AppliedFlags(r: Resource, op: Operation)
    ensures var hit := Matches(r, op);
            Applied(r, op) ==
            r.(byHandle := r.byHandle || (hit && Sets(op, ByHandle)), read := r.read || (hit && Sets(op, Read)),
               written := r.written || (hit && Sets(op, Written)), sampled := r.sampled || (hit && Sets(op, Sampled)),
               compared := r.compared || (hit && Sets(op, Compared)),
               queried := r.queried || (hit && Sets(op, Queried)),
               counter := r.counter || (hit && Sets(op, Counter)))
  {
    hide Matches, IsComparison, IsCounterUpdate;
  }

  lemma FlaggedSnoc(r: Resource, front: seq<Operation>, op: Operation)
    ensures Applied(Flagged(r, front), op) == Flagged(r, front + [op])
  {
    AppliedFlags(Flagged(r, front), op);
    assert Matches(Flagged(r, front), op) == Matches(r, op);
    hide AnySets, Matches, Applied, Sets;
    SomeSnoc(r, front, op, ByHandle);
    SomeSnoc(r, front, op, Read);
    SomeSnoc(r, front, op, Written);
    SomeSnoc(r, front, op, Sampled);
    SomeSnoc(r, front, op, Compared);
    SomeSnoc(r, front, op, Queried);
    SomeSnoc(r, front, op, Counter);
  }

  /** Each flag is set exactly when it was, or when some matching operation sets it. */
  lemma {:induction false} FlagsExact(r: Resource, ops: seq<Operation>)
    ensures AppliedAll(r, ops) == Flagged(r, ops)
  {
    hide AnySets, Applied;
    if ops == [] {
      NoneSet(r);
    } else {
      hide Flagged;
      var front, op := ops[..|ops| - 1], ops[|ops| - 1];
      FlagsExact(r, front);
      assert ops == front + [op];
      FlaggedSnoc(r, front, op);
    }
  }

  lemma NoneSet(r: Resource)
    ensures forall f :: !AnySets(r, [], f)
  {
  }

  /** The operation points at the resource: by id, whatever its class, or by a binding at its register
      whose class, if stated, is the resource's. */
  predicate Points(op: Operation, r: Resource) {
    || (op.hasId && op.id == r.id)
    || (op.hasBinding && op.space == r.space && op.lower == r.lower && (op.hasClass ==> States(op, r.cls)))
  }

  /** A sampling operation that compares, by name. */
  const COMPARING: set<string> := {
    "SampleCmp", "SampleCmpLevelZero", "SampleCmpLevel", "SampleCmpGrad", "SampleCmpBias", "TextureGatherCmp"
  }

  /** What the operations leave of a resource: its place is kept, and each flag is set exactly when it was
      or some operation of the right kind points at it. Updating a buffer's counter also reads it, and
      so does sampling. */
  ghost predicate Marked(before: Resource, after: Resource, ops: seq<Operation>) {
    && after.cls == before.cls && after.id == before.id && after.space == before.space && after.lower == before.lower
    && (after.byHandle <==> before.byHandle || exists op ::
            op in ops && Points(op, before) && op.kind == ResourceHandle)
    && (after.read <==> before.read || exists op ::
            op in ops && Points(op, before)
            && (op.kind == ResourceRead || op.kind == ResourceSample
                || (op.kind == ResourceWrite && op.opcodeName == "BufferUpdateCounter")))
    && (after.written <==> before.written || exists op :: op in ops && Points(op, before) && op.kind == ResourceWrite)
    && (after.sampled <==> before.sampled || exists op :: op in ops && Points(op, before) && op.kind == ResourceSample)
    && (after.compared <==> before.compared || exists op ::
            op in ops && Points(op, before) && op.kind == ResourceSample && op.opcodeName in COMPARING)
    && (after.queried <==> before.queried || exists op :: op in ops && Points(op, before) && op.kind == ResourceQuery)
    && (after.counter <==> before.counter || exists op ::
            op in ops && Points(op, before) && op.kind == ResourceWrite && op.opcodeName == "BufferUpdateCounter")
  }

  lemma PointsExact(op: Operation, r: Resource)
    ensures Matches(r, op) <==> Points(op, r)
  {
  }

  lemma ComparingExact(name: string)
    ensures IsComparison(name) <==> name in COMPARING
  {
  }

  /** Which operations mark which resource, in the fields of both. */
  lemma MarkedExact(r: Resource, ops: seq<Operation>)
    ensures Marked(r, AppliedAll(r, ops), ops)
  {
    hide Matches, Points, AppliedAll, IsComparison;
    FlagsExact(r, ops);
    forall op ensures Matches(r, op) <==> Points(op, r) { PointsExact(op, r); }
    forall name ensures IsComparison(name) <==> name in COMPARING { ComparingExact(name); }
  }

  /** The final flags do not depend on the order or repetition of the operations. */
  lemma FlagsOrderFree(r: Resource, ops: seq<Operation>, ops': seq<Operation>)
    requires forall op :: op in ops <==> op in ops'
    ensures AppliedAll(r, ops) == AppliedAll(r, ops')
  {
    FlagsExact(r, ops);
    FlagsExact(r, ops');
  }

  /** An operation that names a resource by its class and id, and no binding. */
  predicate Addresses(op: Operation, r: Resource) {
    op.hasId && op.id == r.id && op.hasClass && ClassFromValue(op.classValue) == r.cls && !op.hasBinding
  }

  function Unflagged(r: Resource): Resource
  {
    Resource(r.cls, r.id, r.space, r.lower, false, false, false, false, false, false, false)
  }

  /** Operations that all address one resource leave the flags of those of other classes alone. */
  ghost predicate FlagsStayInClass(rs: seq<Resource>) {
    forall i, j, ops: seq<Operation> ::
      0 <= i < |rs| && 0 <= j < |rs| && rs[i].cls != rs[j].cls && (forall op :: op in ops ==> Addresses(op, rs[i])) ==>
        AppliedAll(Unflagged(rs[j]), ops) == Unflagged(rs[j])
  }

  /** A read of the resource, by class and id. */
  function ReadOf(r: Resource): Operation {
    var value := if r.cls == Unknown then 4 else ClassToValue(r.cls).value;
    Operation(ResourceRead, "", "", "", None, true, r.id, false, 0, 0, true, value)
  }

  lemma ReadReaches(r: Resource, other: Resource)
    requires r.id == other.id
    ensures Addresses(ReadOf(r), r) && AppliedAll(Unflagged(other), [ReadOf(r)]) == Unflagged(other).(read := true)
  {
    ClassRoundTrip(r.cls);
    var ops := [ReadOf(r)];
    assert ops[..0] == [];
    assert AppliedAll(Unflagged(other), ops[..0]) == Unflagged(other);
  }

  /** Matching by id ignores the class: flags stay in their class exactly when resources with the same
      id have the same class. */
  lemma FlagsStayInClassIff(rs: seq<Resource>)
    ensures FlagsStayInClass(rs) <==>
              forall i, j :: 0 <= i < |rs| && 0 <= j < |rs| && rs[i].id == rs[j].id ==> rs[i].cls == rs[j].cls
  {
    hide AppliedAll, Addresses, ReadOf;
    if FlagsStayInClass(rs) {
      forall i, j | 0 <= i < |rs| && 0 <= j < |rs| && rs[i].id == rs[j].id ensures rs[i].cls == rs[j].cls {
        ReadReaches(rs[i], rs[j]);
        var ops := [ReadOf(rs[i])];
        assert forall op :: op in ops ==> Addresses(op, rs[i]);
        assert AppliedAll(Unflagged(rs[j]), ops) != Unflagged(rs[j]);
      }
    }
    if forall i, j :: 0 <= i < |rs| && 0 <= j < |rs| && rs[i].id == rs[j].id ==> rs[i].cls == rs[j].cls {
      forall i, j, ops: seq<Operation> |
        0 <= i < |rs| && 0 <= j < |rs| && rs[i].cls != rs[j].cls && (forall op :: op in ops ==> Addresses(op, rs[i]))
        ensures AppliedAll(Unflagged(rs[j]), ops) == Unflagged(rs[j])
      {
        OthersUntouched(rs[i], rs[j], ops);
      }
    }
  }

  lemma OthersUntouched(r: Resource, other: Resource, ops: seq<Operation>)
    requires r.id != other.id && forall op :: op in ops ==> Addresses(op, r)
    ensures AppliedAll(Unflagged(other), ops) == Unflagged(other)
  {
    FlagsExact(Unflagged(other), ops);
    hide ClassFromValue, Sets, AppliedAll;
    assert forall op :: op in ops ==> !Matches(Unflagged(other), op);
    assert forall f :: !AnySets(Unflagged(other), ops, f);
  }

  /** A witness: reading the SRV with id 0 marks the constant buffer with id 0 as read. */
  lemma SharedIdMarksBoth()
    ensures var srv, cbv := Resource(Srv, 0, 0, 0, false, false, false, false, false, false, false),
                            Resource(Cbv, 0, 0, 1, false, false, false, false, false, false, false);
            && Addresses(ReadOf(srv), srv) && !FlagsStayInClass([srv, cbv])
            && AppliedAll(cbv, [ReadOf(srv)]) == cbv.(read := true)
  {
    var srv, cbv := Resource(Srv, 0, 0, 0, false, false, false, false, false, false, false),
                    Resource(Cbv, 0, 0, 1, false, false, false, false, false, false, false);
    hide AppliedAll, Addresses, ReadOf, FlagsStayInClass;
    ReadReaches(srv, cbv);
    var rs := [srv, cbv];
    FlagsStayInClassIff(rs);
    assert rs[0].id == rs[1].id && rs[0].cls != rs[1].cls;
  }

  /** Collects the flags of every resource, in place. */
  method CollectFlags(resources: array<Resource>, operations: seq<Operation>)
    modifies resources
    ensures forall i :: 0 <= i < resources.Length ==> Marked(old(resources[i]), resources[i], operations)
    ensures forall i :: 0 <= i < resources.Length ==> resources[i] == Flagged(old(resources[i]), operations)
  {
    hide Flagged, Applied, Marked;
    var i := 0;
    while i < resources.Length
      invariant 0 <= i <= resources.Length
      invariant forall k :: 0 <= k < i ==> resources[k] == Flagged(old(resources[k]), operations)
      invariant forall k :: 0 <= k < i ==> Marked(old(resources[k]), resources[k], operations)
      invariant forall k :: i <= k < resources.Length ==> resources[k] == old(resources[k])
    {
      var j := 0;
      while j < |operations|
        invariant 0 <= j <= |operations|
        invariant resources[i] == AppliedAll(old(resources[i]), operations[..j])
        invariant forall k :: 0 <= k < i ==> resources[k] == Flagged(old(resources[k]), operations)
        invariant forall k :: 0 <= k < i ==> Marked(old(resources[k]), resources[k], operations)
        invariant forall k :: i < k < resources.Length ==> resources[k] == old(resources[k])
      {
        assert operations[..j + 1][..j] == operations[..j];
        resources[i] := Applied(resources[i], operations[j]);
        j := j + 1;
      }
      assert operations[..j] == operations;
      FlagsExact(old(resources[i]), operations);
      MarkedExact(old(resources[i]), operations);
      i := i + 1;
    }
  }
}
