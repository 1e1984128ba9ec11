/** The call graph by function rather than by name. The source finds callees by name and never finds
    the empty one, so what it marks are the cycles of named functions. */
module CallGraphNames {
  import opened Options
  import opened CallGraph
  import opened CallGraphBuilder

  predicate IsDirect(i: Instruction) { i.isCall && !i.isIndirect && !i.isDxIntrinsic }

  /** The name of a call is that of its target; a direct call without a target in the module names
      none of its functions. */
  ghost predicate Linked(fs: seq<Function>) {
    forall k, i :: 0 <= k < |fs| && i in fs[k].instructions ==> LinkedCall(fs, i)
  }

  predicate LinkedCall(fs: seq<Function>, i: Instruction) {
    if i.target.Some? then i.target.value < |fs| && i.callee == fs[i.target.value].name
    else IsDirect(i) ==> Find(fs, i.callee).None?
  }

  ghost predicate CallsTo(fs: seq<Function>, a: nat, b: nat) {
    a < |fs| && b < |fs| && exists i :: i in fs[a].instructions && IsDirect(i) && i.target == Some(b)
  }

  /** A non-empty chain of calls from function a back to it. */
  ghost predicate Cycle(fs: seq<Function>, p: seq<nat>, a: nat) {
    |p| >= 2 && p[0] == a && p[|p| - 1] == a && forall k :: 0 <= k < |p| - 1 ==> CallsTo(fs, p[k], p[k + 1])
  }

  ghost predicate AllNamed(fs: seq<Function>, p: seq<nat>) {
    forall k :: 0 <= k < |p| ==> p[k] < |fs| && fs[p[k]].name != ""
  }

  ghost predicate CallsItself(fs: seq<Function>, a: nat) { exists p :: Cycle(fs, p, a) }

  ghost predicate CallsItselfByName(fs: seq<Function>, a: nat) { exists p :: Cycle(fs, p, a) && AllNamed(fs, p) }

  lemma {:induction false} CallFound(fs: seq<Function>, code: seq<Instruction>, b: string) returns (i: Instruction)
    requires b in CallsOf(fs, code)
    ensures i in code && IsDirectCall(fs, i) && i.callee == b
  {
    hide Find;
    var last := code[|code| - 1];
    if IsDirectCall(fs, last) && last.callee == b {
      i := last;
    } else {
      i := CallFound(fs, code[..|code| - 1], b);
    }
  }

  lemma {:induction false} CallListed(fs: seq<Function>, code: seq<Instruction>, i: Instruction)
    requires i in code && IsDirectCall(fs, i)
    ensures i.callee in CallsOf(fs, code)
  {
    hide Find, IsDirectCall;
    if i != code[|code| - 1] { CallListed(fs, code[..|code| - 1], i); }
  }

  /** One step: between named functions, calling by name is calling by target. */
  lemma StepByName(fs: seq<Function>, a: nat, b: nat)
    requires UniqueNames(fs) && Linked(fs) && a < |fs| && b < |fs| && fs[a].name != "" && fs[b].name != ""
    ensures Edge(fs, fs[a].name, fs[b].name) <==> CallsTo(fs, a, b)
  {
    hide CallsOf;
    NamedIsFound(fs, a);
    NamedIsFound(fs, b);
    if Edge(fs, fs[a].name, fs[b].name) {
      var i := CallFound(fs, fs[a].instructions, fs[b].name);
      assert LinkedCall(fs, i);
    }
    if CallsTo(fs, a, b) {
      var i :| i in fs[a].instructions && IsDirect(i) && i.target == Some(b);
      assert LinkedCall(fs, i);
      CallListed(fs, fs[a].instructions, i);
    }
  }

  lemma NamesOnPath(fs: seq<Function>, p: seq<string>, a: string, b: string, k: nat)
    requires CallPath(fs, p, a, b) && k < |p|
    ensures Find(fs, p[k]).Some?
  {
    if k > 0 {
      assert Edge(fs, p[k - 1], p[k]);
      EdgeEnds(fs, p[k - 1], p[k]);
      CallsFound(fs, fs[Find(fs, p[k - 1]).value].instructions, p[k]);
    } else {
      assert Edge(fs, p[0], p[1]);
    }
  }

  /** What the source marks: a function is recursive by name exactly when it calls itself through named
      functions only. */
  lemma RecursiveIffNamedCycle(fs: seq<Function>, a: nat)
    requires UniqueNames(fs) && Linked(fs) && a < |fs|
    ensures Recursive(fs, fs[a].name) <==> CallsItselfByName(fs, a)
  {
    hide Find, Edge, CallsTo, Linked;
    if Recursive(fs, fs[a].name) {
      var p :| CallPath(fs, p, fs[a].name, fs[a].name);
      forall k | 0 <= k < |p| ensures Find(fs, p[k]).Some? { NamesOnPath(fs, p, fs[a].name, fs[a].name, k); }
      var q := seq(|p|, k requires 0 <= k < |p| => Find(fs, p[k]).value);
      forall k | 0 <= k < |q| - 1 ensures CallsTo(fs, q[k], q[k + 1]) {
        assert Edge(fs, p[k], p[k + 1]);
        StepByName(fs, q[k], q[k + 1]);
      }
      NamedIsFound(fs, a);
      assert Cycle(fs, q, a) && AllNamed(fs, q);
    }
    if CallsItselfByName(fs, a) {
      var q :| Cycle(fs, q, a) && AllNamed(fs, q);
      var p := seq(|q|, k requires 0 <= k < |q| => fs[q[k]].name);
      forall k | 0 <= k < |p| - 1 ensures Edge(fs, p[k], p[k + 1]) {
        assert CallsTo(fs, q[k], q[k + 1]);
        StepByName(fs, q[k], q[k + 1]);
      }
      assert CallPath(fs, p, fs[a].name, fs[a].name);
    }
  }

  /** With every function named, the source marks exactly the functions that call themselves. */
  lemma NamedModuleExact(fs: seq<Function>, a: nat)
    requires UniqueNames(fs) && Linked(fs) && a < |fs|
    requires forall k :: 0 <= k < |fs| ==> fs[k].name != ""
    ensures Recursive(fs, fs[a].name) <==> CallsItself(fs, a)
  {
    hide Recursive, CallsTo;
    RecursiveIffNamedCycle(fs, a);
    if CallsItself(fs, a) {
      var p :| Cycle(fs, p, a);
      forall k | 0 <= k < |p| ensures p[k] < |fs| {
        if k == 0 { assert p[0] == a; } else { CallEnds(fs, p[k - 1], p[k]); }
      }
      assert AllNamed(fs, p);
    }
  }

  lemma CallEnds(fs: seq<Function>, a: nat, b: nat)
    requires CallsTo(fs, a, b)
    ensures a < |fs| && b < |fs|
  {
  }

  /** A witness: an unnamed function that calls itself is not marked. */
  lemma UnnamedCycleMissed()
    ensures var fs := [Function("", false, false, [Instruction(true, "", false, false, Some(0))])];
            UniqueNames(fs) && Linked(fs) && CallsItself(fs, 0) && NoRecursion(fs)
  {
    var call := Instruction(true, "", false, false, Some(0));
    var fs := [Function("", false, false, [call])];
    assert call in fs[0].instructions && CallsTo(fs, 0, 0);
    assert Cycle(fs, [0, 0], 0);
    assert forall a: string :: Find(fs, a).None?;
  }

  /** The analysis run on a module whose functions are all named: flag i is set exactly when function i
      has a body and calls itself, directly or through others. */
  method AnalyseNamed(m: LlvmModule) returns (flags: seq<bool>)
    requires UniqueNames(m.functions) && Linked(m.functions)
    requires forall k :: 0 <= k < |m.functions| ==> m.functions[k].name != ""
    modifies m
    ensures |flags| == |m.functions|
    ensures forall k :: 0 <= k < |flags| ==>
              (flags[k] <==> !m.functions[k].isDeclaration && CallsItself(m.functions, k))
  {
    hide Recursive, CallsItself, Linked;
    m.BuildCallGraph();
    flags := m.recursiveFlags;
    forall k | 0 <= k < |flags| ensures flags[k] <==> !m.functions[k].isDeclaration && CallsItself(m.functions, k) {
      NamedModuleExact(m.functions, k);
    }
  }
}
