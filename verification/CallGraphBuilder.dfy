/** The worklist algorithms that build the call-graph tables, proved exact against call paths. */
module CallGraphBuilder {
  import opened Options
  import opened CallGraph

  ghost predicate Distinct<T>(s: seq<T>) {
    forall i, j :: 0 <= i < j < |s| ==> s[i] != s[j]
  }

  lemma DistinctSnoc<T>(s: seq<T>, x: T)
    requires Distinct(s) && x !in s
    ensures Distinct(s + [x])
  {
  }

  /** The function names not listed yet: what the loops use up. */
  ghost function Unlisted(fs: seq<Function>, done: seq<string>): set<string> {
    NameSet(fs) - (set a | a in done)
  }

  lemma UnlistedShrinks(fs: seq<Function>, done: seq<string>, a: string)
    requires a in NameSet(fs) && a !in done
    ensures Unlisted(fs, done + [a]) < Unlisted(fs, done)
  {
    assert a in Unlisted(fs, done) && a in done + [a];
  }

  // ----- reachability

  ghost predicate Settled(fs: seq<Function>, done: seq<string>, todo: seq<string>, a: string) {
    a in done || a in todo || !Defined(fs, a)
  }

  ghost predicate Called(fs: seq<Function>, done: seq<string>, b: string) {
    exists a :: a in done && Edge(fs, a, b)
  }

  /** State of the reachability loop: what is listed is reachable, what is pending came from a root
      or a listed caller, and nothing reachable in one more call is forgotten. */
  ghost predicate Exploring(fs: seq<Function>, roots: seq<string>, done: seq<string>, todo: seq<string>) {
    && Distinct(done)
    && (forall a :: a in done ==> Reachable(fs, roots, a))
    && (forall a :: a in todo ==> a in roots || Called(fs, done, a))
    && (forall a :: a in roots ==> Settled(fs, done, todo, a))
    && (forall a, b :: a in done && Edge(fs, a, b) ==> Settled(fs, done, todo, b))
  }

  lemma ExploringStart(fs: seq<Function>, roots: seq<string>)
    ensures Exploring(fs, roots, [], roots)
  {
  }

  lemma ExploringSkip(fs: seq<Function>, roots: seq<string>, done: seq<string>, rest: seq<string>, a: string)
    requires Exploring(fs, roots, done, rest + [a]) && (a in done || !Defined(fs, a))
    ensures Exploring(fs, roots, done, rest)
  {
    forall x | Settled(fs, done, rest + [a], x) ensures Settled(fs, done, rest, x) {}
    forall x | x in rest ensures x in roots || Called(fs, done, x) { assert x in rest + [a]; }
  }

  lemma ExploringAdd(
    fs: seq<Function>, roots: seq<string>, done: seq<string>, rest: seq<string>, a: string, calls: seq<string>)
    requires Exploring(fs, roots, done, rest + [a]) && a !in done && Defined(fs, a)
    requires calls == CallsOf(fs, fs[Find(fs, a).value].instructions)
    ensures Exploring(fs, roots, done + [a], rest + calls)
  {
    assert a in rest + [a];
    NewlyReachable(fs, roots, done, a);
    var done', todo' := done + [a], rest + calls;
    forall x | Settled(fs, done, rest + [a], x) ensures Settled(fs, done', todo', x) {}
    forall x | x in todo' ensures x in roots || Called(fs, done', x) {
      if x in rest {
        assert x in rest + [a];
        if x !in roots {
          var c :| c in done && Edge(fs, c, x);
          assert c in done';
        }
      } else {
        assert a in done' && Edge(fs, a, x);
      }
    }
    forall x, y | x in done' && Edge(fs, x, y) ensures Settled(fs, done', todo', y) {
      if x == a { assert y in calls; }
    }
  }

  lemma NewlyReachable(fs: seq<Function>, roots: seq<string>, done: seq<string>, a: string)
    requires (forall x :: x in done ==> Reachable(fs, roots, x))
    requires Defined(fs, a) && (a in roots || Called(fs, done, a))
    ensures Reachable(fs, roots, a)
  {
    if a in roots {
      assert RootPath(fs, roots, [a], a);
    } else {
      var c :| c in done && Edge(fs, c, a);
      var p :| RootPath(fs, roots, p, c);
      ChainSnoc(fs, p, a);
      assert RootPath(fs, roots, p + [a], a);
    }
  }

  lemma {:induction false} AllFound(fs: seq<Function>, roots: seq<string>, done: seq<string>, p: seq<string>, b: string)
    requires Exploring(fs, roots, done, []) && RootPath(fs, roots, p, b)
    ensures b in done
    decreases |p|
  {
    if |p| == 1 {
      assert Settled(fs, done, [], b);
    } else {
      var q := p[..|p| - 1];
      ChainPrefix(fs, p, |p| - 1);
      assert RootPath(fs, roots, q, q[|q| - 1]);
      AllFound(fs, roots, done, q, q[|q| - 1]);
      assert Edge(fs, p[|p| - 2], p[|p| - 1]);
      assert Settled(fs, done, [], b);
    }
  }

  lemma ExploringDone(fs: seq<Function>, roots: seq<string>, done: seq<string>)
    requires Exploring(fs, roots, done, [])
    ensures Distinct(done)
    ensures forall b :: b in done <==> Reachable(fs, roots, b)
  {
    forall b | Reachable(fs, roots, b) ensures b in done {
      var p :| RootPath(fs, roots, p, b);
      AllFound(fs, roots, done, p, b);
    }
  }

  // ----- recursion

  ghost predicate Seen(start: string, visited: seq<string>, a: string) { a == start || a in visited }

  /** State of the recursion search from start: visited names are called from it, pending names are
      among them, and every other seen name has all its callees seen and none of them is start. */
  ghost predicate Searching(
    fs: seq<Function>, start: string, visited: seq<string>, stack: seq<string>, current: seq<string>) {
    && start !in visited && Distinct(stack)
    && (forall a :: a in visited ==> Calls(fs, start, a))
    && (forall a :: a in stack ==> Seen(start, visited, a))
    && (forall a, b :: Seen(start, visited, a) && a !in stack && a !in current && Edge(fs, a, b) ==> b in visited)
  }

  lemma SearchingPop(fs: seq<Function>, start: string, visited: seq<string>, rest: seq<string>, a: string)
    requires Searching(fs, start, visited, rest + [a], [])
    ensures Searching(fs, start, visited, rest, [a]) && Seen(start, visited, a) && a !in rest
  {
    assert a in rest + [a];
    forall x | x in rest ensures Seen(start, visited, x) { assert x in rest + [a]; }
    forall i | 0 <= i < |rest| ensures rest[i] != a { assert (rest + [a])[i] != (rest + [a])[|rest|]; }
    forall i, j | 0 <= i < j < |rest| ensures rest[i] != rest[j] { assert (rest + [a])[i] != (rest + [a])[j]; }
    forall x, b | Seen(start, visited, x) && x !in rest && x !in [a] && Edge(fs, x, b) ensures b in visited {
      assert x !in rest + [a];
    }
  }

  lemma SearchingPush(fs: seq<Function>, start: string, visited: seq<string>, stack: seq<string>, a: string, b: string)
    requires Searching(fs, start, visited, stack, [a]) && Seen(start, visited, a) && Edge(fs, a, b)
    requires b != start && b !in visited
    ensures Searching(fs, start, visited + [b], stack + [b], [a])
  {
    CallsBeyond(fs, start, visited, a, b);
    assert b !in stack by { assert !Seen(start, visited, b); }
    forall x, y | Seen(start, visited + [b], x) && x !in stack + [b] && x !in [a] && Edge(fs, x, y)
      ensures y in visited + [b]
    {
      assert x != b && Seen(start, visited, x) && x !in stack;
    }
  }

  /** A name called from a seen one is called from start. */
  lemma CallsBeyond(fs: seq<Function>, start: string, visited: seq<string>, a: string, b: string)
    requires (forall x :: x in visited ==> Calls(fs, start, x)) && Seen(start, visited, a) && Edge(fs, a, b)
    ensures Calls(fs, start, b)
  {
    if a == start {
      EdgeCalls(fs, a, b);
    } else {
      var p :| CallPath(fs, p, start, a);
      ChainSnoc(fs, p, b);
      assert CallPath(fs, p + [b], start, b);
    }
  }

  lemma SearchingFinish(fs: seq<Function>, start: string, visited: seq<string>, stack: seq<string>, a: string)
    requires Searching(fs, start, visited, stack, [a])
    requires forall b :: Edge(fs, a, b) ==> b in visited
    ensures Searching(fs, start, visited, stack, [])
  {
    forall x, b | Seen(start, visited, x) && x !in stack && x !in [] && Edge(fs, x, b) ensures b in visited {
      if x != a { assert x !in [a]; }
    }
  }

  lemma {:induction false} StaysVisited(fs: seq<Function>, start: string, visited: seq<string>, p: seq<string>, k: nat)
    requires Searching(fs, start, visited, [], []) && Chain(fs, p) && 1 <= k < |p| && p[0] == start
    ensures p[k] in visited
    decreases k
  {
    if k > 1 { StaysVisited(fs, start, visited, p, k - 1); }
    assert Edge(fs, p[k - 1], p[k]);
    assert Seen(start, visited, p[k - 1]);
  }

  lemma SearchingDone(fs: seq<Function>, start: string, visited: seq<string>)
    requires Searching(fs, start, visited, [], [])
    ensures !Recursive(fs, start)
  {
    if Recursive(fs, start) {
      var p :| CallPath(fs, p, start, start);
      StaysVisited(fs, start, visited, p, |p| - 1);
    }
  }

  // ----- call edges

  datatype CallEdge = CallEdge(caller: string, callee: string, index: nat, isIndirect: bool, isDxIntrinsic: bool)

  function EdgesOf(name: string, code: seq<Instruction>): seq<CallEdge> {
    if code == [] then []
    else
      var i := code[|code| - 1];
      EdgesOf(name, code[..|code| - 1]) +
      (if i.isCall then [CallEdge(name, i.callee, |code| - 1, i.isIndirect, i.isDxIntrinsic)] else [])
  }

  function AllEdges(fs: seq<Function>): seq<CallEdge> {
    if fs == [] then []
    else AllEdges(fs[..|fs| - 1]) + EdgesOf(fs[|fs| - 1].name, fs[|fs| - 1].instructions)
  }

  predicate AnyIndirect(es: seq<CallEdge>) { exists e :: e in es && e.isIndirect }

  lemma NoCalls(fs: seq<Function>, name: string)
    ensures !CallsIndirectly([]) && CallsOf(fs, []) == [] && EdgesOf(name, []) == []
  {
  }

  predicate CallsIndirectly(code: seq<Instruction>) { exists i :: i in code && i.isCall && i.isIndirect }

  /** What one more instruction adds. */
  lemma CallsSnoc(fs: seq<Function>, name: string, code: seq<Instruction>, i: Instruction)
    ensures CallsOf(fs, code + [i]) == CallsOf(fs, code) + (if IsDirectCall(fs, i) then [i.callee] else [])
    ensures EdgesOf(name, code + [i]) ==
            EdgesOf(name, code) + (if i.isCall then [CallEdge(name, i.callee, |code|, i.isIndirect, i.isDxIntrinsic)]
              else [])
    ensures CallsIndirectly(code + [i]) <==> CallsIndirectly(code) || (i.isCall && i.isIndirect)
  {
    hide IsDirectCall;
    assert (code + [i])[..|code|] == code;
    assert forall x :: x in code + [i] <==> x in code || x == i;
  }

  /** One of the first n functions is an intrinsic named a that no intrinsic call names. */
  ghost predicate Unused(fs: seq<Function>, es: seq<CallEdge>, a: string, n: nat)
    requires n <= |fs|
  {
    exists i :: 0 <= i < n && fs[i].name == a && fs[i].isDxIntrinsic && !CalledAsIntrinsic(es, a)
  }

  predicate CalledAsIntrinsic(es: seq<CallEdge>, a: string) { exists e :: e in es && e.isDxIntrinsic && e.callee == a }

  lemma AnyIndirectSnoc(es: seq<CallEdge>, e: CallEdge)
    ensures AnyIndirect(es + [e]) <==> AnyIndirect(es) || e.isIndirect
  {
    assert forall x :: x in es + [e] <==> x in es || x == e;
  }

  class LlvmModule {
    const functions: seq<Function>
    const entryPoints: seq<string>
    var called: seq<seq<string>>
    var indirectFlags: seq<bool>
    var edges: seq<CallEdge>
    var hasIndirectCalls: bool
    var entryReachable: seq<bool>
    var reachableFunctions: seq<string>
    var recursiveFlags: seq<bool>
    var recursiveFunctions: seq<string>
    var hasRecursion: bool
    var unusedIntrinsics: seq<string>

    constructor (fs: seq<Function>, entries: seq<string>)
      ensures functions == fs && entryPoints == entries
    {
      functions, entryPoints := fs, entries;
      called, indirectFlags, edges, hasIndirectCalls, unusedIntrinsics := [], [], [], false, [];
      entryReachable, reachableFunctions := [], [];
      recursiveFlags, recursiveFunctions, hasRecursion := [], [], false;
    }

    ghost predicate CallsCollected()
      reads this
    {
      && |called| == |indirectFlags| == |functions|
      && (forall i :: 0 <= i < |functions| ==> called[i] == CallsOf(functions, functions[i].instructions))
      && (forall i :: 0 <= i < |functions| ==> (indirectFlags[i] <==> CallsIndirectly(functions[i].instructions)))
    }

    /** Function i is marked exactly when some chain of calls from an entry point reaches it. */
    ghost predicate ReachabilityExact()
      reads this
    {
      && Distinct(reachableFunctions)
      && (forall b :: b in reachableFunctions <==> Reachable(functions, Roots(functions, entryPoints), b))
      && |entryReachable| == |functions|
      && (forall i :: 0 <= i < |functions| ==>
            (entryReachable[i] <==> Reachable(functions, Roots(functions, entryPoints), functions[i].name)))
    }

    /** Function i is marked exactly when it is defined and a chain of calls leads back to it. */
    ghost predicate RecursionExact()
      reads this
    {
      && |recursiveFlags| == |functions|
      && (forall i :: 0 <= i < |functions| ==>
            (recursiveFlags[i] <==> !functions[i].isDeclaration && Recursive(functions, functions[i].name)))
      && Distinct(recursiveFunctions)
      && (forall a :: a in recursiveFunctions <==> Marked(a, |functions|))
      && (hasRecursion <==> recursiveFunctions != [])
    }

    ghost predicate Marked(a: string, n: nat)
      requires n <= |functions|
    {
      exists i :: 0 <= i < n && functions[i].name == a && !functions[i].isDeclaration && Recursive(functions, a)
    }

    /** One of the first n functions is named a, has a body and is no intrinsic. */
    ghost predicate Idle(a: string, n: nat)
      requires n <= |functions|
    {
      exists i :: 0 <= i < n && functions[i].name == a && !functions[i].isDeclaration && !functions[i].isDxIntrinsic
    }

    lemma IdleStep(n: nat)
      requires n < |functions|
      ensures forall a :: Idle(a, n + 1) <==>
                Idle(a, n) || (functions[n].name == a && !functions[n].isDeclaration && !functions[n].isDxIntrinsic)
    {
      forall a | Idle(a, n) ensures Idle(a, n + 1) {
        var i :| 0 <= i < n && functions[i].name == a && !functions[i].isDeclaration && !functions[i].isDxIntrinsic;
      }
    }

    method BuildCallGraph()
      requires UniqueNames(functions)
      modifies this
      ensures CallsCollected() && ReachabilityExact() && RecursionExact()
      ensures edges == AllEdges(functions) && hasIndirectCalls == AnyIndirect(edges)
      ensures forall a :: a in unusedIntrinsics <==> Unused(functions, edges, a, |functions|)
    {
      hide Recursive, Reachable, CallsOf, Find, AllEdges, AnyIndirect, CallsIndirectly, CalledAsIntrinsic, Roots;
      CollectCalls();
      MarkReachable();
      MarkRecursive();
      ListUnused();
    }

    /** Intrinsics that are declared and never called. */
    method ListUnused()
      modifies this`unusedIntrinsics
      ensures forall a :: a in unusedIntrinsics <==> Unused(functions, edges, a, |functions|)
    {
      unusedIntrinsics := [];
      for n := 0 to |functions|
        invariant forall a :: a in unusedIntrinsics <==> Unused(functions, edges, a, n)
      {
        var f := functions[n];
        UnusedStep(n);
        if f.isDxIntrinsic {
          var used := IsCalledAsIntrinsic(f.name);
          if !used { unusedIntrinsics := unusedIntrinsics + [f.name]; }
        }
      }
    }

    lemma UnusedStep(n: nat)
      requires n < |functions|
      ensures forall a :: Unused(functions, edges, a, n + 1) <==>
                Unused(functions, edges, a, n) || (functions[n].name == a && functions[n].isDxIntrinsic
                  && !CalledAsIntrinsic(edges, a))
    {
      forall a | Unused(functions, edges, a, n) ensures Unused(functions, edges, a, n + 1) {
        var i :| 0 <= i < n && functions[i].name == a && functions[i].isDxIntrinsic && !CalledAsIntrinsic(edges, a);
      }
    }

    method IsCalledAsIntrinsic(name: string) returns (used: bool)
      ensures used == CalledAsIntrinsic(edges, name)
    {
      for i := 0 to |edges|
        invariant forall k :: 0 <= k < i ==> !(edges[k].isDxIntrinsic && edges[k].callee == name)
      {
        if edges[i].isDxIntrinsic && edges[i].callee == name { return true; }
      }
      return false;
    }

    method CollectCalls()
      modifies this`called, this`indirectFlags, this`edges, this`hasIndirectCalls
      ensures CallsCollected() && edges == AllEdges(functions) && hasIndirectCalls == AnyIndirect(edges)
    {
      hide Find, CallsOf, EdgesOf, CallsIndirectly;
      called, indirectFlags, edges, hasIndirectCalls := [], [], [], false;
      var n := 0;
      while n < |functions|
        invariant 0 <= n <= |functions| && |called| == |indirectFlags| == n
        invariant forall i :: 0 <= i < n ==> (indirectFlags[i] <==> CallsIndirectly(functions[i].instructions))
        invariant forall i :: 0 <= i < n ==> called[i] == CallsOf(functions, functions[i].instructions)
        invariant edges == AllEdges(functions[..n]) && hasIndirectCalls == AnyIndirect(edges)
      {
        assert functions[..n + 1][..n] == functions[..n];
        var names, indirect := CollectFrom(functions[n]);
        called, indirectFlags := called + [names], indirectFlags + [indirect];
        n := n + 1;
      }
      assert functions[..n] == functions;
    }

    /** The calls of one function: every call is an edge, direct calls of known functions are listed. */
    method CollectFrom(f: Function) returns (names: seq<string>, indirect: bool)
      requires hasIndirectCalls == AnyIndirect(edges)
      modifies this`edges, this`hasIndirectCalls
      ensures names == CallsOf(functions, f.instructions) && indirect == CallsIndirectly(f.instructions)
      ensures edges == old(edges) + EdgesOf(f.name, f.instructions) && hasIndirectCalls == AnyIndirect(edges)
    {
      hide Find, CallsIndirectly, CallsOf, EdgesOf, AnyIndirect;
      names, indirect := [], false;
      NoCalls(functions, f.name);
      var i := 0;
      while i < |f.instructions|
        invariant 0 <= i <= |f.instructions|
        invariant names == CallsOf(functions, f.instructions[..i]) && indirect == CallsIndirectly(f.instructions[..i])
        invariant edges == old(edges) + EdgesOf(f.name, f.instructions[..i]) && hasIndirectCalls == AnyIndirect(edges)
      {
        var ins := f.instructions[i];
        assert f.instructions[..i + 1] == f.instructions[..i] + [ins];
        CallsSnoc(functions, f.name, f.instructions[..i], ins);
        if ins.isCall {
          var e := CallEdge(f.name, ins.callee, i, ins.isIndirect, ins.isDxIntrinsic);
          AnyIndirectSnoc(edges, e);
          hasIndirectCalls := hasIndirectCalls || e.isIndirect;
          indirect := indirect || e.isIndirect;
          edges := edges + [e];
          if !e.isIndirect && !e.isDxIntrinsic && Find(functions, e.callee).Some? {
            names := names + [e.callee];
          }
        }
        i := i + 1;
      }
      assert f.instructions[..i] == f.instructions;
    }

    method InitialWorklist() returns (worklist: seq<string>)
      ensures worklist == Roots(functions, entryPoints) && StartsFrom(functions, entryPoints, worklist)
    {
      RootsExact(functions, entryPoints);
      hide StartsFrom;
      worklist := [];
      for i := 0 to |entryPoints|
        invariant worklist == Named(entryPoints[..i])
      {
        assert entryPoints[..i + 1][..i] == entryPoints[..i];
        if entryPoints[i] != "" {
          worklist := worklist + [entryPoints[i]];
        }
      }
      assert entryPoints[..|entryPoints|] == entryPoints;
      if worklist == [] {
        for i := 0 to |functions|
          invariant worklist == [] && FirstDefined(functions) == FirstDefined(functions[i..])
        {
          assert functions[i..][1..] == functions[i + 1..];
          if !functions[i].isDeclaration && !functions[i].isDxIntrinsic {
            return [functions[i].name];
          }
        }
      }
    }

    method MarkReachable()
      requires CallsCollected() && UniqueNames(functions)
      modifies this`entryReachable, this`reachableFunctions
      ensures ReachabilityExact()
    {
      hide Exploring, Reachable, CallsOf, Roots, Find, Settled;
      ghost var roots := Roots(functions, entryPoints);
      var worklist := InitialWorklist();
      ExploringStart(functions, roots);
      var reachable: seq<string> := [];
      entryReachable := seq(|functions|, _ => false);
      while worklist != []
        invariant CallsCollected() && |entryReachable| == |functions|
        invariant Exploring(functions, roots, reachable, worklist)
        invariant forall i :: 0 <= i < |functions| ==> (entryReachable[i] <==> functions[i].name in reachable)
        invariant forall a :: a in reachable ==> a in NameSet(functions)
        decreases Unlisted(functions, reachable), |worklist|
      {
        var name := worklist[|worklist| - 1];
        assert worklist == worklist[..|worklist| - 1] + [name];
        worklist := worklist[..|worklist| - 1];
        var found := Find(functions, name);
        if name in reachable || found.None? || functions[found.value].isDeclaration {
          ExploringSkip(functions, roots, reachable, worklist, name);
        } else {
          ExploringAdd(functions, roots, reachable, worklist, name, called[found.value]);
          assert functions[found.value] in functions;
          UnlistedShrinks(functions, reachable, name);
          entryReachable := entryReachable[found.value := true];
          reachable := reachable + [name];
          worklist := worklist + called[found.value];
        }
      }
      ExploringDone(functions, roots, reachable);
      reachableFunctions := reachable;
    }

    method MarkRecursive()
      requires CallsCollected() && UniqueNames(functions)
      modifies this`recursiveFlags, this`recursiveFunctions, this`hasRecursion
      ensures RecursionExact()
    {
      hide Recursive, CallsOf, Find, Marked, Distinct;
      NoneMarked();
      recursiveFlags, recursiveFunctions, hasRecursion := [], [], false;
      for n := 0 to |functions|
        invariant CallsCollected() && |recursiveFlags| == n && Distinct(recursiveFunctions)
        invariant forall i :: 0 <= i < n ==>
                    (recursiveFlags[i] <==> !functions[i].isDeclaration && Recursive(functions, functions[i].name))
        invariant forall a :: a in recursiveFunctions <==> Marked(a, n)
        invariant hasRecursion <==> recursiveFunctions != []
      {
        var flag := false;
        if !functions[n].isDeclaration {
          flag := LeadsBack(functions[n].name);
        }
        ghost var before := recursiveFunctions;
        if flag {
          hasRecursion := true;
          if functions[n].name !in recursiveFunctions {
            DistinctSnoc(recursiveFunctions, functions[n].name);
            recursiveFunctions := recursiveFunctions + [functions[n].name];
          }
        }
        recursiveFlags := recursiveFlags + [flag];
        MarkedStep(n);
        assert forall a :: a in recursiveFunctions <==> a in before || (flag && a == functions[n].name);
      }
    }

    lemma NoneMarked()
      ensures (forall a :: !Marked(a, 0)) && Distinct<string>([])
    {
    }

    lemma MarkedStep(n: nat)
      requires n < |functions|
      ensures forall a :: Marked(a, n + 1) <==>
                Marked(a, n) || (functions[n].name == a && !functions[n].isDeclaration && Recursive(functions, a))
    {
      forall a | Marked(a, n) ensures Marked(a, n + 1) {
        var i :| 0 <= i < n && functions[i].name == a && !functions[i].isDeclaration && Recursive(functions, a);
      }
    }

    /** Depth-first search for a call back to start. */
    method LeadsBack(start: string) returns (found: bool)
      requires CallsCollected()
      ensures found == Recursive(functions, start)
    {
      var stack, visited: seq<string> := [start], [];
      while stack != []
        invariant Searching(functions, start, visited, stack, [])
        invariant forall a :: a in visited ==> a in NameSet(functions)
        decreases Unlisted(functions, visited), |stack|
      {
        var current := stack[|stack| - 1];
        assert stack == stack[..|stack| - 1] + [current];
        stack := stack[..|stack| - 1];
        SearchingPop(functions, start, visited, stack, current);
        var index := Find(functions, current);
        if index.Some? {
          found, visited, stack := VisitCallees(start, current, index.value, visited, stack);
          if found {
            return;
          }
        } else {
          SearchingFinish(functions, start, visited, stack, current);
        }
      }
      SearchingDone(functions, start, visited);
      return false;
    }

    method VisitCallees(start: string, current: string, index: nat, visited0: seq<string>, stack0: seq<string>)
      returns (found: bool, visited: seq<string>, stack: seq<string>)
      requires CallsCollected() && Find(functions, current) == Some(index)
      requires Searching(functions, start, visited0, stack0, [current]) && Seen(start, visited0, current)
      requires forall a :: a in visited0 ==> a in NameSet(functions)
      ensures found ==> Recursive(functions, start)
      ensures !found ==> Searching(functions, start, visited, stack, [])
      ensures !found ==> forall a :: a in visited ==> a in NameSet(functions)
      ensures visited0 <= visited && (visited == visited0 ==> stack == stack0)
      ensures visited != visited0 ==> Unlisted(functions, visited) < Unlisted(functions, visited0)
    {
      hide CallsOf, Find, Unlisted;
      visited, stack := visited0, stack0;
      var calls := called[index];
      for k := 0 to |calls|
        invariant Searching(functions, start, visited, stack, [current]) && Seen(start, visited, current)
        invariant forall a :: a in visited ==> a in NameSet(functions)
        invariant forall j :: 0 <= j < k ==> calls[j] in visited
        invariant visited0 <= visited && (visited == visited0 ==> stack == stack0)
        invariant visited != visited0 ==> Unlisted(functions, visited) < Unlisted(functions, visited0)
      {
        var callee := calls[k];
        assert Edge(functions, current, callee);
        EdgeEnds(functions, current, callee);
        if callee == start {
          CallsBeyond(functions, start, visited, current, callee);
          return true, visited, stack;
        }
        if callee !in visited {
          SearchingPush(functions, start, visited, stack, current, callee);
          UnlistedShrinks(functions, visited, callee);
          visited := visited + [callee];
          stack := stack + [callee];
        }
      }
      found := false;
      forall b | Edge(functions, current, b) ensures b in visited {}
      SearchingFinish(functions, start, visited, stack, current);
    }
  }

  // ----- validation

  datatype Severity = Warning | Error

  datatype Diagnostic = Diagnostic(severity: Severity, code: string, subject: string)

  predicate HasErrors(ds: seq<Diagnostic>) { exists d :: d in ds && d.severity == Error }

  /** The flow diagnostics of an analysed module: one error per recursive function, one warning per
      unreachable one, one warning for indirect calls. */
  method ValidateFlow(m: LlvmModule) returns (ds: seq<Diagnostic>)
    requires UniqueNames(m.functions) && m.ReachabilityExact() && m.RecursionExact()
    ensures HasErrors(ds) <==> exists a :: Defined(m.functions, a) && Recursive(m.functions, a)
    ensures forall d :: d in ds && d.severity == Error ==> d.code == "recursive-call"
    ensures forall a :: Diagnostic(Error, "recursive-call", a) in ds <==>
              Defined(m.functions, a) && Recursive(m.functions, a)
    ensures forall a :: Diagnostic(Warning, "unreachable-function", a) in ds <==>
              m.Idle(a, |m.functions|) && !Reachable(m.functions, Roots(m.functions, m.entryPoints), a)
    ensures m.hasIndirectCalls <==> Diagnostic(Warning, "indirect-call", "") in ds
  {
    hide Reachable, Recursive, Roots, Find;
    ds := [];
    if m.hasIndirectCalls {
      ds := [Diagnostic(Warning, "indirect-call", "")];
    }
    var k := 0;
    while k < |m.recursiveFunctions|
      invariant 0 <= k <= |m.recursiveFunctions|
      invariant HasErrors(ds) <==> k > 0
      invariant forall d :: d in ds && d.severity == Error ==> d.code == "recursive-call"
      invariant forall a :: Diagnostic(Error, "recursive-call", a) in ds <==> a in m.recursiveFunctions[..k]
      invariant m.hasIndirectCalls <==> Diagnostic(Warning, "indirect-call", "") in ds
      invariant forall a :: Diagnostic(Warning, "unreachable-function", a) !in ds
    {
      var d := Diagnostic(Error, "recursive-call", m.recursiveFunctions[k]);
      ErrorsSnoc(ds, d);
      ds := ds + [d];
      k := k + 1;
    }
    assert m.recursiveFunctions[..k] == m.recursiveFunctions;
    var i := 0;
    while i < |m.functions|
      invariant 0 <= i <= |m.functions|
      invariant HasErrors(ds) <==> m.recursiveFunctions != []
      invariant forall d :: d in ds && d.severity == Error ==> d.code == "recursive-call"
      invariant forall a :: Diagnostic(Error, "recursive-call", a) in ds <==> a in m.recursiveFunctions
      invariant m.hasIndirectCalls <==> Diagnostic(Warning, "indirect-call", "") in ds
      invariant forall a :: Diagnostic(Warning, "unreachable-function", a) in ds <==>
                  m.Idle(a, i) && !Reachable(m.functions, Roots(m.functions, m.entryPoints), a)
    {
      var f := m.functions[i];
      if !f.isDeclaration && !f.isDxIntrinsic && !m.entryReachable[i] {
        var d := Diagnostic(Warning, "unreachable-function", f.name);
        ErrorsSnoc(ds, d);
        ds := ds + [d];
      }
      m.IdleStep(i);
      i := i + 1;
    }
    RecursiveListed(m);
  }

  lemma ErrorsSnoc(ds: seq<Diagnostic>, d: Diagnostic)
    ensures HasErrors(ds + [d]) <==> HasErrors(ds) || d.severity == Error
  {
    assert forall x :: x in ds + [d] <==> x in ds || x == d;
  }

  lemma RecursiveListed(m: LlvmModule)
    requires UniqueNames(m.functions) && m.RecursionExact()
    ensures m.recursiveFunctions != [] <==> exists a :: Defined(m.functions, a) && Recursive(m.functions, a)
    ensures forall a :: a in m.recursiveFunctions <==> Defined(m.functions, a) && Recursive(m.functions, a)
  {
    hide Recursive;
    var fs := m.functions;
    forall a | a in m.recursiveFunctions ensures Defined(fs, a) && Recursive(fs, a) {
      var i :| 0 <= i < |fs| && fs[i].name == a && !fs[i].isDeclaration && Recursive(fs, a);
      RecursiveNamed(fs, a);
      NamedIsFound(fs, i);
    }
    forall a | Defined(fs, a) && Recursive(fs, a) ensures a in m.recursiveFunctions {
      var i := Find(fs, a).value;
      assert fs[i].name == a && !fs[i].isDeclaration;
      assert m.Marked(a, |fs|);
    }
    if m.recursiveFunctions != [] { assert m.recursiveFunctions[0] in m.recursiveFunctions; }
  }

  lemma RecursiveNamed(fs: seq<Function>, a: string)
    requires Recursive(fs, a)
    ensures a != ""
  {
    var p :| CallPath(fs, p, a, a);
    assert Edge(fs, p[0], p[1]);
  }

  /** The verdict over the diagnostics of all validators. A module reported valid has an acyclic
      internal call graph: some rank decreases along every call between defined functions. */
  method ValidateDxil(
    m: LlvmModule, before: seq<Diagnostic>, after: seq<Diagnostic>)
    returns (valid: bool, ds: seq<Diagnostic>)
    requires UniqueNames(m.functions) && m.ReachabilityExact() && m.RecursionExact()
    ensures valid ==> exists rank :: RankDecreases(m.functions, rank)
    ensures DeclarationsEmpty(m.functions) && !HasErrors(before) && !HasErrors(after) ==>
              (valid <==> exists rank :: RankDecreases(m.functions, rank))
    ensures valid == !HasErrors(ds) && before <= ds
  {
    var flow := ValidateFlow(m);
    ds := before + flow + after;
    assert forall d :: d in ds <==> d in before || d in flow || d in after;
    valid := !HasErrors(ds);
    if valid {
      assert !HasErrors(flow);
      NoRecursionGivesRank(m.functions);
    }
    if DeclarationsEmpty(m.functions) { AcyclicIffRanked(m.functions); }
  }
}
