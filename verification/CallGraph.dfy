/** Call-graph analysis of a module: reachability from the entry points and recursion, by worklists
    over function names, and the validation verdict that rests on them. */
module CallGraph {
  import opened Options

  /** target is the function called, callee its name; the source keeps only the name. */
  datatype Instruction =
    Instruction(isCall: bool, callee: string, isIndirect: bool, isDxIntrinsic: bool, target: Option<nat>)

  datatype Function = Function(name: string, isDeclaration: bool, isDxIntrinsic: bool, instructions: seq<Instruction>)

  // ----- the graph

  /** The first function with the name; unnamed functions are never found. */
  function Find(fs: seq<Function>, name: string): (r: Option<nat>)
    ensures r.Some? ==> r.value < |fs| && fs[r.value].name == name && name != ""
    ensures r.None? && name != "" ==> forall i :: 0 <= i < |fs| ==> fs[i].name != name
  {
    if fs == [] || name == "" then None
    else if fs[0].name == name then Some(0)
    else
      var r := Find(fs[1..], name);
      assert r.None? ==> forall i :: 1 <= i < |fs| ==> fs[i].name == fs[1..][i - 1].name;
      if r.Some? then Some(r.value + 1) else None
  }

  predicate IsDirectCall(fs: seq<Function>, i: Instruction) {
    i.isCall && !i.isIndirect && !i.isDxIntrinsic && Find(fs, i.callee).Some?
  }

  /** The names a function calls directly, in instruction order. */
  function CallsOf(fs: seq<Function>, code: seq<Instruction>): seq<string> {
    if code == [] then []
    else CallsOf(fs, code[..|code| - 1]) + (if IsDirectCall(fs, code[|code| - 1]) then [code[|code| - 1].callee]
      else [])
  }

  predicate Edge(fs: seq<Function>, a: string, b: string) {
    var r := Find(fs, a);
    r.Some? && b in CallsOf(fs, fs[r.value].instructions)
  }

  predicate Defined(fs: seq<Function>, a: string) {
    var r := Find(fs, a);
    r.Some? && !fs[r.value].isDeclaration
  }

  /** Each name of p calls the next one. */
  ghost predicate Chain(fs: seq<Function>, p: seq<string>) {
    forall i :: 0 <= i < |p| - 1 ==> Edge(fs, p[i], p[i + 1])
  }

  /** p is a call chain of at least one call from a to b. */
  ghost predicate CallPath(fs: seq<Function>, p: seq<string>, a: string, b: string) {
    |p| >= 2 && p[0] == a && p[|p| - 1] == b && Chain(fs, p)
  }

  ghost predicate Calls(fs: seq<Function>, a: string, b: string) {
    exists p :: CallPath(fs, p, a, b)
  }

  ghost predicate Recursive(fs: seq<Function>, a: string) { Calls(fs, a, a) }

  /** p leads from a root to b through defined functions only. */
  ghost predicate RootPath(fs: seq<Function>, roots: seq<string>, p: seq<string>, b: string) {
    && p != [] && p[0] in roots && p[|p| - 1] == b && Chain(fs, p)
    && forall i :: 0 <= i < |p| ==> Defined(fs, p[i])
  }

  ghost predicate Reachable(fs: seq<Function>, roots: seq<string>, b: string) {
    exists p :: RootPath(fs, roots, p, b)
  }

  /** The named entry points, or else the first defined function that is no intrinsic. */
  function Named(entries: seq<string>): seq<string> {
    if entries == [] then []
    else Named(entries[..|entries| - 1]) + (if entries[|entries| - 1] != "" then [entries[|entries| - 1]] else [])
  }

  function FirstDefined(fs: seq<Function>): seq<string> {
    if fs == [] then []
    else if !fs[0].isDeclaration && !fs[0].isDxIntrinsic then [fs[0].name]
    else FirstDefined(fs[1..])
  }

  function Roots(fs: seq<Function>, entries: seq<string>): seq<string> {
    if Named(entries) != [] then Named(entries) else FirstDefined(fs)
  }

  /** The names a search starts from: the entry points that have one; without any, the first function
      with a body that is no intrinsic, and nothing when there is none. */
  ghost predicate StartsFrom(fs: seq<Function>, entries: seq<string>, roots: seq<string>) {
    if exists k :: 0 <= k < |entries| && entries[k] != "" then
      forall a :: a in roots <==> a != "" && a in entries
    else if exists i :: 0 <= i < |fs| && HasCode(fs[i]) then
      exists i :: 0 <= i < |fs| && HasCode(fs[i]) && roots == [fs[i].name] && forall j :: 0 <= j < i ==> !HasCode(fs[j])
    else roots == []
  }

  predicate HasCode(f: Function) { !f.isDeclaration && !f.isDxIntrinsic }

  lemma {:induction false} NamedExact(entries: seq<string>)
    ensures forall a :: a in Named(entries) <==> a != "" && a in entries
  {
    if entries != [] {
      var front := entries[..|entries| - 1];
      NamedExact(front);
      assert forall a :: a in entries <==> a in front || a == entries[|entries| - 1];
    }
  }

  lemma {:induction false} FirstExact(fs: seq<Function>)
    ensures FirstDefined(fs) == [] <==> forall i :: 0 <= i < |fs| ==> !HasCode(fs[i])
    ensures FirstDefined(fs) != [] ==>
              exists i :: 0 <= i < |fs| && HasCode(fs[i]) && FirstDefined(fs) == [fs[i].name]
                          && forall j :: 0 <= j < i ==> !HasCode(fs[j])
  {
    if fs != [] && !HasCode(fs[0]) {
      var rest := fs[1..];
      FirstExact(rest);
      if FirstDefined(rest) == [] {
        forall i | 0 <= i < |fs| ensures !HasCode(fs[i]) { if i > 0 { assert fs[i] == rest[i - 1]; } }
      } else {
        var i :| 0 <= i < |rest| && HasCode(rest[i]) && FirstDefined(rest) == [rest[i].name]
                 && forall j :: 0 <= j < i ==> !HasCode(rest[j]);
        assert fs[i + 1] == rest[i];
        forall j | 0 <= j < i + 1 ensures !HasCode(fs[j]) { if j > 0 { assert fs[j] == rest[j - 1]; } }
      }
    }
  }

  lemma RootsExact(fs: seq<Function>, entries: seq<string>)
    ensures StartsFrom(fs, entries, Roots(fs, entries))
  {
    hide Named, FirstDefined, HasCode;
    NamedExact(entries);
    FirstExact(fs);
    if k :| 0 <= k < |entries| && entries[k] != "" {
      assert entries[k] in Named(entries);
    } else {
      if Named(entries) != [] { assert Named(entries)[0] in Named(entries); }
    }
  }

  ghost predicate UniqueNames(fs: seq<Function>) {
    forall i, j :: 0 <= i < j < |fs| && fs[i].name != "" ==> fs[i].name != fs[j].name
  }

  function NameSet(fs: seq<Function>): set<string> { set f | f in fs :: f.name }

  lemma EdgeEnds(fs: seq<Function>, a: string, b: string)
    requires Edge(fs, a, b)
    ensures a in NameSet(fs) && b in NameSet(fs) && b != ""
  {
    var i := Find(fs, a).value;
    CallsFound(fs, fs[i].instructions, b);
    assert fs[i] in fs && fs[Find(fs, b).value] in fs;
  }

  lemma {:induction false} CallsFound(fs: seq<Function>, code: seq<Instruction>, b: string)
    requires b in CallsOf(fs, code)
    ensures Find(fs, b).Some?
  {
    if b !in CallsOf(fs, code[..|code| - 1]) {
    } else {
      CallsFound(fs, code[..|code| - 1], b);
    }
  }

  lemma NamedIsFound(fs: seq<Function>, i: nat)
    requires UniqueNames(fs) && i < |fs| && fs[i].name != ""
    ensures Find(fs, fs[i].name) == Some(i)
  {
  }

  lemma ChainSnoc(fs: seq<Function>, p: seq<string>, b: string)
    requires p != [] && Chain(fs, p) && Edge(fs, p[|p| - 1], b)
    ensures Chain(fs, p + [b])
  {
    var q := p + [b];
    forall i | 0 <= i < |q| - 1 ensures Edge(fs, q[i], q[i + 1]) {
      if i < |p| - 1 { assert Edge(fs, p[i], p[i + 1]); }
    }
  }

  lemma ChainPrefix(fs: seq<Function>, p: seq<string>, k: nat)
    requires Chain(fs, p) && k <= |p|
    ensures Chain(fs, p[..k])
  {
    var q := p[..k];
    forall i | 0 <= i < |q| - 1 ensures Edge(fs, q[i], q[i + 1]) { assert Edge(fs, p[i], p[i + 1]); }
  }

  // ----- recursion and ranks

  /** The functions a reaches by at least one call. */
  ghost function Below(fs: seq<Function>, a: string): set<string> {
    set b | b in NameSet(fs) && Calls(fs, a, b)
  }

  ghost function Rank(fs: seq<Function>, a: string): nat { |Below(fs, a)| }

  lemma CallsStep(fs: seq<Function>, a: string, b: string, c: string)
    requires Edge(fs, a, b) && Calls(fs, b, c)
    ensures Calls(fs, a, c)
  {
    var p :| CallPath(fs, p, b, c);
    var q := [a] + p;
    forall i | 0 <= i < |q| - 1 ensures Edge(fs, q[i], q[i + 1]) {
      if i > 0 { assert Edge(fs, p[i - 1], p[i]); }
    }
    assert CallPath(fs, q, a, c);
  }

  lemma EdgeCalls(fs: seq<Function>, a: string, b: string)
    requires Edge(fs, a, b)
    ensures Calls(fs, a, b)
  {
    assert CallPath(fs, [a, b], a, b);
  }

  lemma SmallerBelow(fs: seq<Function>, a: string, b: string)
    requires Edge(fs, a, b) && !Recursive(fs, b)
    ensures Rank(fs, b) < Rank(fs, a)
  {
    EdgeEnds(fs, a, b);
    EdgeCalls(fs, a, b);
    forall c | c in Below(fs, b) ensures c in Below(fs, a) { CallsStep(fs, a, b, c); }
    assert b in Below(fs, a) && b !in Below(fs, b);
    ProperSubset(Below(fs, b), Below(fs, a));
  }

  lemma ProperSubset<T>(a: set<T>, b: set<T>)
    requires a < b
    ensures |a| < |b|
  {
    var x :| x in b && x !in a;
    assert |a + (b - a)| == |a| + |b - a| && a + (b - a) == b;
    assert x in b - a;
  }

  /** Some rank strictly decreases along every call between defined functions. */
  ghost predicate RankDecreases(fs: seq<Function>, rank: string -> int) {
    forall a, b :: Edge(fs, a, b) && Defined(fs, a) && Defined(fs, b) ==> 0 <= rank(b) < rank(a)
  }

  ghost predicate NoRecursion(fs: seq<Function>) {
    forall a :: Defined(fs, a) ==> !Recursive(fs, a)
  }

  /** Declarations have no body, so nothing is called from them. */
  ghost predicate DeclarationsEmpty(fs: seq<Function>) {
    forall i :: 0 <= i < |fs| && fs[i].isDeclaration ==> fs[i].instructions == []
  }

  lemma NoRecursionGivesRank(fs: seq<Function>)
    requires NoRecursion(fs)
    ensures exists rank :: RankDecreases(fs, rank)
  {
    var rank: string -> int := (a: string) => Rank(fs, a);
    forall a, b | Edge(fs, a, b) && Defined(fs, a) && Defined(fs, b)
      ensures 0 <= rank(b) < rank(a)
    {
      SmallerBelow(fs, a, b);
    }
    assert RankDecreases(fs, rank);
  }

  lemma {:induction false} RankBounds(fs: seq<Function>, rank: string -> int, p: seq<string>)
    requires RankDecreases(fs, rank) && DeclarationsEmpty(fs) && Chain(fs, p) && |p| >= 2
    requires Defined(fs, p[|p| - 1])
    ensures rank(p[|p| - 1]) < rank(p[0]) && Defined(fs, p[0])
    decreases |p|
  {
    var n := |p|;
    assert Edge(fs, p[n - 2], p[n - 1]);
    assert CallsOf(fs, []) == [];
    assert Defined(fs, p[n - 2]);
    if n > 2 {
      ChainPrefix(fs, p, n - 1);
      RankBounds(fs, rank, p[..n - 1]);
    }
  }

  /** A module without recursion is exactly one whose internal call graph has a decreasing rank. */
  lemma AcyclicIffRanked(fs: seq<Function>)
    requires DeclarationsEmpty(fs)
    ensures NoRecursion(fs) <==> exists rank :: RankDecreases(fs, rank)
  {
    if NoRecursion(fs) { NoRecursionGivesRank(fs); }
    if exists rank :: RankDecreases(fs, rank) {
      var rank :| RankDecreases(fs, rank);
      forall a | Defined(fs, a) ensures !Recursive(fs, a) {
        if Recursive(fs, a) {
          var p :| CallPath(fs, p, a, a);
          RankBounds(fs, rank, p);
        }
      }
    }
  }
}
