/** Shader signatures: loading with name checksums, lookup, linkage between stages, and the split of
    a geometry shader's signature into streams. */
module Signatures {
  import opened Bits

  const STREAM_COUNT: nat := 4

  /** Bytes of a C string, without its terminator. */
  type NameByte = b: nat | 0 < b < 256 witness 1

  /** readsWrites is the never-writes mask of an output and the always-reads mask of an input. */
  datatype Parameter =
    Parameter(stream: nat, name: seq<NameByte>, index: nat, system: nat, component: nat, register: nat,
              mask: bv8, readsWrites: bv8)

  // ----- names

  function Lower(c: nat): nat { if 65 <= c <= 90 then c + 32 else c }

  /** A char is signed: bytes from 128 on are negative and have no lower case. */
  function CharValue(c: NameByte): int { if c < 128 then Lower(c) else c - 256 }

  /** Sum of the lower-cased characters in a 32-bit word. */
  function CharSum(name: seq<NameByte>): (sum: nat)
    ensures sum < U32
  {
    if name == [] then 0 else (CharSum(name[..|name| - 1]) + CharValue(name[|name| - 1])) % U32
  }

  /** Case-insensitive equality. */
  predicate SameName(a: seq<NameByte>, b: seq<NameByte>) {
    |a| == |b| && forall i :: 0 <= i < |a| ==> Lower(a[i]) == Lower(b[i])
  }

  /** The same byte, or one letter in its two cases; bytes from 128 on have no case. */
  predicate EqualUpToCase(x: nat, y: nat) {
    x == y || (65 <= x <= 90 && y == x + 32) || (65 <= y <= 90 && x == y + 32)
  }

  ghost predicate EqualNames(a: seq<NameByte>, b: seq<NameByte>) {
    |a| == |b| && forall i :: 0 <= i < |a| ==> EqualUpToCase(a[i], b[i])
  }

  /** Which names the comparison takes as one. */
  lemma SameNameExact(a: seq<NameByte>, b: seq<NameByte>)
    ensures SameName(a, b) <==> EqualNames(a, b)
  {
  }

  /** The sum of the signed characters in lower case, without a bound. */
  function SignedTotal(name: seq<NameByte>): int {
    if name == [] then 0
    else
      var c: int := name[|name| - 1];
      SignedTotal(name[..|name| - 1]) + (if 65 <= c <= 90 then c + 32 else if c < 128 then c else c - 256)
  }

  /** Keeping 32 bits at every step is keeping 32 bits of the whole sum. */
  lemma {:induction false} CharSumExact(name: seq<NameByte>)
    ensures CharSum(name) == SignedTotal(name) % 0x1_0000_0000
  {
    if name != [] {
      var front, c := name[..|name| - 1], name[|name| - 1];
      CharSumExact(front);
      Wrapped(SignedTotal(front), CharValue(c));
    }
  }

  lemma Wrapped(x: int, y: int)
    ensures (x % 0x1_0000_0000 + y) % 0x1_0000_0000 == (x + y) % 0x1_0000_0000
  {
  }

  /** Names that are equal up to case have equal sums, so the filter never rejects a match. */
  lemma {:induction false} SameNameSameSum(a: seq<NameByte>, b: seq<NameByte>)
    requires SameName(a, b)
    ensures CharSum(a) == CharSum(b)
  {
    if a != [] {
      SameNameSameSum(a[..|a| - 1], b[..|b| - 1]);
      assert Lower(a[|a| - 1]) == Lower(b[|a| - 1]);
    }
  }

  /** The running sum over a name. */
  method LowerCaseCharSum(name: seq<NameByte>) returns (sum: nat)
    ensures sum == CharSum(name) == SignedTotal(name) % 0x1_0000_0000
  {
    CharSumExact(name);
    sum := 0;
    for i := 0 to |name|
      invariant sum == CharSum(name[..i])
    {
      assert name[..i + 1][..i] == name[..i];
      sum := (sum + CharValue(name[i])) % U32;
    }
    assert name[..|name|] == name;
  }

  // ----- linkage

  /** The masks as written in the code: the source covers the target's components, and none of
      those it never writes is one the target always reads. */
  predicate MasksLink(src: Parameter, dst: Parameter) {
    (src.mask & dst.mask) == dst.mask && (src.readsWrites & src.mask) & (dst.readsWrites & dst.mask) == 0
  }

  predicate Component(mask: bv8, c: nat) {
    match c
    case 0 => mask & 1 != 0
    case 1 => mask & 2 != 0
    case 2 => mask & 4 != 0
    case 3 => mask & 8 != 0
    case 4 => mask & 16 != 0
    case 5 => mask & 32 != 0
    case 6 => mask & 64 != 0
    case 7 => mask & 128 != 0
    case _ => false
  }

  /** Component by component: every one the target has is in the source and, if the target always
      reads it, the source does not leave it unwritten. */
  ghost predicate ComponentsLink(src: Parameter, dst: Parameter) {
    forall c: nat :: ComponentLinks(src, dst, c)
  }

  predicate ComponentLinks(src: Parameter, dst: Parameter, c: nat) {
    Component(dst.mask, c) ==>
      Component(src.mask, c) && !(Component(src.readsWrites, c) && Component(dst.readsWrites, c))
  }

  lemma MasksAreComponents(src: Parameter, dst: Parameter)
    ensures MasksLink(src, dst) <==> ComponentsLink(src, dst)
  {
    if ComponentsLink(src, dst) {
      assert ComponentLinks(src, dst, 0) && ComponentLinks(src, dst, 1) && ComponentLinks(src, dst, 2)
        && ComponentLinks(src, dst, 3);
      assert ComponentLinks(src, dst, 4) && ComponentLinks(src, dst, 5) && ComponentLinks(src, dst, 6)
        && ComponentLinks(src, dst, 7);
    }
  }

  ghost predicate Compatible(src: Parameter, dst: Parameter) {
    SameName(src.name, dst.name) && src.index == dst.index && src.register == dst.register && src.system == dst.system
    && src.component == dst.component && ComponentsLink(src, dst)
  }

  /** Every entry of the target, which is no longer than the source, has a compatible source entry. */
  ghost predicate Feeds(source: seq<Parameter>, target: seq<Parameter>) {
    |target| <= |source| && forall i :: 0 <= i < |target| ==> HasSource(source, target[i])
  }

  ghost predicate HasSource(source: seq<Parameter>, dst: Parameter)
  {
    exists k :: 0 <= k < |source| && Compatible(source[k], dst)
  }

  /** The source entry k places after the starting one, counted around the end, does not fit. */
  ghost predicate Missed(source: seq<Parameter>, dst: Parameter, i: nat, k: nat)
    requires |source| > 0
  {
    !Compatible(source[(i + k) % |source|], dst)
  }

  /** Starting anywhere and wrapping around visits every position. */
  lemma RotationReaches(i: nat, m: nat, k: nat) returns (j: nat)
    requires k < m
    ensures j < m && (i + j) % m == k
  {
    var q, a := i / m, i % m;
    assert i == m * q + a;
    if k >= a {
      j := k - a;
      DivUnique(i + j, m, q, k);
    } else {
      j := k + m - a;
      assert m * (q + 1) == m * q + m;
      DivUnique(i + j, m, q + 1, k);
    }
  }

  class SignatureParser {
    var parameters: seq<Parameter>
    var sums: seq<nat>

    /** Every stored name has its sum stored beside it. */
    ghost predicate Valid()
      reads this
    {
      |sums| == |parameters| && forall i :: 0 <= i < |sums| ==> sums[i] == CharSum(parameters[i].name)
    }

    constructor ()
      ensures Valid() && parameters == []
    {
      parameters, sums := [], [];
    }

    /** Succeeds exactly when registers never decrease. */
    method ReadSignature(infos: seq<Parameter>) returns (ok: bool)
      modifies this
      ensures Valid() && ok == NonDecreasing(infos)
      ensures parameters == if ok then infos else []
    {
      parameters, sums := [], [];
      ok := RegistersOrdered(infos);
      if ok {
        sums := CharSums(infos);
        parameters := infos;
      }
    }

    /** Takes entries and sums that another parser has read. */
    method Attach(list: seq<Parameter>, listSums: seq<nat>)
      requires |listSums| == |list| && forall i :: 0 <= i < |list| ==> listSums[i] == CharSum(list[i].name)
      modifies this
      ensures Valid() && parameters == list && sums == listSums
    {
      parameters, sums := list, listSums;
    }

    /** The filtered search finds the first entry with that index and, up to case, that name; it
        fails exactly when there is none. */
    method FindParameter(name: seq<NameByte>, index: nat) returns (found: bool, at: nat)
      requires Valid()
      ensures found ==> at < |parameters| && Named(parameters[at], name, index)
      ensures found ==> forall k :: 0 <= k < at ==> !Named(parameters[k], name, index)
      ensures !found ==> forall k :: 0 <= k < |parameters| ==> !Named(parameters[k], name, index)
      ensures found <==> exists k :: 0 <= k < |parameters| && IsFor(parameters[k], name, index)
      ensures found ==>
                IsFor(parameters[at], name, index) && forall k :: 0 <= k < at ==> !IsFor(parameters[k], name, index)
    {
      forall p: Parameter ensures Named(p, name, index) <==> IsFor(p, name, index) { SameNameExact(name, p.name); }
      hide IsFor;
      var sum := LowerCaseCharSum(name);
      at := 0;
      while at < |parameters|
        invariant 0 <= at <= |parameters|
        invariant forall k :: 0 <= k < at ==> !Named(parameters[k], name, index)
      {
        var p := parameters[at];
        if index == p.index && sum == sums[at] && SameName(name, p.name) {
          return true, at;
        }
        if SameName(name, p.name) { SameNameSameSum(name, p.name); }
        at := at + 1;
      }
      found := false;
    }

    /** Whether every target entry can be fed, each searched for from its own position onwards. */
    method CanOutputTo(target: SignatureParser) returns (r: bool)
      requires Valid() && target.Valid()
      ensures r <==> Feeds(parameters, target.parameters)
    {
      if |target.parameters| > |parameters| { return false; }
      var i := 0;
      while i < |target.parameters|
        invariant 0 <= i <= |target.parameters|
        invariant forall k :: 0 <= k < i ==> HasSource(parameters, target.parameters[k])
      {
        var match' := SearchFrom(i, target.parameters[i], target.sums[i]);
        if !match' { return false; }
        i := i + 1;
      }
      return true;
    }

    method SearchFrom(i: nat, dst: Parameter, sum: nat) returns (found: bool)
      requires Valid() && sum == CharSum(dst.name)
      ensures found <==> HasSource(parameters, dst)
    {
      hide Compatible, CharSum;
      ghost var m := |parameters|;
      found := false;
      var j := 0;
      while j < |parameters|
        invariant 0 <= j <= m
        invariant forall k: nat :: k < j ==> Missed(parameters, dst, i, k)
      {
        var at := (i + j) % |parameters|;
        var src := parameters[at];
        CompatibleTest(src, dst);
        if sums[at] == sum && SameName(src.name, dst.name) && src.index == dst.index && src.register == dst.register
           && src.system == dst.system && src.component == dst.component && MasksLink(src, dst) {
          return true;
        }
        j := j + 1;
      }
      forall k | 0 <= k < m ensures !Compatible(parameters[k], dst) {
        var j' := RotationReaches(i, m, k);
        assert Missed(parameters, dst, i, j');
      }
    }

    /** Switches the linkage check on unread and unwritten components off. */
    method ClearAlwaysReadsNeverWritesMask()
      requires Valid()
      modifies this`parameters
      ensures Valid() && parameters == Cleared(old(parameters))
      ensures forall i :: 0 <= i < |parameters| ==> parameters[i] == old(parameters)[i].(readsWrites := 0)
    {
      var i := 0;
      while i < |parameters|
        invariant 0 <= i <= |parameters| == |old(parameters)|
        invariant parameters[..i] == Cleared(old(parameters))[..i]
        invariant parameters[i..] == old(parameters)[i..]
        invariant Valid()
      {
        var p := parameters[i];
        parameters := parameters[i := p.(readsWrites := 0)];
        i := i + 1;
      }
    }
  }

  /** The parameter has this index and, up to the case of letters, this name. */
  ghost predicate IsFor(p: Parameter, name: seq<NameByte>, index: nat) { p.index == index && EqualNames(name, p.name) }

  predicate Named(p: Parameter, name: seq<NameByte>, index: nat) { p.index == index && SameName(name, p.name) }

  lemma CompatibleTest(src: Parameter, dst: Parameter)
    ensures Compatible(src, dst) <==>
              CharSum(src.name) == CharSum(dst.name) && SameName(src.name, dst.name) && src.index == dst.index
              && src.register == dst.register && src.system == dst.system && src.component == dst.component
                 && MasksLink(src, dst)
  {
    MasksAreComponents(src, dst);
    if SameName(src.name, dst.name) { SameNameSameSum(src.name, dst.name); }
    hide ComponentsLink, MasksLink, SameName, CharSum;
  }

  function Cleared(ps: seq<Parameter>): (r: seq<Parameter>)
    ensures |r| == |ps|
  {
    seq(|ps|, i requires 0 <= i < |ps| => ps[i].(readsWrites := 0))
  }

  // ----- the documented rule: the target is the beginning of the source

  /** Entry by entry, the target links to the beginning of the source. */
  ghost predicate PrefixLinked(source: seq<Parameter>, target: seq<Parameter>) {
    |target| <= |source| && forall i :: 0 <= i < |target| ==> Compatible(source[i], target[i])
  }

  /** Two entries are for the same semantic. */
  predicate SameKey(a: Parameter, b: Parameter) { SameName(a.name, b.name) && a.index == b.index }

  ghost predicate DistinctKeys(ps: seq<Parameter>) {
    forall i, j :: 0 <= i < j < |ps| ==> !SameKey(ps[i], ps[j])
  }

  ghost predicate SameOrder(source: seq<Parameter>, target: seq<Parameter>) {
    |target| <= |source| && forall i :: 0 <= i < |target| ==> SameKey(source[i], target[i])
  }

  /** What the rule accepts the code accepts, on all signatures, and then the semantics stand in the
      same order. */
  lemma PrefixIsFed(source: seq<Parameter>, target: seq<Parameter>)
    requires PrefixLinked(source, target)
    ensures Feeds(source, target) && SameOrder(source, target)
  {
    hide ComponentsLink, SameName;
    forall i | 0 <= i < |target| ensures HasSource(source, target[i]) && SameKey(source[i], target[i]) {
      assert Compatible(source[i], target[i]);
    }
  }

  /** With no semantic twice in the source, the code applies the documented rule exactly to the
      targets whose semantics stand in the order of the source. */
  lemma PrefixIffFedInOrder(source: seq<Parameter>, target: seq<Parameter>)
    requires DistinctKeys(source)
    ensures PrefixLinked(source, target) <==> Feeds(source, target) && SameOrder(source, target)
  {
    hide ComponentsLink;
    if PrefixLinked(source, target) { PrefixIsFed(source, target); }
    if Feeds(source, target) && SameOrder(source, target) {
      forall i | 0 <= i < |target| ensures Compatible(source[i], target[i]) {
        assert HasSource(source, target[i]);
        var k :| 0 <= k < |source| && Compatible(source[k], target[i]);
        assert SameKey(source[i], target[i]);
        assert SameKey(source[k], source[i]) && SameKey(source[i], source[k]);
        assert k == i;
      }
    }
  }

  const A := Parameter(0, [65], 0, 0, 3, 0, 15, 0)
  const B := Parameter(0, [66], 0, 0, 3, 1, 15, 0)
  const A_ELSEWHERE := Parameter(0, [65], 0, 0, 3, 1, 15, 0)

  /** Two entries swapped: accepted, though the target is not the beginning of the source. */
  lemma SwappedAccepted()
    ensures DistinctKeys([A, B]) && Feeds([A, B], [B, A]) && !PrefixLinked([A, B], [B, A])
  {
    SelfCompatible(A);
    SelfCompatible(B);
    hide ComponentsLink;
    var s := [A, B];
    assert A.name[0] != B.name[0] && Lower(A.name[0]) != Lower(B.name[0]);
    assert Compatible(s[1], B) && Compatible(s[0], A);
    assert !Compatible(s[0], [B, A][0]);
  }

  /** With a semantic twice in the source, the same order is not enough: the entry may link to the
      other one of that semantic. */
  lemma RepeatedKeyAccepted()
    ensures !DistinctKeys([A, A_ELSEWHERE])
    ensures Feeds([A, A_ELSEWHERE], [A_ELSEWHERE]) && SameOrder([A, A_ELSEWHERE], [A_ELSEWHERE])
            && !PrefixLinked([A, A_ELSEWHERE], [A_ELSEWHERE])
  {
    SelfCompatible(A_ELSEWHERE);
    hide ComponentsLink;
    var s := [A, A_ELSEWHERE];
    assert SameKey(s[0], s[1]);
    assert Compatible(s[1], A_ELSEWHERE);
    assert !Compatible(s[0], [A_ELSEWHERE][0]);
  }

  lemma SelfCompatible(p: Parameter)
    requires p.readsWrites == 0
    ensures Compatible(p, p)
  {
    ClearedCompatible(p);
    assert p.(readsWrites := 0) == p;
  }

  /** A source whose masks were cleared feeds every target made of its entries, in any order. */
  lemma PermutedTargetAccepted(source: seq<Parameter>, places: seq<nat>)
    requires |places| <= |source| && forall i :: 0 <= i < |places| ==> places[i] < |source|
    ensures Feeds(Cleared(source), seq(|places|, i requires 0 <= i < |places| => source[places[i]]))
  {
    var target := seq(|places|, i requires 0 <= i < |places| => source[places[i]]);
    forall i | 0 <= i < |target| ensures HasSource(Cleared(source), target[i]) {
      ClearedCompatible(source[places[i]]);
      assert Compatible(Cleared(source)[places[i]], target[i]);
    }
  }

  lemma ClearedCompatible(p: Parameter)
    ensures Compatible(p.(readsWrites := 0), p)
  {
    forall c: nat ensures !Component(0, c) { }
  }

  // ----- loading

  ghost predicate NonDecreasing(ps: seq<Parameter>) {
    forall i, j :: 0 <= i < j < |ps| ==> ps[i].register <= ps[j].register
  }

  method RegistersOrdered(ps: seq<Parameter>) returns (ok: bool)
    ensures ok == NonDecreasing(ps)
  {
    var last := 0;
    for i := 0 to |ps|
      invariant i > 0 ==> last == ps[i - 1].register
      invariant NonDecreasing(ps[..i])
    {
      if i > 0 && last > ps[i].register { return false; }
      last := ps[i].register;
    }
    assert ps[..|ps|] == ps;
    return true;
  }

  method CharSums(ps: seq<Parameter>) returns (sums: seq<nat>)
    ensures |sums| == |ps| && forall i :: 0 <= i < |ps| ==> sums[i] == CharSum(ps[i].name)
  {
    sums := [];
    for i := 0 to |ps|
      invariant |sums| == i && forall k :: 0 <= k < i ==> sums[k] == CharSum(ps[k].name)
    {
      var sum := LowerCaseCharSum(ps[i].name);
      sums := sums + [sum];
    }
  }

  // ----- streams

  /** End of the run of stream s that starts at i. */
  function RunEnd(ps: seq<Parameter>, i: nat, s: nat): (e: nat)
    requires i <= |ps|
    ensures i <= e <= |ps| && (forall k :: i <= k < e ==> ps[k].stream == s) && (e < |ps| ==> ps[e].stream != s)
    decreases |ps| - i
  {
    if i < |ps| && ps[i].stream == s then RunEnd(ps, i + 1, s) else i
  }

  /** Where the segment of stream s starts: streams are taken in order, each as one run. */
  function Bound(ps: seq<Parameter>, s: nat): (b: nat)
    ensures b <= |ps|
  {
    if s == 0 then 0 else RunEnd(ps, Bound(ps, s - 1), s - 1)
  }

  function Segment(ps: seq<Parameter>, s: nat): seq<Parameter> { ps[Bound(ps, s)..Bound(ps, s + 1)] }

  /** Entries come in stream order and name one of the four streams. */
  ghost predicate InStreamOrder(ps: seq<Parameter>) {
    forall i, j :: 0 <= i <= j < |ps| ==> ps[i].stream <= ps[j].stream < 4
  }

  function OfStream(ps: seq<Parameter>, s: nat): seq<Parameter> {
    if ps == [] then [] else (if ps[0].stream == s then [ps[0]] else []) + OfStream(ps[1..], s)
  }

  lemma {:induction false} BeforeBound(ps: seq<Parameter>, s: nat)
    ensures forall i, j :: 0 <= i <= j < Bound(ps, s) ==> ps[i].stream <= ps[j].stream < s
  {
    if s > 0 { BeforeBound(ps, s - 1); }
  }

  lemma {:induction false} AfterBound(ps: seq<Parameter>, s: nat)
    requires InStreamOrder(ps)
    ensures forall k :: Bound(ps, s) <= k < |ps| ==> ps[k].stream >= s
  {
    if s > 0 {
      AfterBound(ps, s - 1);
      var b := Bound(ps, s);
      forall k | b <= k < |ps| ensures ps[k].stream >= s { assert ps[b].stream <= ps[k].stream; }
    }
  }

  /** The four segments hold every entry exactly when the entries come in stream order. Out of
      order, entries are dropped from every stream without an error. */
  lemma SegmentsCoverIff(ps: seq<Parameter>)
    ensures Bound(ps, 4) == |ps| <==> InStreamOrder(ps)
  {
    BeforeBound(ps, 4);
    if InStreamOrder(ps) {
      AfterBound(ps, 4);
    }
  }

  /** An entry of stream 0 behind one of stream 1 is in no segment. */
  lemma OutOfOrderDropped(late: Parameter, early: Parameter)
    requires late.stream == 0 && early.stream == 1
    ensures forall s: nat :: late !in Segment([early, late], s)
  {
    var ps := [early, late];
    BoundStep(ps, 0);
    BoundStep(ps, 1);
    BoundStep(ps, 2);
    forall s: nat ensures late !in Segment(ps, s) { BoundStep(ps, s); }
  }

  lemma {:induction false} OfStreamConcat(a: seq<Parameter>, b: seq<Parameter>, s: nat)
    ensures OfStream(a + b, s) == OfStream(a, s) + OfStream(b, s)
  {
    if a == [] {
      assert a + b == b;
    } else {
      assert (a + b)[0] == a[0] && (a + b)[1..] == a[1..] + b;
      OfStreamConcat(a[1..], b, s);
      var head, x, y := if a[0].stream == s then [a[0]] else [], OfStream(a[1..], s), OfStream(b, s);
      assert OfStream(a + b, s) == head + (x + y);
      assert head + (x + y) == (head + x) + y;
    }
  }

  lemma {:induction false} OfStreamUniform(ps: seq<Parameter>, s: nat)
    ensures (forall k :: 0 <= k < |ps| ==> ps[k].stream == s) ==> OfStream(ps, s) == ps
    ensures (forall k :: 0 <= k < |ps| ==> ps[k].stream != s) ==> OfStream(ps, s) == []
  {
    if ps != [] { OfStreamUniform(ps[1..], s); }
  }

  lemma Before(ps: seq<Parameter>, s: nat)
    ensures forall k :: 0 <= k < Bound(ps, s) ==> ps[k].stream < s
  {
    BeforeBound(ps, s);
  }

  lemma BoundStep(ps: seq<Parameter>, s: nat)
    ensures Bound(ps, s) <= Bound(ps, s + 1) && Bound(ps, s + 1) == RunEnd(ps, Bound(ps, s), s)
    ensures forall k :: Bound(ps, s) <= k < Bound(ps, s + 1) ==> ps[k].stream == s
  {
  }

  /** In stream order, the segment of a stream is exactly that stream's entries. */
  lemma SegmentIsStream(ps: seq<Parameter>, s: nat)
    requires InStreamOrder(ps)
    ensures Segment(ps, s) == OfStream(ps, s)
  {
    hide Bound, RunEnd, InStreamOrder, OfStream;
    Before(ps, s);
    AfterBound(ps, s + 1);
    BoundStep(ps, s);
    var i, j := Bound(ps, s), Bound(ps, s + 1);
    assert ps == ps[..i] + ps[i..j] + ps[j..];
    MiddleOnly(ps[..i], ps[i..j], ps[j..], s);
  }

  lemma MiddleOnly(a: seq<Parameter>, b: seq<Parameter>, c: seq<Parameter>, s: nat)
    requires forall k :: 0 <= k < |a| ==> a[k].stream < s
    requires forall k :: 0 <= k < |b| ==> b[k].stream == s
    requires forall k :: 0 <= k < |c| ==> c[k].stream > s
    ensures OfStream(a + b + c, s) == b
  {
    hide OfStream;
    OfStreamConcat(a + b, c, s);
    OfStreamConcat(a, b, s);
    OfStreamUniform(a, s);
    OfStreamUniform(b, s);
    OfStreamUniform(c, s);
  }

  class SignatureParser5 {
    var parameters: seq<Parameter>
    var streams: seq<SignatureParser>
    var numSigs: nat

    constructor ()
      ensures parameters == [] && streams == [] && numSigs == 0
    {
      parameters, streams, numSigs := [], [], 0;
    }

    /** Succeeds exactly when registers never decrease within a segment; stream s then holds its
        segment, with valid sums, and the streams counted are those up to the last one in use. */
    method ReadSignature(infos: seq<Parameter>) returns (ok: bool)
      modifies this
      ensures ok <==> forall s :: 0 <= s < 4 ==> NonDecreasing(Segment(infos, s))
      ensures ok ==> parameters == infos && |streams| == numSigs <= 4
      ensures ok ==> forall s :: 0 <= s < numSigs ==> streams[s].Valid() && streams[s].parameters == Segment(infos, s)
      ensures ok ==> forall s :: numSigs <= s < 4 ==> Segment(infos, s) == []
      ensures ok && numSigs > 0 ==> Segment(infos, numSigs - 1) != []
    {
      hide Bound, RunEnd, NonDecreasing, CharSum, Segment;
      parameters, streams, numSigs := [], [], 0;
      var bounds;
      ok, bounds := Scan(infos);
      if !ok { return; }
      parameters := infos;
      streams := LoadStreams(infos, bounds, numSigs);
    }

    method LoadStreams(infos: seq<Parameter>, bounds: seq<nat>, n: nat) returns (loaded: seq<SignatureParser>)
      requires n < |bounds| && forall s :: 0 <= s <= n ==> bounds[s] == Bound(infos, s)
      ensures |loaded| == n && forall s :: 0 <= s < n ==> loaded[s].Valid() && loaded[s].parameters == Segment(infos, s)
    {
      hide Bound, RunEnd, CharSum;
      var sums := CharSums(infos);
      loaded := [];
      while |loaded| < n
        invariant |loaded| <= n
        invariant forall k :: 0 <= k < |loaded| ==>
                    fresh(loaded[k]) && loaded[k].Valid() && loaded[k].parameters == Segment(infos, k)
      {
        var s := |loaded|;
        BoundStep(infos, s);
        var sub := new SignatureParser();
        sub.Attach(infos[bounds[s]..bounds[s + 1]], sums[bounds[s]..bounds[s + 1]]);
        loaded := loaded + [sub];
      }
    }

    /** The first pass: cuts the entries into runs and checks register order within each. */
    method Scan(infos: seq<Parameter>) returns (ok: bool, bounds: seq<nat>)
      requires numSigs == 0
      modifies this`numSigs
      ensures ok <==> forall s :: 0 <= s < STREAM_COUNT ==> NonDecreasing(Segment(infos, s))
      ensures ok ==> |bounds| == STREAM_COUNT + 1 && forall s :: 0 <= s <= STREAM_COUNT ==> bounds[s] == Bound(infos, s)
      ensures ok ==> numSigs <= STREAM_COUNT && (numSigs > 0 ==> Segment(infos, numSigs - 1) != [])
      ensures ok ==> forall s :: numSigs <= s < STREAM_COUNT ==> Segment(infos, s) == []
    {
      hide Bound, RunEnd, NonDecreasing;
      assert Bound(infos, 0) == 0 by { NoBound(infos); }
      bounds := [0];
      var i := 0;
      var s := 0;
      while s < STREAM_COUNT
        invariant 0 <= s <= STREAM_COUNT && i == Bound(infos, s) && numSigs <= s
        invariant |bounds| == s + 1 && forall k :: 0 <= k <= s ==> bounds[k] == Bound(infos, k)
        invariant forall k :: 0 <= k < s ==> NonDecreasing(Segment(infos, k))
        invariant numSigs > 0 ==> Segment(infos, numSigs - 1) != []
        invariant forall k :: numSigs <= k < s ==> Segment(infos, k) == []
      {
        var e;
        ok, e := ScanRun(infos, i, s);
        BoundStep(infos, s);
        if !ok {
          assert !NonDecreasing(Segment(infos, s));
          return;
        }
        if e > i { numSigs := s + 1; }
        i := e;
        bounds := bounds + [i];
        s := s + 1;
      }
      ok := true;
    }

    method ScanRun(infos: seq<Parameter>, first: nat, s: nat) returns (ok: bool, e: nat)
      requires first <= |infos|
      ensures ok == NonDecreasing(infos[first..RunEnd(infos, first, s)])
      ensures ok ==> e == RunEnd(infos, first, s)
    {
      e := first;
      var last := 0;
      ghost var run := infos[first..RunEnd(infos, first, s)];
      while e < |infos| && infos[e].stream == s
        invariant first <= e <= RunEnd(infos, first, s)
        invariant e > first ==> last == infos[e - 1].register
        invariant NonDecreasing(infos[first..e])
      {
        if e > first && last > infos[e].register {
          assert run[e - 1 - first] == infos[e - 1] && run[e - first] == infos[e];
          return false, e;
        }
        Extend(infos, first, e);
        last := infos[e].register;
        e := e + 1;
      }
      ok := true;
    }
  }

  lemma NoBound(ps: seq<Parameter>)
    ensures Bound(ps, 0) == 0
  {
  }

  lemma Extend(ps: seq<Parameter>, first: nat, e: nat)
    requires first <= e < |ps| && NonDecreasing(ps[first..e]) && (e > first ==> ps[e - 1].register <= ps[e].register)
    ensures NonDecreasing(ps[first..e + 1])
  {
    var a, b := ps[first..e], ps[first..e + 1];
    forall i, j | 0 <= i < j < |b| ensures b[i].register <= b[j].register {
      if j < |a| {
        assert a[i] == b[i] && a[j] == b[j];
      } else if i < |a| {
        assert a[i] == b[i] && a[|a| - 1] == ps[e - 1];
      }
    }
  }
}
