/** Argument-table layout: the slots handed out for constant buffers, samplers, SRVs and UAVs, and
    the rebuild after multisampled SRVs are demoted. */
module Bindings {
  import opened Bits

  const UNSET: nat := 0xffff_ffff

  datatype ResourceType =
    | TextureBuffer | Texture1D | Texture1DArray | Texture2D | Texture2DArray | Texture2DMultisampled
    | Texture2DMultisampledArray | Texture3D | TextureCube | TextureCubeArray | NonApplicable

  /** One entry of a shader's resource maps; key is the range id, the map's key. */
  datatype Entry =
    | Constant(key: nat, slot: nat, arg: nat)
    | Sampler(key: nat, slot: nat, arg: nat, cube: nat, meta: nat)
    | Srv(key: nat, slot: nat, kind: ResourceType, arg: nat, meta: nat)
    | Uav(key: nat, slot: nat, kind: ResourceType, withCounter: bool, arg: nat, meta: nat, counter: nat)

  datatype FieldKind = BufferField | TextureField(kind: ResourceType) | SamplerField | IntegerField

  /** A table element; its name is a prefix and the range id. */
  datatype Field = Field(kind: FieldKind, prefix: string, key: nat, location: nat)

  // ----- one entry

  /** First location of an entry, in 32-bit arithmetic. */
  function Location(e: Entry): nat {
    match e
    case Constant(_, slot, _) => slot % U32
    case Sampler(_, slot, _, _, _) => (slot + 32) % U32
    case Srv(_, slot, _, _, _) => (slot * 3 + 128) % U32
    case Uav(_, slot, _, _, _, _, _) => (slot * 3 + 512) % U32
  }

  /** A field at the location asked for; an unset location means the element's own index. */
  function Located(kind: FieldKind, prefix: string, key: nat, location: nat, index: nat): Field {
    Field(kind, prefix, key, if location % U32 == UNSET then index % U32 else location % U32)
  }

  function ViewKind(kind: ResourceType): FieldKind { if kind != NonApplicable then TextureField(kind) else BufferField }

  function Width(e: Entry): nat {
    match e
    case Constant(_, _, _) => 1
    case Sampler(_, _, _, _, _) => 3
    case Srv(_, _, _, _, _) => 2
    case Uav(_, _, _, withCounter, _, _, _) => if withCounter then 3 else 2
  }

  /** The entry once its elements start at index n. */
  function PlacedAt(e: Entry, n: nat): Entry {
    match e
    case Constant(key, slot, _) => Constant(key, slot, n)
    case Sampler(key, slot, _, _, _) => Sampler(key, slot, n, n + 1, n + 2)
    case Srv(key, slot, kind, _, _) => Srv(key, slot, kind, n, n + 1)
    case Uav(key, slot, kind, withCounter, _, _, counter) =>
      Uav(key, slot, kind, withCounter, n, n + 1, if withCounter then n + 2 else counter)
  }

  /** The elements an entry contributes when they start at index n. */
  function FieldsAt(e: Entry, n: nat): seq<Field> {
    var loc := Location(e);
    match e
    case Constant(key, _, _) => [Located(BufferField, "cb", key, loc, n)]
    case Sampler(key, _, _, _, _) =>
      [Located(SamplerField, "s", key, loc, n), Located(SamplerField, "cube_s", key, loc + 1, n + 1),
       Located(IntegerField, "meta_s", key, loc + 2, n + 2)]
    case Srv(key, _, kind, _, _) =>
      [Located(ViewKind(kind), "t", key, loc, n), Located(IntegerField, "meta_t", key, loc + 1, n + 1)]
    case Uav(key, _, kind, withCounter, _, _, _) =>
      [Located(ViewKind(kind), "u", key, loc, n), Located(IntegerField, "meta_u", key, loc + 1, n + 1)]
      + (if withCounter then [Located(BufferField, "counter", key, loc + 2, n + 2)] else [])
  }

  /** The indices an entry records. */
  function IndicesOf(e: Entry): seq<nat> {
    match e
    case Constant(_, _, arg) => [arg]
    case Sampler(_, _, arg, cube, meta) => [arg, cube, meta]
    case Srv(_, _, _, arg, meta) => [arg, meta]
    case Uav(_, _, _, withCounter, arg, meta, counter) => if withCounter then [arg, meta, counter] else [arg, meta]
  }

  // ----- a list of entries, in key order

  function Total(es: seq<Entry>): nat { if es == [] then 0 else Width(es[0]) + Total(es[1..]) }

  function PlacedFrom(es: seq<Entry>, n: nat): seq<Entry> {
    if es == [] then [] else [PlacedAt(es[0], n)] + PlacedFrom(es[1..], n + Width(es[0]))
  }

  function FieldsFrom(es: seq<Entry>, n: nat): seq<Field> {
    if es == [] then [] else FieldsAt(es[0], n) + FieldsFrom(es[1..], n + Width(es[0]))
  }

  function Indices(es: seq<Entry>): seq<nat> { if es == [] then [] else IndicesOf(es[0]) + Indices(es[1..]) }

  /** n, n + 1, ..., n + len - 1. */
  function Range(n: nat, len: nat): seq<nat> { seq(len, i requires 0 <= i < len => n + i) }

  lemma RangeSplit(n: nat, a: nat, b: nat)
    ensures Range(n, a) + Range(n + a, b) == Range(n, a + b)
  {
  }

  lemma EntryCovers(e: Entry, n: nat)
    ensures IndicesOf(PlacedAt(e, n)) == Range(n, Width(e)) && |FieldsAt(e, n)| == Width(e)
    ensures Width(PlacedAt(e, n)) == Width(e)
  {
  }

  /** Whatever the entries, the indices recorded in them, read off in order, are exactly the run of
      table positions from n on: none twice, none skipped. */
  lemma {:induction false} ListCovers(es: seq<Entry>, n: nat)
    ensures Indices(PlacedFrom(es, n)) == Range(n, Total(es))
    ensures |PlacedFrom(es, n)| == |es| && |FieldsFrom(es, n)| == Total(es) && Total(PlacedFrom(es, n)) == Total(es)
  {
    hide PlacedAt, FieldsAt, IndicesOf, Width, Range;
    if es == [] {
      EmptyRange(n);
    } else {
      EntryCovers(es[0], n);
      ListCovers(es[1..], n + Width(es[0]));
      RangeSplit(n, Width(es[0]), Total(es[1..]));
      var p := PlacedFrom(es, n);
      assert p[0] == PlacedAt(es[0], n) && p[1..] == PlacedFrom(es[1..], n + Width(es[0]));
    }
  }

  lemma EmptyRange(n: nat)
    ensures Range(n, 0) == []
  {
  }

  lemma {:induction false} PlacedConcat(a: seq<Entry>, b: seq<Entry>, n: nat)
    ensures PlacedFrom(a + b, n) == PlacedFrom(a, n) + PlacedFrom(b, n + Total(a))
  {
    hide PlacedAt, Width;
    if a == [] {
      assert a + b == b;
    } else {
      var n' := n + Width(a[0]);
      assert (a + b)[0] == a[0] && (a + b)[1..] == a[1..] + b;
      PlacedConcat(a[1..], b, n');
      var head, mid, tail := [PlacedAt(a[0], n)], PlacedFrom(a[1..], n'), PlacedFrom(b, n + Total(a));
      assert PlacedFrom(a + b, n) == head + (mid + tail);
      assert PlacedFrom(a, n) == head + mid;
      assert head + (mid + tail) == (head + mid) + tail;
    }
  }

  lemma {:induction false} TotalConcat(a: seq<Entry>, b: seq<Entry>)
    ensures Total(a + b) == Total(a) + Total(b)
  {
    hide Width;
    if a == [] {
      assert a + b == b;
    } else {
      assert (a + b)[0] == a[0] && (a + b)[1..] == a[1..] + b;
      TotalConcat(a[1..], b);
    }
  }

  lemma {:induction false} FieldsConcat(a: seq<Entry>, b: seq<Entry>, n: nat)
    ensures FieldsFrom(a + b, n) == FieldsFrom(a, n) + FieldsFrom(b, n + Total(a))
  {
    hide FieldsAt, Width;
    if a == [] {
      assert a + b == b;
    } else {
      var n' := n + Width(a[0]);
      assert (a + b)[0] == a[0] && (a + b)[1..] == a[1..] + b;
      FieldsConcat(a[1..], b, n');
      assert n' + Total(a[1..]) == n + Total(a);
    }
  }

  // ----- demotion of multisampled SRVs

  function DemotedKind(kind: ResourceType): ResourceType {
    match kind
    case Texture2DMultisampled => Texture2D
    case Texture2DMultisampledArray => Texture2DArray
    case _ => kind
  }

  function DemotedEntry(e: Entry, keys: set<nat>): Entry {
    if e.Srv? && e.key in keys then Srv(e.key, e.slot, DemotedKind(e.kind), e.arg, e.meta) else e
  }

  /** Bit number key of the first mask, or of the second for keys 64 to 127. */
  predicate Named(key: nat, lo: nat, hi: nat) {
    || (key < 64 && lo / Pow2(key) % 2 == 1)
    || (64 <= key < 128 && hi / Pow2(key - 64) % 2 == 1)
  }

  ghost function Keys(lo: nat, hi: nat): (keys: set<nat>)
    ensures forall k :: k in keys <==> Named(k, lo, hi)
  {
    set k: nat | k < 128 && Named(k, lo, hi)
  }

  /** The keys named by the low n bits of both masks. */
  function MaskUpTo(keys: set<nat>, n: nat): set<nat> { set k | k in keys && (k < n || 64 <= k < 64 + n) }

  function Demoted(es: seq<Entry>, keys: set<nat>): seq<Entry> {
    if es == [] then [] else [DemotedEntry(es[0], keys)] + Demoted(es[1..], keys)
  }

  /** Entry by entry: a named SRV of a multisampled kind becomes the plain kind of the same shape, and
      nothing else of it changes; every other entry is as before. */
  ghost predicate DemotedBy(before: seq<Entry>, after: seq<Entry>, lo: nat, hi: nat) {
    |after| == |before| && forall i :: 0 <= i < |before| ==>
      var b, a := before[i], after[i];
      if b.Srv? && Named(b.key, lo, hi) && b.kind == Texture2DMultisampled
      then a == Srv(b.key, b.slot, Texture2D, b.arg, b.meta)
      else if b.Srv? && Named(b.key, lo, hi) && b.kind == Texture2DMultisampledArray
      then a == Srv(b.key, b.slot, Texture2DArray, b.arg, b.meta)
      else a == b
  }

  lemma {:induction false} DemotedExact(es: seq<Entry>, lo: nat, hi: nat)
    ensures DemotedBy(es, Demoted(es, Keys(lo, hi)), lo, hi)
  {
    hide Named;
    if es != [] {
      DemotedExact(es[1..], lo, hi);
      var d := Demoted(es, Keys(lo, hi));
      assert d[1..] == Demoted(es[1..], Keys(lo, hi));
      forall i | 0 < i < |es| ensures es[i] == es[1..][i - 1] && d[i] == d[1..][i - 1] { }
    }
  }

  /** A named SRV of this kind. */
  predicate Holds(e: Entry, kind: ResourceType, lo: nat, hi: nat) {
    e.Srv? && Named(e.key, lo, hi) && e.kind == kind
  }

  /** The element at the index of each named SRV of one kind was a texture of that kind and is now one of
      the other. */
  ghost predicate Becomes(es: seq<Entry>, n: nat, before: seq<Field>, after: seq<Field>, kind: ResourceType,
                          plain: ResourceType, lo: nat, hi: nat)
    requires |after| == |before|
  {
    forall j :: 0 <= j < |es| && Holds(es[j], kind, lo, hi) ==>
      n <= es[j].arg < n + |before| && before[es[j].arg - n].kind == TextureField(kind)
      && after[es[j].arg - n].kind == TextureField(plain)
  }

  /** Every element that is not the first of a named multisampled SRV is the same in all respects. */
  ghost predicate OthersKept(es: seq<Entry>, n: nat, before: seq<Field>, after: seq<Field>, lo: nat, hi: nat)
    requires |after| == |before|
  {
    forall i :: 0 <= i < |before| && NoneAt(es, n + i, lo, hi) ==> after[i] == before[i]
  }

  /** The elements laid out again, entries starting at index n. */
  ghost predicate Rekinded(es: seq<Entry>, n: nat, before: seq<Field>, after: seq<Field>, lo: nat, hi: nat) {
    && |after| == |before|
    && Becomes(es, n, before, after, Texture2DMultisampled, Texture2D, lo, hi)
    && Becomes(es, n, before, after, Texture2DMultisampledArray, Texture2DArray, lo, hi)
    && OthersKept(es, n, before, after, lo, hi)
  }

  /** No named multisampled SRV has its first element at index k. */
  ghost predicate NoneAt(es: seq<Entry>, k: nat, lo: nat, hi: nat) {
    forall j :: 0 <= j < |es| && Multisampled(es[j], lo, hi) ==> es[j].arg != k
  }

  predicate Multisampled(e: Entry, lo: nat, hi: nat) {
    Holds(e, Texture2DMultisampled, lo, hi) || Holds(e, Texture2DMultisampledArray, lo, hi)
  }

  lemma EntryRekinded(e: Entry, n: nat, lo: nat, hi: nat)
    ensures var p := PlacedAt(e, n);
            Rekinded([p], n, FieldsAt(e, n), FieldsAt(DemotedEntry(p, Keys(lo, hi)), n), lo, hi)
  {
    hide Named, Located, Location, FieldsAt, Width;
    var p := PlacedAt(e, n);
    var d := DemotedEntry(p, Keys(lo, hi));
    PlacedFields(e, n);
    EntryCovers(e, n);
    if Multisampled(p, lo, hi) {
      MultisampledFields(e, d, n);
      forall i | 0 <= i < 2 && NoneAt([p], n + i, lo, hi) ensures FieldsAt(d, n)[i] == FieldsAt(e, n)[i] {
        assert [p][0].arg != n + i;
      }
    } else {
      assert d == p;
    }
  }

  /** An SRV's first element shows its kind; the other does not depend on it. */
  lemma MultisampledFields(e: Entry, d: Entry, n: nat)
    requires e.Srv? && d.Srv? && d.key == e.key && d.slot == e.slot
    requires e.kind != NonApplicable && d.kind != NonApplicable
    ensures |FieldsAt(e, n)| == |FieldsAt(d, n)| == 2 && FieldsAt(d, n)[1] == FieldsAt(e, n)[1]
    ensures FieldsAt(e, n)[0].kind == TextureField(e.kind) && FieldsAt(d, n)[0].kind == TextureField(d.kind)
  {
    assert Location(d) == Location(e);
    hide Location;
  }

  lemma BecomesConcat(a: seq<Entry>, b: seq<Entry>, n: nat, f: seq<Field>, f': seq<Field>, g: seq<Field>,
                      g': seq<Field>, kind: ResourceType, plain: ResourceType, lo: nat, hi: nat)
    requires |f'| == |f| && |g'| == |g|
    requires Becomes(a, n, f, f', kind, plain, lo, hi) && Becomes(b, n + |f|, g, g', kind, plain, lo, hi)
    ensures Becomes(a + b, n, f + g, f' + g', kind, plain, lo, hi)
  {
    hide Named;
  }

  lemma OthersConcat(a: seq<Entry>, b: seq<Entry>, n: nat, f: seq<Field>, f': seq<Field>, g: seq<Field>,
                     g': seq<Field>, lo: nat, hi: nat)
    requires |f'| == |f| && |g'| == |g| && OthersKept(a, n, f, f', lo, hi) && OthersKept(b, n + |f|, g, g', lo, hi)
    ensures OthersKept(a + b, n, f + g, f' + g', lo, hi)
  {
    hide NoneAt;
    forall i | 0 <= i < |f + g| && NoneAt(a + b, n + i, lo, hi) ensures (f' + g')[i] == (f + g)[i] {
      NoneConcat(a, b, n + i, lo, hi);
      if i >= |f| { assert n + i == n + |f| + (i - |f|); }
    }
  }

  lemma NoneConcat(a: seq<Entry>, b: seq<Entry>, k: nat, lo: nat, hi: nat)
    requires NoneAt(a + b, k, lo, hi)
    ensures NoneAt(a, k, lo, hi) && NoneAt(b, k, lo, hi)
  {
    hide Holds;
    forall j | 0 <= j < |a| && Multisampled(a[j], lo, hi) ensures a[j].arg != k { assert (a + b)[j] == a[j]; }
    forall j | 0 <= j < |b| && Multisampled(b[j], lo, hi) ensures b[j].arg != k { assert (a + b)[|a| + j] == b[j]; }
  }

  lemma RekindedConcat(a: seq<Entry>, b: seq<Entry>, n: nat, f: seq<Field>, f': seq<Field>, g: seq<Field>,
                       g': seq<Field>, lo: nat, hi: nat)
    requires Rekinded(a, n, f, f', lo, hi) && Rekinded(b, n + |f|, g, g', lo, hi)
    ensures Rekinded(a + b, n, f + g, f' + g', lo, hi)
  {
    hide Becomes, OthersKept;
    BecomesConcat(a, b, n, f, f', g, g', Texture2DMultisampled, Texture2D, lo, hi);
    BecomesConcat(a, b, n, f, f', g, g', Texture2DMultisampledArray, Texture2DArray, lo, hi);
    OthersConcat(a, b, n, f, f', g, g', lo, hi);
  }

  /** Laying out again after the demotion changes the kinds of just the elements of demoted SRVs. */
  lemma {:induction false} ListRekinded(es: seq<Entry>, n: nat, lo: nat, hi: nat)
    ensures var p := PlacedFrom(es, n);
            Rekinded(p, n, FieldsFrom(es, n), FieldsFrom(Demoted(p, Keys(lo, hi)), n), lo, hi)
    decreases |es|
  {
    hide PlacedAt, FieldsAt, Width, DemotedEntry, Rekinded, Keys;
    if es == [] {
      NothingRekinded(n, lo, hi);
    } else {
      var w := Width(es[0]);
      var p, rest := PlacedAt(es[0], n), PlacedFrom(es[1..], n + w);
      EntryRekinded(es[0], n, lo, hi);
      EntryCovers(es[0], n);
      EntryReproduced(es[0], n, Keys(lo, hi));
      ListRekinded(es[1..], n + w, lo, hi);
      var d := Demoted([p] + rest, Keys(lo, hi));
      assert ([p] + rest)[1..] == rest;
      assert d[0] == DemotedEntry(p, Keys(lo, hi)) && d[1..] == Demoted(rest, Keys(lo, hi));
      RekindedConcat([p], rest, n, FieldsAt(es[0], n), FieldsAt(d[0], n), FieldsFrom(es[1..], n + w),
        FieldsFrom(d[1..], n + w), lo, hi);
    }
  }

  lemma NothingRekinded(n: nat, lo: nat, hi: nat)
    ensures Rekinded([], n, [], [], lo, hi)
  {
  }

  /** The same element as far as name and location go. */
  predicate SameName(a: Field, b: Field) { a.prefix == b.prefix && a.key == b.key && a.location == b.location }

  ghost predicate SameNames(a: seq<Field>, b: seq<Field>) {
    |a| == |b| && forall i :: 0 <= i < |a| ==> SameName(a[i], b[i])
  }

  lemma EntryReproduced(e: Entry, n: nat, keys: set<nat>)
    ensures var d := DemotedEntry(PlacedAt(e, n), keys);
            PlacedAt(d, n) == d && Width(d) == Width(e) && SameNames(FieldsAt(d, n), FieldsAt(e, n))
            && IndicesOf(d) == IndicesOf(PlacedAt(e, n))
  {
    var d := DemotedEntry(PlacedAt(e, n), keys);
    assert Location(d) == Location(e);
    assert e.Constant? ==> FieldsAt(d, n) == FieldsAt(e, n);
    assert e.Sampler? ==> FieldsAt(d, n) == FieldsAt(e, n);
    assert e.Uav? ==> FieldsAt(d, n) == FieldsAt(e, n);
    hide Location;
  }

  lemma SameNamesConcat(a: seq<Field>, b: seq<Field>, a': seq<Field>, b': seq<Field>)
    requires SameNames(a, a') && SameNames(b, b')
    ensures SameNames(a + b, a' + b')
  {
    hide SameName;
  }

  /** Laying out again after demoting any SRVs changes nothing but resource kinds: every recorded
      index is reproduced and every element keeps its name and its location. */
  lemma {:induction false} ListReproduced(es: seq<Entry>, n: nat, keys: set<nat>)
    ensures var d := Demoted(PlacedFrom(es, n), keys);
            PlacedFrom(d, n) == d && Indices(d) == Indices(PlacedFrom(es, n)) && Total(d) == Total(es)
            && SameNames(FieldsFrom(d, n), FieldsFrom(es, n))
  {
    hide PlacedAt, FieldsAt, IndicesOf, Width, DemotedEntry, SameName;
    if es != [] {
      var rest := PlacedFrom(es[1..], n + Width(es[0]));
      ListReproduced(es[1..], n + Width(es[0]), keys);
      EntryReproduced(es[0], n, keys);
      var p := PlacedFrom(es, n);
      assert p[0] == PlacedAt(es[0], n) && p[1..] == rest;
      var d := Demoted(p, keys);
      assert d[0] == DemotedEntry(p[0], keys) && d[1..] == Demoted(rest, keys);
      SameNamesConcat(FieldsAt(d[0], n), FieldsFrom(d[1..], n + Width(es[0])), FieldsAt(es[0], n),
        FieldsFrom(es[1..], n + Width(es[0])));
    }
  }

  lemma EntryTwice(e: Entry, a: set<nat>, b: set<nat>)
    ensures DemotedEntry(DemotedEntry(e, a), b) == DemotedEntry(e, a + b) && DemotedEntry(e, {}) == e
  {
  }

  lemma {:induction false} DemotedTwice(es: seq<Entry>, a: set<nat>, b: set<nat>)
    ensures Demoted(Demoted(es, a), b) == Demoted(es, a + b)
    ensures Demoted(es, {}) == es && |Demoted(es, a)| == |es|
  {
    hide DemotedEntry;
    if es != [] {
      EntryTwice(es[0], a, b);
      DemotedTwice(es[1..], a, b);
      assert [es[0]] + es[1..] == es;
      var d := Demoted(es, a);
      assert d[0] == DemotedEntry(es[0], a) && d[1..] == Demoted(es[1..], a);
    }
  }

  lemma {:induction false} DemotedSnoc(es: seq<Entry>, e: Entry, keys: set<nat>)
    ensures Demoted(es + [e], keys) == Demoted(es, keys) + [DemotedEntry(e, keys)]
  {
    hide DemotedEntry;
    if es == [] {
      assert es + [e] == [e];
    } else {
      assert (es + [e])[0] == es[0] && (es + [e])[1..] == es[1..] + [e];
      DemotedSnoc(es[1..], e, keys);
    }
  }

  // ----- locations

  /** Locations an entry occupies: its first and, per element, the following ones, in 32 bits. */
  function Locations(e: Entry): (s: seq<nat>)
    ensures |s| == Width(e)
  {
    seq(Width(e), i requires 0 <= i < Width(e) => (Location(e) + i) % U32)
  }

  ghost predicate Apart(a: Entry, b: Entry) {
    forall i, j :: 0 <= i < |Locations(a)| && 0 <= j < |Locations(b)| ==> Locations(a)[i] != Locations(b)[j]
  }

  /** How far b's first location is ahead of a's, going round the 32-bit numbers. */
  function Ahead(a: Entry, b: Entry): nat { (Location(b) - Location(a)) % U32 }

  lemma FirstLocation(e: Entry)
    ensures Location(e) < U32 && 1 <= Width(e) <= 3
  {
  }

  /** For any two entries with any slots: their locations are apart exactly when each starts at
      least the other's width ahead of it. */
  lemma ApartIff(a: Entry, b: Entry)
    ensures Apart(a, b) <==> Ahead(a, b) >= Width(a) && Ahead(b, a) >= Width(b)
  {
    hide Location, Width, Locations, Ahead;
    FirstLocation(a);
    FirstLocation(b);
    AheadMeets(a, b);
    AheadMeets(b, a);
    forall i, j | 0 <= i < Width(a) && 0 <= j < Width(b) && Locations(a)[i] == Locations(b)[j]
      ensures Ahead(a, b) < Width(a) || Ahead(b, a) < Width(b)
    {
      MeetAhead(a, b, i, j);
    }
  }

  lemma AheadMeets(a: Entry, b: Entry)
    ensures Ahead(a, b) < Width(a) ==> Locations(a)[Ahead(a, b)] == Locations(b)[0]
  {
    hide Location, Width;
    FirstLocation(a);
    FirstLocation(b);
    Around(Location(a), Location(b));
  }

  lemma MeetAhead(a: Entry, b: Entry, i: nat, j: nat)
    requires i < Width(a) && j < Width(b) && Locations(a)[i] == Locations(b)[j]
    ensures Ahead(a, b) < Width(a) || Ahead(b, a) < Width(b)
  {
    hide Location, Width;
    FirstLocation(a);
    FirstLocation(b);
    Meeting(Location(a), Location(b), i, j);
  }

  lemma Around(x: nat, y: nat)
    requires x < U32 && y < U32
    ensures (x + (y - x) % U32) % U32 == y && (y + 0) % U32 == y
  {
  }

  lemma Meeting(x: nat, y: nat, i: nat, j: nat)
    requires x < U32 && y < U32 && i < 3 && j < 3 && (x + i) % U32 == (y + j) % U32
    ensures i >= j ==> (y - x) % U32 == i - j
    ensures j >= i ==> (x - y) % U32 == j - i
  {
  }

  /** The elements defined for an entry are at just those locations, an element whose location is
      the unset one at its own index. */
  lemma FieldsAtLocations(e: Entry, n: nat, i: nat)
    requires i < Width(e)
    ensures |FieldsAt(e, n)| == Width(e)
    ensures var first := if e.Constant? then e.slot else if e.Sampler? then e.slot + 32
                         else if e.Srv? then 3 * e.slot + 128 else 3 * e.slot + 512;
            && Locations(e)[i] == (first + i) % 0x1_0000_0000
            && FieldsAt(e, n)[i].location ==
                 if Locations(e)[i] == 0xffff_ffff then (n + i) % 0x1_0000_0000 else Locations(e)[i]
  {
    FirstLocation(e);
    LocationIs(e, i);
    hide Location;
  }

  lemma LocationIs(e: Entry, i: nat)
    ensures var first := if e.Constant? then e.slot else if e.Sampler? then e.slot + 32
                         else if e.Srv? then 3 * e.slot + 128 else 3 * e.slot + 512;
            (Location(e) + i) % U32 == (first + i) % 0x1_0000_0000
  {
  }

  /** Slots of shader model 5. */
  predicate InSlots(e: Entry) {
    (e.Sampler? ==> e.slot < 16) && (e.Srv? ==> e.slot < 128) && (e.Uav? ==> e.slot < 64) && !e.Constant?
  }

  lemma SlotLocation(e: Entry)
    requires InSlots(e)
    ensures e.Sampler? ==> e.slot < 16 && Location(e) == e.slot + 32 && Width(e) == 3
    ensures e.Srv? ==> e.slot < 128 && Location(e) == e.slot * 3 + 128 && Width(e) == 2
    ensures e.Uav? ==> e.slot < 64 && Location(e) == e.slot * 3 + 512 && 2 <= Width(e) <= 3
    ensures !e.Constant?
  {
  }

  predicate SameClass(a: Entry, b: Entry) { (a.Sampler? && b.Sampler?) || (a.Srv? && b.Srv?) || (a.Uav? && b.Uav?) }

  /** Within those slots two entries of the argument table occupy different locations, unless they
      are samplers whose slots differ by less than three: sampler slots are one location apart but
      take three each. */
  lemma LocationsApart(a: Entry, b: Entry)
    requires InSlots(a) && InSlots(b) && (SameClass(a, b) ==> a.slot != b.slot)
    ensures Apart(a, b) <==> !(a.Sampler? && b.Sampler? && a.slot < b.slot + 3 && b.slot < a.slot + 3)
  {
    hide Apart, Location, Width, InSlots, Ahead;
    ApartIff(a, b);
    SlotLocation(a);
    SlotLocation(b);
    AheadSmall(a, b);
    AheadSmall(b, a);
  }

  lemma AheadSmall(a: Entry, b: Entry)
    requires Location(a) < 1024 && Location(b) < 1024
    ensures Ahead(a, b) == if Location(a) <= Location(b) then Location(b) - Location(a)
            else U32 - (Location(a) - Location(b))
  {
    hide Location;
  }

  /** Samplers 0 and 1 meet: the second element of one and the first of the other are at 33. */
  lemma NeighbouringSamplersMeet(n: nat, m: nat)
    ensures var a, b := Sampler(0, 0, 0, 0, 0), Sampler(1, 1, 0, 0, 0);
            !Apart(a, b) && FieldsAt(a, n)[1].location == FieldsAt(b, m)[0].location == 33
  {
    var a, b := Sampler(0, 0, 0, 0, 0), Sampler(1, 1, 0, 0, 0);
    assert Location(a) == 32 && Location(b) == 33 && Width(a) == 3 && Width(b) == 3;
    hide Apart, FieldsAt, Location, Width;
    LocationsApart(a, b);
    FieldsAtLocations(a, n, 1);
    FieldsAtLocations(b, m, 0);
  }

  // ----- the builder

  class ArgumentBufferBuilder {
    var fields: seq<Field>

    constructor ()
      ensures fields == []
    {
      fields := [];
    }

    /** Appends one element and returns its index. */
    method Define(kind: FieldKind, prefix: string, key: nat, location: nat) returns (index: nat)
      modifies this
      ensures index == |old(fields)| && fields == old(fields) + [Located(kind, prefix, key, location, index)]
    {
      index := |fields|;
      var loc := location % U32;
      fields := fields + [Field(kind, prefix, key, if loc == UNSET then index % U32 else loc)];
    }
  }

  lemma EmptyList(n: nat)
    ensures PlacedFrom([], n) == [] && FieldsFrom([], n) == []
  {
  }

  /** What one more entry adds to both lists. */
  lemma NextEntry(es: seq<Entry>, i: nat, n: nat)
    requires i < |es|
    ensures |FieldsFrom(es[..i], n)| == Total(es[..i])
    ensures PlacedFrom(es[..i + 1], n) == PlacedFrom(es[..i], n) + [PlacedAt(es[i], n + Total(es[..i]))]
    ensures FieldsFrom(es[..i + 1], n) == FieldsFrom(es[..i], n) + FieldsAt(es[i], n + Total(es[..i]))
  {
    hide PlacedAt, FieldsAt, Total;
    ListCovers(es[..i], n);
    assert es[..i + 1] == es[..i] + [es[i]];
    PlacedConcat(es[..i], [es[i]], n);
    FieldsConcat(es[..i], [es[i]], n);
    EmptyList(n + Total(es[..i]) + Width(es[i]));
  }

  ghost predicate AllConstants(es: seq<Entry>) { forall i :: 0 <= i < |es| ==> es[i].Constant? }
  ghost predicate AllSamplers(es: seq<Entry>) { forall i :: 0 <= i < |es| ==> es[i].Sampler? }
  ghost predicate AllSrvs(es: seq<Entry>) { forall i :: 0 <= i < |es| ==> es[i].Srv? }
  ghost predicate AllUavs(es: seq<Entry>) { forall i :: 0 <= i < |es| ==> es[i].Uav? }

  // ----- the first layout, published through reflection

  datatype BindingType = ConstantBinding | SamplerBinding | SrvBinding | UavBinding

  /** What reflection tells of an entry: its slot and the index of its first element. */
  datatype Argument = Argument(typ: BindingType, slot: nat, structurePtrOffset: nat)

  function ArgumentOf(e: Entry): Argument {
    match e
    case Constant(_, slot, arg) => Argument(ConstantBinding, slot, arg)
    case Sampler(_, slot, arg, _, _) => Argument(SamplerBinding, slot, arg)
    case Srv(_, slot, _, arg, _) => Argument(SrvBinding, slot, arg)
    case Uav(_, slot, _, _, arg, _, _) => Argument(UavBinding, slot, arg)
  }

  function Reflected(es: seq<Entry>): seq<Argument> { seq(|es|, i requires 0 <= i < |es| => ArgumentOf(es[i])) }

  method PublishConstants(
    table: ArgumentBufferBuilder, es: seq<Entry>)
    returns (placed: seq<Entry>, published: seq<Argument>)
    requires AllConstants(es)
    modifies table
    ensures AllConstants(placed) && placed == PlacedFrom(es, |old(table.fields)|)
            && table.fields == old(table.fields) + FieldsFrom(es, |old(table.fields)|)
    ensures published == Reflected(placed)
  {
    hide Located, PlacedFrom, FieldsFrom, Total, Location;
    placed := [];
    published := [];
    ghost var n := |table.fields|;
    EmptyList(n);
    for i := 0 to |es|
      invariant AllConstants(placed) && placed == PlacedFrom(es[..i], n)
                && table.fields == old(table.fields) + FieldsFrom(es[..i], n)
      invariant published == Reflected(placed)
    {
      NextEntry(es, i, n);
      var e := es[i];
      var loc := Location(e);
      var arg := table.Define(BufferField, "cb", e.key, loc);
      placed := placed + [Constant(e.key, e.slot, arg)];
      published := published + [Argument(ConstantBinding, e.slot, arg)];
    }
    assert es[..|es|] == es;
  }

  method PublishSamplers(
    table: ArgumentBufferBuilder, es: seq<Entry>)
    returns (placed: seq<Entry>, published: seq<Argument>)
    requires AllSamplers(es)
    modifies table
    ensures AllSamplers(placed) && placed == PlacedFrom(es, |old(table.fields)|)
            && table.fields == old(table.fields) + FieldsFrom(es, |old(table.fields)|)
    ensures published == Reflected(placed)
  {
    hide Located, PlacedFrom, FieldsFrom, Total, Location;
    placed := [];
    published := [];
    ghost var n := |table.fields|;
    EmptyList(n);
    for i := 0 to |es|
      invariant AllSamplers(placed) && placed == PlacedFrom(es[..i], n)
                && table.fields == old(table.fields) + FieldsFrom(es[..i], n)
      invariant published == Reflected(placed)
    {
      NextEntry(es, i, n);
      var e := es[i];
      var loc := Location(e);
      var arg := table.Define(SamplerField, "s", e.key, loc);
      var cube := table.Define(SamplerField, "cube_s", e.key, loc + 1);
      var meta := table.Define(IntegerField, "meta_s", e.key, loc + 2);
      placed := placed + [Sampler(e.key, e.slot, arg, cube, meta)];
      published := published + [Argument(SamplerBinding, e.slot, arg)];
    }
    assert es[..|es|] == es;
  }

  method PublishSrvs(
    table: ArgumentBufferBuilder, es: seq<Entry>)
    returns (placed: seq<Entry>, published: seq<Argument>)
    requires AllSrvs(es)
    modifies table
    ensures AllSrvs(placed) && placed == PlacedFrom(es, |old(table.fields)|)
            && table.fields == old(table.fields) + FieldsFrom(es, |old(table.fields)|)
    ensures published == Reflected(placed)
  {
    hide Located, PlacedFrom, FieldsFrom, Total, Location;
    placed := [];
    published := [];
    ghost var n := |table.fields|;
    EmptyList(n);
    for i := 0 to |es|
      invariant AllSrvs(placed) && placed == PlacedFrom(es[..i], n)
                && table.fields == old(table.fields) + FieldsFrom(es[..i], n)
      invariant published == Reflected(placed)
    {
      NextEntry(es, i, n);
      var e := es[i];
      var loc := Location(e);
      var arg;
      if e.kind != NonApplicable {
        arg := table.Define(TextureField(e.kind), "t", e.key, loc);
      } else {
        arg := table.Define(BufferField, "t", e.key, loc);
      }
      var meta := table.Define(IntegerField, "meta_t", e.key, loc + 1);
      placed := placed + [Srv(e.key, e.slot, e.kind, arg, meta)];
      published := published + [Argument(SrvBinding, e.slot, arg)];
    }
    assert es[..|es|] == es;
  }

  method PublishUav(table: ArgumentBufferBuilder, e: Entry) returns (placed: Entry)
    requires e.Uav?
    modifies table
    ensures placed == PlacedAt(e, |old(table.fields)|)
    ensures table.fields == old(table.fields) + FieldsAt(e, |old(table.fields)|)
  {
    hide Located, Location;
    var loc := Location(e);
    var arg;
    if e.kind != NonApplicable {
      arg := table.Define(TextureField(e.kind), "u", e.key, loc);
    } else {
      arg := table.Define(BufferField, "u", e.key, loc);
    }
    var meta := table.Define(IntegerField, "meta_u", e.key, loc + 1);
    var counter := e.counter;
    if e.withCounter {
      counter := table.Define(BufferField, "counter", e.key, loc + 2);
    }
    placed := Uav(e.key, e.slot, e.kind, e.withCounter, arg, meta, counter);
  }

  method PublishUavs(
    table: ArgumentBufferBuilder, es: seq<Entry>)
    returns (placed: seq<Entry>, published: seq<Argument>)
    requires AllUavs(es)
    modifies table
    ensures AllUavs(placed) && placed == PlacedFrom(es, |old(table.fields)|)
            && table.fields == old(table.fields) + FieldsFrom(es, |old(table.fields)|)
    ensures published == Reflected(placed)
  {
    hide Located, PlacedFrom, FieldsFrom, FieldsAt, Total, Location;
    placed := [];
    published := [];
    ghost var n := |table.fields|;
    EmptyList(n);
    for i := 0 to |es|
      invariant AllUavs(placed) && placed == PlacedFrom(es[..i], n)
                && table.fields == old(table.fields) + FieldsFrom(es[..i], n)
      invariant published == Reflected(placed)
    {
      NextEntry(es, i, n);
      var e := es[i];
      var p := PublishUav(table, e);
      placed := placed + [p];
      published := published + [Argument(UavBinding, e.slot, p.arg)];
    }
    assert es[..|es|] == es;
  }

  // ----- the second layout

  method RebuildConstants(table: ArgumentBufferBuilder, es: seq<Entry>) returns (placed: seq<Entry>)
    requires AllConstants(es)
    modifies table
    ensures AllConstants(placed) && placed == PlacedFrom(es, |old(table.fields)|)
            && table.fields == old(table.fields) + FieldsFrom(es, |old(table.fields)|)
  {
    hide Located, PlacedFrom, FieldsFrom, Total, Location;
    placed := [];
    ghost var n := |table.fields|;
    EmptyList(n);
    for i := 0 to |es|
      invariant AllConstants(placed) && placed == PlacedFrom(es[..i], n)
                && table.fields == old(table.fields) + FieldsFrom(es[..i], n)
    {
      NextEntry(es, i, n);
      var e := es[i];
      var loc := Location(e);
      var arg := table.Define(BufferField, "cb", e.key, loc);
      placed := placed + [Constant(e.key, e.slot, arg)];
    }
    assert es[..|es|] == es;
  }

  method RebuildSamplers(table: ArgumentBufferBuilder, es: seq<Entry>) returns (placed: seq<Entry>)
    requires AllSamplers(es)
    modifies table
    ensures AllSamplers(placed) && placed == PlacedFrom(es, |old(table.fields)|)
            && table.fields == old(table.fields) + FieldsFrom(es, |old(table.fields)|)
  {
    hide Located, PlacedFrom, FieldsFrom, Total, Location;
    placed := [];
    ghost var n := |table.fields|;
    EmptyList(n);
    for i := 0 to |es|
      invariant AllSamplers(placed) && placed == PlacedFrom(es[..i], n)
                && table.fields == old(table.fields) + FieldsFrom(es[..i], n)
    {
      NextEntry(es, i, n);
      var e := es[i];
      var loc := Location(e);
      var arg := table.Define(SamplerField, "s", e.key, loc);
      var cube := table.Define(SamplerField, "cube_s", e.key, loc + 1);
      var meta := table.Define(IntegerField, "meta_s", e.key, loc + 2);
      placed := placed + [Sampler(e.key, e.slot, arg, cube, meta)];
    }
    assert es[..|es|] == es;
  }

  method RebuildSrvs(table: ArgumentBufferBuilder, es: seq<Entry>) returns (placed: seq<Entry>)
    requires AllSrvs(es)
    modifies table
    ensures AllSrvs(placed) && placed == PlacedFrom(es, |old(table.fields)|)
            && table.fields == old(table.fields) + FieldsFrom(es, |old(table.fields)|)
  {
    hide Located, PlacedFrom, FieldsFrom, Total, Location;
    placed := [];
    ghost var n := |table.fields|;
    EmptyList(n);
    for i := 0 to |es|
      invariant AllSrvs(placed) && placed == PlacedFrom(es[..i], n)
                && table.fields == old(table.fields) + FieldsFrom(es[..i], n)
    {
      NextEntry(es, i, n);
      var e := es[i];
      var loc := Location(e);
      var arg;
      if e.kind != NonApplicable {
        arg := table.Define(TextureField(e.kind), "t", e.key, loc);
      } else {
        arg := table.Define(BufferField, "t", e.key, loc);
      }
      var meta := table.Define(IntegerField, "meta_t", e.key, loc + 1);
      placed := placed + [Srv(e.key, e.slot, e.kind, arg, meta)];
    }
    assert es[..|es|] == es;
  }

  method RebuildUav(table: ArgumentBufferBuilder, e: Entry) returns (placed: Entry)
    requires e.Uav?
    modifies table
    ensures placed == PlacedAt(e, |old(table.fields)|)
    ensures table.fields == old(table.fields) + FieldsAt(e, |old(table.fields)|)
  {
    hide Located, Location;
    var loc := Location(e);
    var arg;
    if e.kind != NonApplicable {
      arg := table.Define(TextureField(e.kind), "u", e.key, loc);
    } else {
      arg := table.Define(BufferField, "u", e.key, loc);
    }
    var meta := table.Define(IntegerField, "meta_u", e.key, loc + 1);
    var counter := e.counter;
    if e.withCounter {
      counter := table.Define(BufferField, "counter", e.key, loc + 2);
    }
    placed := Uav(e.key, e.slot, e.kind, e.withCounter, arg, meta, counter);
  }

  method RebuildUavs(table: ArgumentBufferBuilder, es: seq<Entry>) returns (placed: seq<Entry>)
    requires AllUavs(es)
    modifies table
    ensures AllUavs(placed) && placed == PlacedFrom(es, |old(table.fields)|)
            && table.fields == old(table.fields) + FieldsFrom(es, |old(table.fields)|)
  {
    hide Located, PlacedFrom, FieldsFrom, FieldsAt, Total, Location;
    placed := [];
    ghost var n := |table.fields|;
    EmptyList(n);
    for i := 0 to |es|
      invariant AllUavs(placed) && placed == PlacedFrom(es[..i], n)
                && table.fields == old(table.fields) + FieldsFrom(es[..i], n)
    {
      NextEntry(es, i, n);
      var e := es[i];
      var p := RebuildUav(table, e);
      placed := placed + [p];
    }
    assert es[..|es|] == es;
  }

  /** One map after the other is one list; its indices cover the table, entry kinds are kept. */
  lemma ThreeMaps(a: seq<Entry>, b: seq<Entry>, c: seq<Entry>)
    ensures |PlacedFrom(a, 0)| == |a| && |PlacedFrom(b, Total(a))| == |b|
    ensures PlacedFrom(a, 0) + PlacedFrom(b, Total(a)) + PlacedFrom(c, Total(a) + Total(b)) == PlacedFrom(a + b + c, 0)
    ensures FieldsFrom(a, 0) + FieldsFrom(b, Total(a)) + FieldsFrom(c, Total(a) + Total(b)) == FieldsFrom(a + b + c, 0)
    ensures |FieldsFrom(a, 0)| == Total(a) && |FieldsFrom(b, Total(a))| == Total(b)
    ensures Indices(PlacedFrom(a + b + c, 0)) == Range(0, |FieldsFrom(a + b + c, 0)|)
  {
    hide PlacedFrom, FieldsFrom, Indices, Range, Total;
    PlacedConcat(a, b, 0);
    PlacedConcat(a + b, c, 0);
    FieldsConcat(a, b, 0);
    FieldsConcat(a + b, c, 0);
    TotalConcat(a, b);
    ListCovers(a, 0);
    ListCovers(b, Total(a));
    ListCovers(a + b + c, 0);
  }


  // ----- the shader

  class ShaderInfo {
    var cbuffers: seq<Entry>
    var samplers: seq<Entry>
    var srvs: seq<Entry>
    var uavs: seq<Entry>
    var table: ArgumentBufferBuilder
    var cbufferTable: ArgumentBufferBuilder

    /** Each map holds entries of its own class. */
    ghost predicate Valid()
      reads this
    {
      AllConstants(cbuffers) && AllSamplers(samplers) && AllSrvs(srvs) && AllUavs(uavs)
    }

    ghost function Arguments(): seq<Entry> reads this { samplers + srvs + uavs }

    constructor (cbuffers: seq<Entry>, samplers: seq<Entry>, srvs: seq<Entry>, uavs: seq<Entry>)
      requires AllConstants(cbuffers) && AllSamplers(samplers) && AllSrvs(srvs) && AllUavs(uavs)
      ensures Valid() && this.cbuffers == cbuffers && Arguments() == samplers + srvs + uavs
    {
      this.cbuffers, this.samplers, this.srvs, this.uavs := cbuffers, samplers, srvs, uavs;
      table := new ArgumentBufferBuilder();
      cbufferTable := new ArgumentBufferBuilder();
    }

    /** Both tables as laid out from these entries, with indices that cover each table exactly. */
    ghost predicate LaidOut(entries: seq<Entry>, constants: seq<Entry>)
      reads this, table, cbufferTable
    {
      && Arguments() == PlacedFrom(entries, 0) && table.fields == FieldsFrom(entries, 0)
      && cbuffers == PlacedFrom(constants, 0) && cbufferTable.fields == FieldsFrom(constants, 0)
      && Indices(Arguments()) == Range(0, |table.fields|) && Indices(cbuffers) == Range(0, |cbufferTable.fields|)
    }

    /** Lays both tables out for the first time and publishes every entry. The indices recorded for
        the argument table are exactly 0 up to its size, those of the constant buffers likewise. */
    method Initialize() returns (arguments: seq<Argument>, constants: seq<Argument>)
      requires Valid()
      modifies this
      ensures Valid() && fresh(table) && fresh(cbufferTable) && LaidOut(old(Arguments()), old(cbuffers))
      ensures |samplers| == |old(samplers)| && |srvs| == |old(srvs)|
      ensures arguments == Reflected(Arguments()) && constants == Reflected(cbuffers)
    {
      hide PlacedFrom, FieldsFrom, Indices, Range, Total, ArgumentOf, AllConstants, AllSamplers, AllSrvs, AllUavs;
      ThreeMaps(samplers, srvs, uavs);
      ListCovers(cbuffers, 0);
      table := new ArgumentBufferBuilder();
      cbufferTable := new ArgumentBufferBuilder();
      cbuffers, constants := PublishConstants(cbufferTable, cbuffers);
      var some;
      samplers, arguments := PublishSamplers(table, samplers);
      srvs, some := PublishSrvs(table, srvs);
      arguments := arguments + some;
      uavs, some := PublishUavs(table, uavs);
      arguments := arguments + some;
    }

    /** The second, separately written layout, from scratch over the same maps. */
    method Rebuild()
      requires Valid()
      modifies this
      ensures Valid() && fresh(table) && fresh(cbufferTable) && LaidOut(old(Arguments()), old(cbuffers))
      ensures |samplers| == |old(samplers)| && |srvs| == |old(srvs)|
    {
      hide PlacedFrom, FieldsFrom, Indices, Range, Total, AllConstants, AllSamplers, AllSrvs, AllUavs;
      ThreeMaps(samplers, srvs, uavs);
      ListCovers(cbuffers, 0);
      table := new ArgumentBufferBuilder();
      cbufferTable := new ArgumentBufferBuilder();
      cbuffers := RebuildConstants(cbufferTable, cbuffers);
      samplers := RebuildSamplers(table, samplers);
      srvs := RebuildSrvs(table, srvs);
      uavs := RebuildUavs(table, uavs);
    }

    /** Demotes the SRVs named by two 64-bit masks, the second standing for keys 64 and up. */
    method DemoteSrvs(lo: nat, hi: nat)
      modifies this`srvs
      ensures DemotedBy(old(srvs), srvs, lo, hi)
      ensures srvs == Demoted(old(srvs), Keys(lo, hi))
    {
      ghost var keys := Keys(lo, hi);
      hide Demoted, Keys, DemotedBy;
      var slot := 0;
      DemotedTwice(srvs, {}, {});
      assert MaskUpTo(keys, slot) == {};
      while slot < 64
        invariant 0 <= slot <= 64
        invariant srvs == Demoted(old(srvs), MaskUpTo(keys, slot))
      {
        ghost var done := MaskUpTo(keys, slot);
        ghost var now := {slot} * keys;
        ghost var high := {slot + 64} * keys;
        DemotedTwice(old(srvs), done, now);
        DemotedTwice(old(srvs), done + now, high);
        if lo / Pow2(slot) % 2 == 1 {
          DemoteOne(slot);
          assert now == {slot};
        } else {
          assert done + now == done;
        }
        if hi / Pow2(slot) % 2 == 1 {
          DemoteOne(slot + 64);
          assert high == {slot + 64};
        } else {
          assert done + now + high == done + now;
        }
        assert done + now + high == MaskUpTo(keys, slot + 1);
        slot := slot + 1;
      }
      assert MaskUpTo(keys, 64) == keys;
      DemotedExact(old(srvs), lo, hi);
    }

    /** The map holds at most one entry for a key. */
    method DemoteOne(key: nat)
      modifies this`srvs
      ensures srvs == Demoted(old(srvs), {key})
    {
      hide Demoted;
      var i := 0;
      var done: seq<Entry> := [];
      EmptyDemoted(key);
      while i < |srvs|
        invariant 0 <= i <= |srvs| && srvs == old(srvs)
        invariant done == Demoted(srvs[..i], {key})
      {
        DemotedSnoc(srvs[..i], srvs[i], {key});
        assert srvs[..i + 1] == srvs[..i] + [srvs[i]];
        var e := srvs[i];
        if e.Srv? && e.key == key {
          e := Srv(key, e.slot, DemotedKind(e.kind), e.arg, e.meta);
        }
        done := done + [e];
        i := i + 1;
      }
      assert srvs[..i] == srvs;
      srvs := done;
    }
  }

  lemma EmptyDemoted(key: nat)
    ensures Demoted([], {key}) == []
  {
  }

  lemma {:induction false} DemotedConcat(a: seq<Entry>, b: seq<Entry>, keys: set<nat>)
    ensures Demoted(a + b, keys) == Demoted(a, keys) + Demoted(b, keys)
  {
    hide DemotedEntry;
    if a == [] {
      assert a + b == b;
    } else {
      assert (a + b)[0] == a[0] && (a + b)[1..] == a[1..] + b;
      DemotedConcat(a[1..], b, keys);
    }
  }

  lemma {:induction false} OthersNotDemoted(es: seq<Entry>, keys: set<nat>)
    requires forall i :: 0 <= i < |es| ==> !es[i].Srv?
    ensures Demoted(es, keys) == es
  {
    if es != [] { OthersNotDemoted(es[1..], keys); }
  }

  /** Demotion changes entry by entry and keeps what reflection published. */
  lemma {:induction false} DemotedReflected(es: seq<Entry>, keys: set<nat>)
    ensures |Demoted(es, keys)| == |es| && Reflected(Demoted(es, keys)) == Reflected(es)
    ensures AllSrvs(es) ==> AllSrvs(Demoted(es, keys))
  {
    if es != [] {
      DemotedReflected(es[1..], keys);
      var d := Demoted(es, keys);
      assert d[0] == DemotedEntry(es[0], keys) && d[1..] == Demoted(es[1..], keys);
      assert Reflected(d) == [ArgumentOf(d[0])] + Reflected(d[1..]);
      assert Reflected(es) == [ArgumentOf(es[0])] + Reflected(es[1..]);
    }
  }

  /** The elements depend on keys, slots and kinds, not on the indices recorded before. */
  lemma {:induction false} FieldsIgnoreIndices(es: seq<Entry>, n: nat)
    ensures FieldsFrom(PlacedFrom(es, n), n) == FieldsFrom(es, n)
  {
    hide Located, Location;
    if es != [] {
      var p := PlacedFrom(es, n);
      FieldsIgnoreIndices(es[1..], n + Width(es[0]));
      assert p[0] == PlacedAt(es[0], n) && p[1..] == PlacedFrom(es[1..], n + Width(es[0]));
      PlacedFields(es[0], n);
    }
  }

  lemma PlacedFields(e: Entry, n: nat)
    ensures FieldsAt(PlacedAt(e, n), n) == FieldsAt(e, n) && Width(PlacedAt(e, n)) == Width(e)
  {
    hide Located;
    assert Location(PlacedAt(e, n)) == Location(e);
    hide Location;
  }

  /** Compilation of a specialised variant: publish, demote any SRVs, rebuild. Every published
      argument, every recorded index, and the name and location of every element are reproduced; only
      named multisampled SRVs change kind, and only their elements do in the table. The constant buffers
      and their table are reproduced exactly. */
  method PublishThenRebuild(shader: ShaderInfo, lo: nat, hi: nat)
    returns (arguments: seq<Argument>, constants: seq<Argument>, entries: seq<Entry>, cbuffers: seq<Entry>,
      fields: seq<Field>, cbufferFields: seq<Field>)
    requires shader.Valid()
    modifies shader
    ensures shader.Valid() && DemotedBy(entries, shader.Arguments(), lo, hi) && shader.cbuffers == cbuffers
    ensures arguments == Reflected(entries) == Reflected(shader.Arguments()) && constants == Reflected(shader.cbuffers)
    ensures Indices(shader.Arguments()) == Indices(entries) == Range(0, |fields|)
    ensures SameNames(shader.table.fields, fields) && shader.cbufferTable.fields == cbufferFields
    ensures Rekinded(entries, 0, fields, shader.table.fields, lo, hi)
  {
    hide PlacedFrom, FieldsFrom, Indices, Range, Total, SameNames, Demoted, Reflected, DemotedBy, Rekinded, Keys;
    ghost var es, cs := shader.Arguments(), shader.cbuffers;
    ghost var ks := Keys(lo, hi);
    arguments, constants := shader.Initialize();
    fields, cbufferFields := shader.table.fields, shader.cbufferTable.fields;
    entries, cbuffers := shader.samplers + shader.srvs + shader.uavs, shader.cbuffers;
    ListReproduced(es, 0, ks);
    ListReproduced(cs, 0, {});
    DemotedTwice(cbuffers, {}, {});
    FieldsIgnoreIndices(cs, 0);
    DemotedReflected(entries, ks);
    DemotedReflected(shader.srvs, ks);
    DemotedConcat(shader.samplers + shader.srvs, shader.uavs, ks);
    DemotedConcat(shader.samplers, shader.srvs, ks);
    OthersNotDemoted(shader.samplers, ks);
    OthersNotDemoted(shader.uavs, ks);
    DemotedExact(entries, lo, hi);
    ListRekinded(es, 0, lo, hi);
    shader.DemoteSrvs(lo, hi);
    shader.Rebuild();
  }
}
