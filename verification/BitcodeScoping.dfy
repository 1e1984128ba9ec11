/** Where abbreviations are in force over a whole run, and the one case where the reader departs
    from the format. */
module Scoping {
  import opened Options
  import opened Bits
  import opened Primitives
  import opened Bitcode
  import opened Writer

  // ----- within one block

  /** Within a block an abbreviation id never changes its meaning: later items only append. */
  lemma {:induction false} IdsStable(b: Frame, h: History, t: History)
    ensures InForce(b, h) <= InForce(b, h + t)
  {
    if t == [] {
      assert h + t == h;
    } else {
      var front: History, last := t[..|t| - 1], t[|t| - 1];
      IdsStable(b, h, front);
      assert h + t == (h + front) + [last];
      Snoc(b.id, h + front, last);
    }
  }

  lemma {:induction false} TargetOrZero(h: History)
    ensures SetBid(BLOCKINFO_ID, h) == (if Target(h).Some? then Target(h).value else 0)
  {
    if h != [] { TargetOrZero(h[..|h| - 1]); }
  }

  /** The definitions a block keeps for itself: all of them, except those a BLOCKINFO block makes
      under a SETBID that names a block other than 0. */
  function Local(id: nat, h: History): seq<Abbrev> {
    if h == [] then []
    else
      var rest: History, it := h[..|h| - 1], h[|h| - 1];
      var away := id == BLOCKINFO_ID && Target(rest) != None && Target(rest) != Some(0);
      Local(id, rest) + (if it.Define? && !away then [it.abbrev] else [])
  }

  /** In every block the list in force is the list found on entry followed by the block's local
      definitions so far; outside BLOCKINFO blocks those are all its definitions. */
  lemma {:induction false} InForceIsEntryThenOwn(b: Frame, h: History)
    ensures OwnDefs(b.id, h) == Local(b.id, h)
    ensures InForce(b, h) == b.entry + Local(b.id, h)
    ensures b.id != BLOCKINFO_ID ==> Local(b.id, h) == Definitions(h)
  {
    if h != [] {
      InForceIsEntryThenOwn(b, h[..|h| - 1]);
      TargetOrZero(h[..|h| - 1]);
    }
  }

  // ----- registrations over a run

  /** A definition and the block id it was announced for. */
  type Announcement = (nat, Abbrev)

  /** The definitions made under a SETBID in BLOCKINFO blocks, nested blocks included, in stream order. */
  function Announcements(id: nat, h: seq<Item>): seq<Announcement>
    decreases h
  {
    if h == [] then []
    else
      var rest, it := h[..|h| - 1], h[|h| - 1];
      Announcements(id, rest) + AnnouncedBy(id, rest, it)
  }

  function AnnouncedBy(id: nat, rest: seq<Item>, it: Item): seq<Announcement>
    decreases it
  {
    match it
    case Define(a) => if id == BLOCKINFO_ID && Target(rest).Some? then [(Target(rest).value, a)] else []
    case Child(cid, _, items, _, _) => Announcements(cid, items)
    case Record(_) => []
  }

  /** The registry the format asks for: every announcement counts. */
  function FormatRegistry(ps: seq<Announcement>): Registry {
    if ps == [] then map[]
    else Register(FormatRegistry(ps[..|ps| - 1]), ps[|ps| - 1].0, ps[|ps| - 1].1)
  }

  /** The registry without the announcements for block id 0. */
  function ReaderRegistry(ps: seq<Announcement>): Registry {
    if ps == [] then map[]
    else
      var before, p := ReaderRegistry(ps[..|ps| - 1]), ps[|ps| - 1];
      if p.0 == 0 then before else Register(before, p.0, p.1)
  }

  /** The definitions announced for block id k, in order. */
  function AnnouncedFor(ps: seq<Announcement>, k: nat): seq<Abbrev> {
    if ps == [] then []
    else AnnouncedFor(ps[..|ps| - 1], k) + (if ps[|ps| - 1].0 == k then [ps[|ps| - 1].1] else [])
  }

  /** What the reader finds registered for block id k after the announcements ps. */
  function EntryList(ps: seq<Announcement>, k: nat): seq<Abbrev> {
    if k == 0 then [] else AnnouncedFor(ps, k)
  }

  /** The lists of both registries, and when they are present. */
  lemma {:induction false} RegistriesCompared(ps: seq<Announcement>, k: nat)
    ensures Lookup(ReaderRegistry(ps), k) == EntryList(ps, k) && (k in ReaderRegistry(ps) <==> EntryList(ps, k) != [])
    ensures Lookup(FormatRegistry(ps), k) == AnnouncedFor(ps, k)
            && (k in FormatRegistry(ps) <==> AnnouncedFor(ps, k) != [])
  {
    if ps != [] { RegistriesCompared(ps[..|ps| - 1], k); }
  }

  lemma {:induction false} AnnouncedForNone(ps: seq<Announcement>, k: nat)
    ensures AnnouncedFor(ps, k) == [] <==> forall i :: 0 <= i < |ps| ==> ps[i].0 != k
  {
    if ps != [] {
      var front := ps[..|ps| - 1];
      AnnouncedForNone(front, k);
      if i :| 0 <= i < |front| && front[i].0 == k { assert ps[i].0 == k; }
    }
  }

  /** The registries agree exactly when nothing is announced for block id 0. */
  lemma RegistriesAgreeIff(ps: seq<Announcement>)
    ensures ReaderRegistry(ps) == FormatRegistry(ps) <==> forall i :: 0 <= i < |ps| ==> ps[i].0 != 0
  {
    hide ReaderRegistry, FormatRegistry, AnnouncedFor;
    var rr, fr := ReaderRegistry(ps), FormatRegistry(ps);
    AnnouncedForNone(ps, 0);
    RegistriesCompared(ps, 0);
    if AnnouncedFor(ps, 0) == [] {
      forall k: nat ensures (k in rr <==> k in fr) && Lookup(rr, k) == Lookup(fr, k) { RegistriesCompared(ps, k); }
      forall k | k in fr ensures k in rr && rr[k] == fr[k] { assert Lookup(rr, k) == Lookup(fr, k); }
      assert rr == fr;
    }
  }

  /** Every nested block, at any depth, found on entry exactly the definitions announced for its id
      before it in the stream, by whatever BLOCKINFO blocks; never those of parents or siblings. */
  ghost predicate EntriesRight(before: seq<Announcement>, id: nat, items: seq<Item>)
    decreases items
  {
    forall k :: 0 <= k < |items| && items[k].Child? ==>
      var ps := before + Announcements(id, items[..k]);
      items[k].entry == EntryList(ps, items[k].id) && EntriesRight(ps, items[k].id, items[k].items)
  }

  lemma EntriesSnoc(before: seq<Announcement>, id: nat, items: seq<Item>, it: Item)
    requires EntriesRight(before, id, items)
    requires it.Child? ==>
               var ps := before + Announcements(id, items);
               it.entry == EntryList(ps, it.id) && EntriesRight(ps, it.id, it.items)
    ensures EntriesRight(before, id, items + [it])
  {
    var all := items + [it];
    forall k | 0 <= k < |all| && all[k].Child?
      ensures var ps := before + Announcements(id, all[..k]);
              all[k].entry == EntryList(ps, all[k].id) && EntriesRight(ps, all[k].id, all[k].items)
    {
      if k < |items| { assert all[..k] == items[..k]; } else { assert all[..k] == items; }
    }
  }

  lemma AnnouncementsSnoc(id: nat, h: seq<Item>, it: Item)
    ensures Announcements(id, h + [it]) == Announcements(id, h) + AnnouncedBy(id, h, it)
  {
    assert (h + [it])[..|h|] == h;
  }

  lemma ReaderRegistrySnoc(ps: seq<Announcement>, p: Announcement)
    ensures ReaderRegistry(ps + [p]) == if p.0 == 0 then ReaderRegistry(ps) else Register(ReaderRegistry(ps), p.0, p.1)
  {
    assert (ps + [p])[..|ps|] == ps;
  }

  /** One definition: the registry follows its announcement. */
  lemma DefineStep(id: nat, h: History, a: Abbrev, before: seq<Announcement>)
    ensures AfterDefine(ReaderRegistry(before + Announcements(id, h)), id, h, a)
         == ReaderRegistry(before + Announcements(id, h + [Define(a)]))
  {
    hide ReaderRegistry, Announcements, Target, SetBid;
    AnnouncementsSnoc(id, h, Define(a));
    TargetOrZero(h);
    var ps := before + Announcements(id, h);
    if id == BLOCKINFO_ID && Target(h).Some? {
      ReaderRegistrySnoc(ps, (Target(h).value, a));
      assert before + Announcements(id, h + [Define(a)]) == ps + [(Target(h).value, a)];
    } else {
      assert before + Announcements(id, h + [Define(a)]) == ps;
    }
  }

  /** The registry and the entry lists of a block are those of the announcements before and in it. */
  ghost predicate Scoped(before: seq<Announcement>, id: nat, reg: Registry, items: seq<Item>) {
    reg == ReaderRegistry(before + Announcements(id, items)) && EntriesRight(before, id, items)
  }

  lemma NothingScoped(before: seq<Announcement>, id: nat)
    ensures Scoped(before, id, ReaderRegistry(before), [])
  {
    assert before + [] == before;
  }

  lemma {:induction false} BlockScoped(
    s: seq<bool>, off: nat, before: seq<Announcement>, id: nat, width: nat, depth: nat, limit: nat)
    requires limit <= |s| && ParseBlock(s, off, ReaderRegistry(before), id, width, depth, limit).Some?
    ensures var o := ParseBlock(s, off, ReaderRegistry(before), id, width, depth, limit).value;
            Scoped(before, id, o.reg, o.items) && o.entry == EntryList(before, id)
    decreases |s| - off, 1
  {
    hide Scoped, EntryList, ParseItems;
    var reg := ReaderRegistry(before);
    NothingScoped(before, id);
    RegistriesCompared(before, id);
    ItemsScoped(s, Frame(id, width, depth, off, limit, Lookup(reg, id)), off, reg, [], before);
  }

  lemma {:induction false} ItemsScoped(
    s: seq<bool>, b: Frame, off: nat, reg: Registry, h: History, before: seq<Announcement>)
    requires FrameOk(s, b) && Scoped(before, b.id, reg, h) && ParseItems(s, b, off, reg, h).Some?
    ensures var o := ParseItems(s, b, off, reg, h).value;
            Scoped(before, b.id, o.reg, o.items) && o.entry == b.entry
    decreases |s| - off, 0
  {
    hide ParseItems, ParseBlock, Lex, Kids, Records, RecordCount, OwnDefs, SetBid, AfterDefine, Scoped;
    StepEnd(s, b, off, reg, h);
    if off < b.limit {
      var e, next := Lex(s, off, b.width, InForce(b, h)).value, Lex(s, off, b.width, InForce(b, h)).off;
      match e
      case LEnd =>
      case LEnter(id, width, words) =>
        StepChild(s, b, off, reg, h, id, width, words, next);
        var o := ParseChild(s, next, reg, id, width, words, b.depth, b.limit).value;
        ChildScoped(s, b, next, reg, h, before, id, width, words);
        ItemsScoped(s, b, o.off, o.reg, h + [ChildOf(id % U32, o)], before);
      case LDefine(a) =>
        StepDefine(s, b, off, reg, h, a, next);
        DefineScoped(b.id, reg, h, a, before);
        ItemsScoped(s, b, next, AfterDefine(reg, b.id, h, a), h + [Define(a)], before);
      case LRecord(rec) =>
        StepRecord(s, b, off, reg, h, rec, next);
        RecordScoped(b.id, reg, h, rec, before);
        ItemsScoped(s, b, next, reg, h + [Record(rec)], before);
    }
  }

  lemma {:induction false} ChildScoped(
    s: seq<bool>, b: Frame, next: nat, reg: Registry, h: History, before: seq<Announcement>, id: nat, width: nat,
    words: nat)
    requires FrameOk(s, b) && Scoped(before, b.id, reg, h)
    requires ParseChild(s, next, reg, id, width, words, b.depth, b.limit).Some?
    ensures var o := ParseChild(s, next, reg, id, width, words, b.depth, b.limit).value;
            Scoped(before, b.id, o.reg, h + [ChildOf(id % U32, o)])
    decreases |s| - next, 2
  {
    hide ParseBlock, ReaderRegistry, Announcements, EntryList, EntriesRight;
    var ps := before + Announcements(b.id, h);
    BlockScoped(s, next, ps, id % U32, width % U32, b.depth + 1, next + words * 32);
    var it := ChildOf(id % U32, ParseChild(s, next, reg, id, width, words, b.depth, b.limit).value);
    EntriesSnoc(before, b.id, h, it);
    AnnouncementsSnoc(b.id, h, it);
    assert before + Announcements(b.id, h + [it]) == ps + Announcements(it.id, it.items);
  }

  lemma DefineScoped(id: nat, reg: Registry, h: History, a: Abbrev, before: seq<Announcement>)
    requires Scoped(before, id, reg, h)
    ensures Scoped(before, id, AfterDefine(reg, id, h, a), h + [Define(a)])
  {
    hide ReaderRegistry, Announcements, EntriesRight, AfterDefine;
    DefineStep(id, h, a, before);
    EntriesSnoc(before, id, h, Define(a));
  }

  lemma RecordScoped(id: nat, reg: Registry, h: History, rec: Rec, before: seq<Announcement>)
    requires Scoped(before, id, reg, h) && rec.values != []
    ensures Scoped(before, id, reg, h + [Record(rec)])
  {
    hide ReaderRegistry, Announcements, EntriesRight;
    AnnouncementsSnoc(id, h, Record(rec));
    assert before + Announcements(id, h + [Record(rec)]) == before + Announcements(id, h);
    EntriesSnoc(before, id, h, Record(rec));
  }

  /** Over every successful run: the registry is that of all announcements in stream order except
      those for block id 0, and every block found on entry the list of those before it. */
  lemma RunScoped(s: seq<bool>)
    requires Parse(s).Some?
    ensures var o := Parse(s).value;
            && o.reg == ReaderRegistry(Announcements(ROOT_ID, o.items))
            && EntriesRight([], ROOT_ID, o.items) && o.entry == []
  {
    hide ParseBlock, ReadFixed, EntriesRight, Announcements;
    BlockScoped(s, 32, [], ROOT_ID, 2, 0, |s|);
    var o := Parse(s).value;
    assert [] + Announcements(ROOT_ID, o.items) == Announcements(ROOT_ID, o.items);
  }

  /** For every stream that parses, the registry built is the one the format asks for exactly when
      no definition in it stands under a SETBID record naming block 0. */
  lemma RegistryMatchesFormat(s: seq<bool>)
    requires Parse(s).Some?
    ensures var o := Parse(s).value;
            var ps := Announcements(ROOT_ID, o.items);
            o.reg == FormatRegistry(ps) <==> forall i :: 0 <= i < |ps| ==> ps[i].0 != 0
  {
    hide Parse, ReaderRegistry, FormatRegistry, Announcements;
    RunScoped(s);
    RegistriesAgreeIff(Announcements(ROOT_ID, Parse(s).value.items));
  }

  // ----- the writer's registry

  lemma FormatRegistrySnoc(ps: seq<Announcement>, p: Announcement)
    ensures FormatRegistry(ps + [p]) == Register(FormatRegistry(ps), p.0, p.1)
  {
    assert (ps + [p])[..|ps|] == ps;
  }

  lemma {:induction false} BlockWritten(off: nat, before: seq<Announcement>, depth: nat, block: Block)
    requires EncBlock(off, FormatRegistry(before), depth, block).Some?
    ensures var o := EncBlock(off, FormatRegistry(before), depth, block).value.out;
            o.reg == FormatRegistry(before + Announcements(block.id, o.items))
    decreases block, 2
  {
    hide EncElements, Padding, Aligned, Kids, Records, RecordCount, FormatRegistry, Announcements;
    var reg := FormatRegistry(before);
    NoAnnouncements(before, block.id);
    ElementsWritten(off, Scope(block.id, block.width, depth, Lookup(reg, block.id)), reg, [], block.body, before);
  }

  lemma NoAnnouncements(before: seq<Announcement>, id: nat)
    ensures before + Announcements(id, []) == before
  {
  }

  lemma {:induction false} ElementWritten(
    off: nat, c: Scope, reg: Registry, h: History, e: Element, before: seq<Announcement>)
    requires EncElement(off, c, reg, h, e).Some? && reg == FormatRegistry(before + Announcements(c.id, h))
    ensures var p := EncElement(off, c, reg, h, e).value;
            p.reg == FormatRegistry(before + Announcements(c.id, h + [p.item]))
    decreases e, 0
  {
    hide EncBlock, EncHeader, EncFields, EncPlain, Fits, PlainFits, EncAbbrev, AbbrevFits, Target, FormatRegistry,
      Announcements;
    var p := EncElement(off, c, reg, h, e).value;
    var ps := before + Announcements(c.id, h);
    AnnouncementsSnoc(c.id, h, p.item);
    match e
    case Write(values, blob, via) =>
      assert before + Announcements(c.id, h + [p.item]) == ps;
    case DefineAbbrev(a) =>
      if c.id == BLOCKINFO_ID {
        FormatRegistrySnoc(ps, (Target(h).value, a));
        assert before + Announcements(c.id, h + [p.item]) == ps + [(Target(h).value, a)];
      } else {
        assert before + Announcements(c.id, h + [p.item]) == ps;
      }
    case SubBlock(block) =>
      BlockWritten(off + |EncHeader(off, c.width, block)| + 32, ps, c.depth + 1, block);
      assert before + Announcements(c.id, h + [p.item]) == ps + Announcements(p.item.id, p.item.items);
  }

  lemma {:induction false} ElementsWritten(
    off: nat, c: Scope, reg: Registry, h: History, es: seq<Element>, before: seq<Announcement>)
    requires EncElements(off, c, reg, h, es).Some? && reg == FormatRegistry(before + Announcements(c.id, h))
    ensures var body := EncElements(off, c, reg, h, es).value;
            body.reg == FormatRegistry(before + Announcements(c.id, body.h))
    decreases es, 1
  {
    hide EncElement, FormatRegistry, Announcements;
    if es != [] {
      var p := EncElement(off, c, reg, h, es[0]).value;
      ElementWritten(off, c, reg, h, es[0], before);
      ElementsWritten(off + |p.bits|, c, p.reg, h + [p.item], es[1..], before);
    }
  }

  /** A written file has the registry the format asks for, so it is free of entries for block id 0
      exactly when nothing in it is announced for block id 0. */
  lemma FileRegistry(blocks: seq<Block>)
    requires EncFile(blocks).Some?
    ensures var o := EncFile(blocks).value.out;
            var ps := Announcements(ROOT_ID, o.items);
            o.reg == FormatRegistry(ps) && (0 !in o.reg <==> forall i :: 0 <= i < |ps| ==> ps[i].0 != 0)
  {
    hide EncElements, ToBits, Kids, Records, RecordCount, FormatRegistry, Announcements;
    NoAnnouncements([], ROOT_ID);
    assert FormatRegistry([]) == map[] by { EmptyRegistry(); }
    ElementsWritten(32, Scope(ROOT_ID, 2, 0, Lookup(map[], ROOT_ID)), map[], [], AsElements(blocks), []);
    var ps := Announcements(ROOT_ID, EncFile(blocks).value.out.items);
    assert [] + ps == ps;
    RegistriesCompared(ps, 0);
    AnnouncedForNone(ps, 0);
  }

  lemma EmptyRegistry()
    ensures FormatRegistry([]) == map[]
  {
  }
}
