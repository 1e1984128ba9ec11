/** The DXContainer reader, a writer for the same layout, and the validator's search for
    overlapping parts. */
module Container {
  import opened Options
  import opened Bits

  const MAGIC: nat := 0x4342_5844 // "DXBC"
  const HEADER_SIZE: nat := 32
  const PART_HEADER_SIZE: nat := 8

  datatype Status = Ok | Truncated | BadContainerMagic | InvalidContainerSize | InvalidPartOffset | InvalidPartSize

  /** A part: payload is the bytes after its eight-byte header. */
  datatype Part = Part(fourcc: nat, offset: nat, payload: seq<Byte>)

  // ----- little-endian words

  function FromLe(a: nat, b: nat, c: nat, d: nat): nat { a + 0x100 * (b + 0x100 * (c + 0x100 * d)) }

  function Word(data: seq<Byte>, at: nat): (v: nat)
    requires at + 4 <= |data|
    ensures v < U32
  {
    FromLe(data[at], data[at + 1], data[at + 2], data[at + 3])
  }

  function HalfWord(data: seq<Byte>, at: nat): (v: nat)
    requires at + 2 <= |data|
  {
    FromLe(data[at], data[at + 1], 0, 0)
  }

  function Le16(v: nat): (s: seq<Byte>)
    requires v < 0x1_0000
    ensures |s| == 2
  {
    [v % 0x100, v / 0x100]
  }

  function Le32(v: nat): (s: seq<Byte>)
    requires v < U32
    ensures |s| == 4
  {
    var b := v / 0x100;
    var c := b / 0x100;
    [v % 0x100, b % 0x100, c % 0x100, c / 0x100]
  }

  lemma WordOfLe32(data: seq<Byte>, at: nat, v: nat)
    requires at + 4 <= |data| && v < U32 && data[at..at + 4] == Le32(v)
    ensures Word(data, at) == v
  {
    var s := data[at..at + 4];
    assert s[0] == data[at] && s[1] == data[at + 1] && s[2] == data[at + 2] && s[3] == data[at + 3];
  }

  // ----- what the reader accepts

  function HeaderStatus(data: seq<Byte>): Status {
    if |data| < HEADER_SIZE then Truncated
    else if Word(data, 0) != MAGIC then BadContainerMagic
    else if Word(data, 24) < HEADER_SIZE || Word(data, 24) > |data| then InvalidContainerSize
    else if HEADER_SIZE + 4 * Word(data, 28) > Word(data, 24) then InvalidContainerSize
    else Ok
  }

  function Size(data: seq<Byte>): (n: nat)
    requires HeaderStatus(data) == Ok
    ensures HEADER_SIZE <= n <= |data| && n < U32
  {
    Word(data, 24)
  }

  function Count(data: seq<Byte>): (n: nat)
    requires HeaderStatus(data) == Ok
    ensures HEADER_SIZE + 4 * n <= Size(data)
  {
    Word(data, 28)
  }

  function Offset(data: seq<Byte>, i: nat): (n: nat)
    requires HeaderStatus(data) == Ok && i < Count(data)
    ensures n < U32
  {
    Word(data, HEADER_SIZE + 4 * i)
  }

  function PartStatus(data: seq<Byte>, i: nat): Status
    requires HeaderStatus(data) == Ok && i < Count(data)
  {
    var at := Offset(data, i);
    if at < HEADER_SIZE + 4 * Count(data) || at + PART_HEADER_SIZE > Size(data) then InvalidPartOffset
    else if at + PART_HEADER_SIZE + Word(data, at + 4) > Size(data) then InvalidPartSize
    else Ok
  }

  function PartAt(data: seq<Byte>, i: nat): Part
    requires HeaderStatus(data) == Ok && i < Count(data) && PartStatus(data, i) == Ok
  {
    var at := Offset(data, i);
    Part(Word(data, at), at, data[at + PART_HEADER_SIZE..at + PART_HEADER_SIZE + Word(data, at + 4)])
  }

  function CheckedEnd(offset: nat, size: nat, limit: nat): (end: Option<nat>)
    ensures end == if offset + size <= limit then Some(offset + size) else None
  {
    if offset > limit || size > limit - offset then None else Some(offset + size)
  }

  function PartEnd(p: Part): nat { p.offset + PART_HEADER_SIZE + |p.payload| }

  /** Every part lies between the end of the index table and the end of the container. */
  ghost predicate Inside(parts: seq<Part>, tableEnd: nat, size: nat) {
    forall i :: 0 <= i < |parts| ==> tableEnd <= parts[i].offset && PartEnd(parts[i]) <= size
  }

  /** The parts are the first entries of the table, each in bounds. */
  ghost predicate ReadSoFar(data: seq<Byte>, parts: seq<Part>)
    requires HeaderStatus(data) == Ok
  {
    |parts| <= Count(data) && forall i: nat :: i < |parts| ==> PartStatus(data, i) == Ok && parts[i] == PartAt(data, i)
  }

  class ContainerParser {
    var major: nat
    var minor: nat
    var containerSize: nat
    var hash: seq<Byte>
    var parts: seq<Part>

    constructor ()
      ensures parts == []
    {
      major, minor, containerSize, hash, parts := 0, 0, 0, [], [];
    }

    /** Succeeds exactly on containers whose header and every part are in bounds, with the parts in
        table order; otherwise the status is that of the header or of the first bad part. */
    method ParseContainer(data: seq<Byte>) returns (status: Status)
      requires parts == []
      modifies this
      ensures status == Ok <==>
                HeaderStatus(data) == Ok && forall i: nat :: i < Count(data) ==> PartStatus(data, i) == Ok
      ensures HeaderStatus(data) != Ok ==> status == HeaderStatus(data) && parts == []
      ensures HeaderStatus(data) == Ok ==>
                ReadSoFar(data, parts)
                && (if |parts| < Count(data) then status == PartStatus(data, |parts|) && status != Ok
                    else status == Ok)
      ensures HeaderStatus(data) == Ok ==>
                containerSize == Size(data) && Inside(parts, HEADER_SIZE + 4 * Count(data), Size(data))
      ensures HeaderStatus(data) == Ok ==>
                major == HalfWord(data, 20) && minor == HalfWord(data, 22) && hash == data[4..20]
    {
      hide HeaderStatus, PartStatus, PartAt, Count, Size, Word, HalfWord, Inside;
      var count;
      status, count := ReadHeader(data);
      if status == Ok { status := ReadParts(data, count); }
    }

    method ReadHeader(data: seq<Byte>) returns (status: Status, count: nat)
      modifies this
      ensures status == HeaderStatus(data) && parts == old(parts)
      ensures status == Ok ==> count == Count(data) && containerSize == Size(data)
      ensures status == Ok ==> major == HalfWord(data, 20) && minor == HalfWord(data, 22) && hash == data[4..20]
    {
      hide Word, HalfWord;
      count := 0;
      if |data| < HEADER_SIZE { return Truncated, 0; }
      if Word(data, 0) != MAGIC { return BadContainerMagic, 0; }
      var size := Word(data, 24);
      count := Word(data, 28);
      if size < HEADER_SIZE || size > |data| { return InvalidContainerSize, 0; }
      if CheckedEnd(HEADER_SIZE, count * 4, size) == None { return InvalidContainerSize, 0; }
      status := Ok;
      major, minor, containerSize, hash := HalfWord(data, 20), HalfWord(data, 22), size, data[4..20];
    }

    method ReadParts(data: seq<Byte>, count: nat) returns (status: Status)
      requires parts == [] && HeaderStatus(data) == Ok && count == Count(data) && containerSize == Size(data)
      modifies this`parts
      ensures ReadSoFar(data, parts) && Inside(parts, HEADER_SIZE + 4 * count, containerSize)
      ensures if |parts| < count then status == PartStatus(data, |parts|) && status != Ok else status == Ok
    {
      hide HeaderStatus, PartStatus, PartAt, Count, Size;
      var i := 0;
      while i < count
        invariant 0 <= i <= count && |parts| == i && ReadSoFar(data, parts)
      {
        status := ReadPart(data, i, HEADER_SIZE + 4 * count, containerSize);
        if status != Ok {
          AllInside(data, parts);
          return;
        }
        i := i + 1;
      }
      AllInside(data, parts);
      status := Ok;
    }

    /** One round of the loop: the entry is appended if it is in bounds. */
    method ReadPart(data: seq<Byte>, i: nat, tableEnd: nat, size: nat) returns (status: Status)
      requires HeaderStatus(data) == Ok && i < Count(data) && size == Size(data)
               && tableEnd == HEADER_SIZE + 4 * Count(data)
      modifies this`parts
      ensures status == PartStatus(data, i)
      ensures parts == if status == Ok then old(parts) + [PartAt(data, i)] else old(parts)
    {
      hide Word, HeaderStatus;
      assert Word(data, HEADER_SIZE + i * 4) == Offset(data, i);
      var offset := Word(data, HEADER_SIZE + i * 4);
      if offset < tableEnd || offset > size { return InvalidPartOffset; }
      var headerEnd := CheckedEnd(offset, PART_HEADER_SIZE, size);
      if headerEnd == None { return InvalidPartOffset; }
      var fourcc, partSize := Word(data, offset), Word(data, offset + 4);
      var end := CheckedEnd(headerEnd.value, partSize, size);
      if end == None { return InvalidPartSize; }
      parts := parts + [Part(fourcc, offset, data[headerEnd.value..headerEnd.value + partSize])];
      status := Ok;
    }
  }

  /** An accepted part is in bounds. */
  lemma PartInside(data: seq<Byte>, i: nat)
    requires HeaderStatus(data) == Ok && i < Count(data) && PartStatus(data, i) == Ok
    ensures HEADER_SIZE + 4 * Count(data) <= PartAt(data, i).offset && PartEnd(PartAt(data, i)) <= Size(data)
  {
    hide Word, HeaderStatus;
  }

  lemma AllInside(data: seq<Byte>, parts: seq<Part>)
    requires HeaderStatus(data) == Ok && ReadSoFar(data, parts)
    ensures Inside(parts, HEADER_SIZE + 4 * Count(data), Size(data))
  {
    hide HeaderStatus, PartStatus, PartAt, Count, Size;
    forall i: nat | i < |parts|
      ensures HEADER_SIZE + 4 * Count(data) <= parts[i].offset && PartEnd(parts[i]) <= Size(data)
    {
      PartInside(data, i);
    }
  }

  // ----- a writer for the layout

  datatype Chunk = Chunk(fourcc: nat, payload: seq<Byte>)

  function ChunkSize(c: Chunk): nat { PART_HEADER_SIZE + |c.payload| }

  function BodySize(cs: seq<Chunk>): nat { if cs == [] then 0 else ChunkSize(cs[0]) + BodySize(cs[1..]) }

  ghost predicate Writable(cs: seq<Chunk>) {
    HEADER_SIZE + 4 * |cs| + BodySize(cs) < U32 && forall i :: 0 <= i < |cs| ==> cs[i].fourcc < U32
  }

  function EncChunk(c: Chunk): (s: seq<Byte>)
    requires c.fourcc < U32 && |c.payload| < U32
    ensures |s| == ChunkSize(c)
  {
    Le32(c.fourcc) + Le32(|c.payload|) + c.payload
  }

  function EncBodies(cs: seq<Chunk>): (s: seq<Byte>)
    requires BodySize(cs) < U32 && forall i :: 0 <= i < |cs| ==> cs[i].fourcc < U32
    ensures |s| == BodySize(cs)
  {
    if cs == [] then [] else EncChunk(cs[0]) + EncBodies(cs[1..])
  }

  /** The index table of chunks laid one after the other from offset at. */
  function EncTable(cs: seq<Chunk>, at: nat): (s: seq<Byte>)
    requires at + BodySize(cs) < U32
    ensures |s| == 4 * |cs|
  {
    if cs == [] then [] else Le32(at) + EncTable(cs[1..], at + ChunkSize(cs[0]))
  }

  function EncHeader(hash: seq<Byte>, major: nat, minor: nat, size: nat, count: nat): (s: seq<Byte>)
    requires |hash| == 16 && major < 0x1_0000 && minor < 0x1_0000 && size < U32 && count < U32
    ensures |s| == HEADER_SIZE
  {
    Le32(0x4342_5844) + hash + Le16(major) + Le16(minor) + Le32(size) + Le32(count)
  }

  function EncContainer(hash: seq<Byte>, major: nat, minor: nat, cs: seq<Chunk>): (s: seq<Byte>)
    requires |hash| == 16 && major < 0x1_0000 && minor < 0x1_0000 && Writable(cs)
    ensures |s| == HEADER_SIZE + 4 * |cs| + BodySize(cs)
  {
    var bodies := HEADER_SIZE + 4 * |cs|;
    EncHeader(hash, major, minor, bodies + BodySize(cs), |cs|) + EncTable(cs, bodies) + EncBodies(cs)
  }

  /** Where chunk i starts, relative to the first. */
  function Start(cs: seq<Chunk>, i: nat): nat
    requires i <= |cs|
  {
    if i == 0 then 0 else ChunkSize(cs[0]) + Start(cs[1..], i - 1)
  }

  lemma {:induction false} StartFits(cs: seq<Chunk>, i: nat)
    requires i < |cs|
    ensures Start(cs, i) + ChunkSize(cs[i]) <= BodySize(cs)
    ensures Start(cs, i + 1) == Start(cs, i) + ChunkSize(cs[i])
  {
    if i > 0 { StartFits(cs[1..], i - 1); }
  }

  lemma {:induction false} TableAt(cs: seq<Chunk>, at: nat, i: nat)
    requires at + BodySize(cs) < U32 && i < |cs|
    ensures at + Start(cs, i) < U32 && EncTable(cs, at)[4 * i..4 * i + 4] == Le32(at + Start(cs, i))
  {
    hide Le32, ChunkSize;
    if i > 0 {
      TableAt(cs[1..], at + ChunkSize(cs[0]), i - 1);
      var rest := EncTable(cs[1..], at + ChunkSize(cs[0]));
      assert EncTable(cs, at)[4 * i..4 * i + 4] == rest[4 * (i - 1)..4 * (i - 1) + 4];
    }
  }

  lemma {:induction false} BodyAt(cs: seq<Chunk>, i: nat)
    requires BodySize(cs) < U32 && (forall k :: 0 <= k < |cs| ==> cs[k].fourcc < U32) && i < |cs|
    ensures Start(cs, i) + ChunkSize(cs[i]) <= BodySize(cs) && |cs[i].payload| < U32
    ensures EncBodies(cs)[Start(cs, i)..Start(cs, i) + ChunkSize(cs[i])] == EncChunk(cs[i])
  {
    hide EncChunk, ChunkSize, EncBodies, BodySize, Start;
    StartFits(cs, i);
    PayloadFits(cs, i);
    Unfolded(cs, i);
    var first, rest, n := EncChunk(cs[0]), EncBodies(cs[1..]), ChunkSize(cs[i]);
    if i == 0 {
      assert (first + rest)[0..n] == first;
    } else {
      BodyAt(cs[1..], i - 1);
      Beyond(first, rest, Start(cs[1..], i - 1), n);
    }
  }

  lemma PayloadFits(cs: seq<Chunk>, i: nat)
    requires BodySize(cs) < U32 && i < |cs|
    ensures |cs[i].payload| < U32
  {
    hide BodySize, Start;
    StartFits(cs, i);
  }

  /** One step of the bodies, of their size and of the start of chunk i. */
  lemma Unfolded(cs: seq<Chunk>, i: nat)
    requires BodySize(cs) < U32 && (forall k :: 0 <= k < |cs| ==> cs[k].fourcc < U32) && i < |cs|
    ensures BodySize(cs) == ChunkSize(cs[0]) + BodySize(cs[1..]) && |cs[0].payload| < U32
    ensures EncBodies(cs) == EncChunk(cs[0]) + EncBodies(cs[1..])
    ensures Start(cs, i) == if i == 0 then 0 else ChunkSize(cs[0]) + Start(cs[1..], i - 1)
  {
    hide EncChunk;
  }

  lemma Beyond<T>(a: seq<T>, b: seq<T>, i: nat, n: nat)
    requires i + n <= |b|
    ensures (a + b)[|a| + i..|a| + i + n] == b[i..i + n]
  {
  }

  lemma Inner<T>(s: seq<T>, at: nat, n: nat, i: nat, m: nat)
    requires at + n <= |s| && i + m <= n
    ensures s[at..at + n][i..i + m] == s[at + i..at + i + m]
  {
    var t, u := s[at..at + n][i..i + m], s[at + i..at + i + m];
    forall k | 0 <= k < m ensures t[k] == u[k] { assert t[k] == s[at..at + n][i + k] == s[at + (i + k)]; }
  }

  /** Slicing within the middle of a concatenation. */
  lemma Within<T>(a: seq<T>, b: seq<T>, c: seq<T>, i: nat, n: nat)
    requires i + n <= |b|
    ensures (a + b + c)[|a| + i..|a| + i + n] == b[i..i + n]
  {
  }

  lemma HeaderRead(hash: seq<Byte>, major: nat, minor: nat, size: nat, count: nat, rest: seq<Byte>)
    requires |hash| == 16 && major < 0x1_0000 && minor < 0x1_0000 && size < U32 && count < U32
    ensures var data := EncHeader(hash, major, minor, size, count) + rest;
            Word(data, 0) == MAGIC && Word(data, 24) == size && Word(data, 28) == count
            && data[4..20] == hash && HalfWord(data, 20) == major && HalfWord(data, 22) == minor
  {
    hide Word, Le32;
    var data := EncHeader(hash, major, minor, size, count) + rest;
    assert data[0..4] == Le32(MAGIC) && data[24..28] == Le32(size) && data[28..32] == Le32(count);
    WordOfLe32(data, 0, MAGIC);
    WordOfLe32(data, 24, size);
    WordOfLe32(data, 28, count);
    assert data[4..20] == hash;
    assert data[20..22] == Le16(major) && data[22..24] == Le16(minor);
    HalfWordRead(data, 20, major);
    HalfWordRead(data, 22, minor);
  }

  lemma HalfWordRead(data: seq<Byte>, at: nat, v: nat)
    requires at + 2 <= |data| && v < 0x1_0000 && data[at..at + 2] == Le16(v)
    ensures HalfWord(data, at) == v
  {
    var s := data[at..at + 2];
    assert s[0] == data[at] && s[1] == data[at + 1];
  }

  lemma ChunkRead(data: seq<Byte>, at: nat, c: Chunk)
    requires c.fourcc < U32 && |c.payload| < U32 && at + ChunkSize(c) <= |data|
    requires data[at..at + ChunkSize(c)] == EncChunk(c)
    ensures Word(data, at) == c.fourcc && Word(data, at + 4) == |c.payload|
    ensures data[at + 8..at + 8 + |c.payload|] == c.payload
  {
    hide Word, Le32;
    var s := data[at..at + ChunkSize(c)];
    var a, b := Le32(c.fourcc), Le32(|c.payload|);
    assert s == a + b + c.payload;
    assert s[0..4] == a && s[4..8] == b && s[8..8 + |c.payload|] == c.payload;
    Inner(data, at, ChunkSize(c), 0, 4);
    Inner(data, at, ChunkSize(c), 4, 4);
    Inner(data, at, ChunkSize(c), 8, |c.payload|);
    WordOfLe32(data, at, c.fourcc);
    WordOfLe32(data, at + 4, |c.payload|);
  }

  lemma PartRead(hash: seq<Byte>, major: nat, minor: nat, cs: seq<Chunk>, suffix: seq<Byte>, i: nat)
    requires |hash| == 16 && major < 0x1_0000 && minor < 0x1_0000 && Writable(cs) && i < |cs|
    ensures var data := EncContainer(hash, major, minor, cs) + suffix;
            HeaderStatus(data) == Ok && Count(data) == |cs| && Size(data) == HEADER_SIZE + 4 * |cs| + BodySize(cs)
            && PartStatus(data, i) == Ok
            && PartAt(data, i) == Part(cs[i].fourcc, HEADER_SIZE + 4 * |cs| + Start(cs, i), cs[i].payload)
  {
    hide Word, EncContainer, Start, BodySize, HeaderStatus, PartStatus, PartAt;
    var at := HEADER_SIZE + 4 * |cs|;
    var data := EncContainer(hash, major, minor, cs) + suffix;
    HeaderAccepted(hash, major, minor, cs, suffix);
    OffsetRead(hash, major, minor, cs, suffix, i);
    BodyRead(hash, major, minor, cs, suffix, i);
    StartFits(cs, i);
    PartFromWords(data, i, at + Start(cs, i), cs[i]);
  }

  lemma PartFromWords(data: seq<Byte>, i: nat, at: nat, c: Chunk)
    requires HeaderStatus(data) == Ok && i < Count(data) && Offset(data, i) == at
    requires HEADER_SIZE + 4 * Count(data) <= at && at + ChunkSize(c) <= Size(data)
    requires Word(data, at) == c.fourcc && Word(data, at + 4) == |c.payload|
             && data[at + 8..at + 8 + |c.payload|] == c.payload
    ensures PartStatus(data, i) == Ok && PartAt(data, i) == Part(c.fourcc, at, c.payload)
  {
    hide HeaderStatus, Word, Count, Size, Offset;
  }

  lemma Shape(hash: seq<Byte>, major: nat, minor: nat, cs: seq<Chunk>)
    requires |hash| == 16 && major < 0x1_0000 && minor < 0x1_0000 && Writable(cs)
    ensures var at := HEADER_SIZE + 4 * |cs|;
            EncContainer(hash, major, minor, cs) == EncHeader(hash, major, minor, at + BodySize(cs), |cs|)
              + EncTable(cs, at) + EncBodies(cs)
  {
    hide EncHeader, EncTable, EncBodies, BodySize;
  }

  lemma OffsetRead(hash: seq<Byte>, major: nat, minor: nat, cs: seq<Chunk>, suffix: seq<Byte>, i: nat)
    requires |hash| == 16 && major < 0x1_0000 && minor < 0x1_0000 && Writable(cs) && i < |cs|
    ensures Word(EncContainer(hash, major, minor, cs) + suffix, HEADER_SIZE + 4 * i)
            == HEADER_SIZE + 4 * |cs| + Start(cs, i)
  {
    hide Word, HalfWord, Le32, EncHeader, EncTable, EncBodies, EncContainer, EncChunk, Start;
    Shape(hash, major, minor, cs);
    var at := HEADER_SIZE + 4 * |cs|;
    var head, table, bodies := EncHeader(hash, major, minor, at + BodySize(cs), |cs|), EncTable(cs, at), EncBodies(cs);
    var data := EncContainer(hash, major, minor, cs) + suffix;
    assert data == head + table + bodies + suffix;
    TableAt(cs, at, i);
    assert head + table + bodies + suffix == head + table + (bodies + suffix);
    Within(head, table, bodies + suffix, 4 * i, 4);
    WordOfLe32(data, HEADER_SIZE + 4 * i, at + Start(cs, i));
  }

  lemma BodyRead(hash: seq<Byte>, major: nat, minor: nat, cs: seq<Chunk>, suffix: seq<Byte>, i: nat)
    requires |hash| == 16 && major < 0x1_0000 && minor < 0x1_0000 && Writable(cs) && i < |cs|
    ensures var data, at := EncContainer(hash, major, minor, cs) + suffix, HEADER_SIZE + 4 * |cs| + Start(cs, i);
            && at + 8 + |cs[i].payload| <= |data|
            && Word(data, at) == cs[i].fourcc && Word(data, at + 4) == |cs[i].payload|
            && data[at + 8..at + 8 + |cs[i].payload|] == cs[i].payload
  {
    hide Word, HalfWord, Le32, EncHeader, EncTable, EncBodies, EncContainer, EncChunk, Start, BodySize, ChunkSize;
    Shape(hash, major, minor, cs);
    var at := HEADER_SIZE + 4 * |cs|;
    var head, table, bodies := EncHeader(hash, major, minor, at + BodySize(cs), |cs|), EncTable(cs, at), EncBodies(cs);
    BodyAt(cs, i);
    ChunkLength(cs[i]);
    var front := head + table;
    Within(front, bodies, suffix, Start(cs, i), ChunkSize(cs[i]));
    var data := front + bodies + suffix;
    ChunkRead(data, at + Start(cs, i), cs[i]);
  }

  lemma ChunkLength(c: Chunk)
    ensures ChunkSize(c) == 8 + |c.payload|
  {
  }

  /** Any chunks written in this layout, followed by any bytes, are read back as they were. */
  method WriteThenParse(
    hash: seq<Byte>, major: nat, minor: nat, cs: seq<Chunk>, suffix: seq<Byte>)
    returns (status: Status, parts: seq<Part>)
    requires |hash| == 16 && major < 0x1_0000 && minor < 0x1_0000 && Writable(cs)
    ensures status == Ok && |parts| == |cs|
    ensures forall i :: 0 <= i < |cs| ==> parts[i].fourcc == cs[i].fourcc && parts[i].payload == cs[i].payload
    ensures forall i :: 0 <= i < |cs| - 1 ==> PartEnd(parts[i]) == parts[i + 1].offset
  {
    hide HeaderStatus, Word, HalfWord, Le32, EncContainer, PartStatus, PartAt, Count, Size, Start, ChunkSize, BodySize;
    var data := EncContainer(hash, major, minor, cs) + suffix;
    HeaderAccepted(hash, major, minor, cs, suffix);
    var parser := new ContainerParser();
    forall i: nat | i < |cs|
      ensures PartStatus(data, i) == Ok
      ensures PartAt(data, i) == Part(cs[i].fourcc, HEADER_SIZE + 4 * |cs| + Start(cs, i), cs[i].payload)
    {
      PartRead(hash, major, minor, cs, suffix, i);
    }
    status := parser.ParseContainer(data);
    parts := parser.parts;
    forall i: nat | i < |cs| - 1 ensures PartEnd(parts[i]) == parts[i + 1].offset { Consecutive(cs, i); }
  }

  lemma Consecutive(cs: seq<Chunk>, i: nat)
    requires i < |cs|
    ensures Start(cs, i + 1) == Start(cs, i) + PART_HEADER_SIZE + |cs[i].payload|
  {
    StartFits(cs, i);
  }

  lemma HeaderAccepted(hash: seq<Byte>, major: nat, minor: nat, cs: seq<Chunk>, suffix: seq<Byte>)
    requires |hash| == 16 && major < 0x1_0000 && minor < 0x1_0000 && Writable(cs)
    ensures var data := EncContainer(hash, major, minor, cs) + suffix;
            HeaderStatus(data) == Ok && Count(data) == |cs| && Size(data) == HEADER_SIZE + 4 * |cs| + BodySize(cs)
  {
    hide HeaderStatus, Count, Size, Word, HalfWord, EncHeader, EncTable, EncBodies, EncContainer, BodySize;
    Shape(hash, major, minor, cs);
    var at := HEADER_SIZE + 4 * |cs|;
    var head, table, bodies := EncHeader(hash, major, minor, at + BodySize(cs), |cs|), EncTable(cs, at), EncBodies(cs);
    var data, rest := EncContainer(hash, major, minor, cs) + suffix, table + bodies + suffix;
    Regroup(head, table, bodies, suffix);
    HeaderRead(hash, major, minor, at + BodySize(cs), |cs|, rest);
    assert |data| == |head| + |rest|;
    HeaderFromWords(data, at + BodySize(cs), |cs|);
  }

  lemma Regroup<T>(a: seq<T>, b: seq<T>, c: seq<T>, d: seq<T>)
    ensures a + b + c + d == a + (b + c + d)
  {
  }

  lemma HeaderFromWords(data: seq<Byte>, size: nat, count: nat)
    requires HEADER_SIZE + 4 * count <= size <= |data|
    requires Word(data, 0) == MAGIC && Word(data, 24) == size && Word(data, 28) == count
    ensures HeaderStatus(data) == Ok && Count(data) == count && Size(data) == size
  {
    hide Word;
  }

  // ----- overlapping parts

  datatype Range = Range(fourcc: nat, begin: nat, end: nat)

  predicate Meet(a: Range, b: Range) { a.begin < b.end && b.begin < a.end }

  /** Two of the ranges, at different places in the list, share a byte. */
  ghost predicate SomeOverlap(rs: seq<Range>) {
    exists i, j :: 0 <= i < j < |rs| && Meet(rs[i], rs[j])
  }

  /** The same for a bag of ranges, so that the order does not matter. */
  ghost predicate BagOverlap(m: multiset<Range>) {
    exists a, b :: a in m && b in m - multiset{a} && Meet(a, b)
  }

  lemma OverlapOfBag(rs: seq<Range>)
    ensures SomeOverlap(rs) <==> BagOverlap(multiset(rs))
  {
    if SomeOverlap(rs) {
      var i, j :| 0 <= i < j < |rs| && Meet(rs[i], rs[j]);
      InBag(rs, i, j);
    }
    if BagOverlap(multiset(rs)) {
      var a, b :| a in multiset(rs) && b in multiset(rs) - multiset{a} && Meet(a, b);
      hide Meet, BagOverlap;
      var i, j := FromBag(rs, a, b);
      assert Meet(rs[i], rs[j]) || Meet(rs[j], rs[i]);
      MeetSymmetric(rs[i], rs[j]);
    }
  }

  lemma MeetSymmetric(a: Range, b: Range)
    ensures Meet(a, b) <==> Meet(b, a)
  {
  }

  lemma InBag(rs: seq<Range>, i: nat, j: nat)
    requires i < j < |rs|
    ensures rs[i] in multiset(rs) && rs[j] in multiset(rs) - multiset{rs[i]}
  {
    Without(rs, i);
    assert (rs[..i] + rs[i + 1..])[j - 1] == rs[j];
  }

  lemma FromBag(rs: seq<Range>, a: Range, b: Range) returns (i: nat, j: nat)
    requires a in multiset(rs) && b in multiset(rs) - multiset{a}
    ensures i < j < |rs| && ((rs[i] == a && rs[j] == b) || (rs[i] == b && rs[j] == a))
  {
    var k :| 0 <= k < |rs| && rs[k] == a;
    Without(rs, k);
    var rest := rs[..k] + rs[k + 1..];
    var m :| 0 <= m < |rest| && rest[m] == b;
    if m < k { i, j := m, k; } else { i, j := k, m + 1; }
  }

  lemma Without(rs: seq<Range>, i: nat)
    requires i < |rs|
    ensures multiset(rs) - multiset{rs[i]} == multiset(rs[..i] + rs[i + 1..])
  {
    assert rs == rs[..i] + [rs[i]] + rs[i + 1..];
  }

  ghost predicate Sorted(rs: seq<Range>) { forall i, j :: 0 <= i < j < |rs| ==> rs[i].begin <= rs[j].begin }

  ghost predicate NonEmpty(rs: seq<Range>) { forall i :: 0 <= i < |rs| ==> rs[i].begin < rs[i].end }

  /** In begin order, ranges overlap somewhere exactly when two neighbours do. */
  lemma NeighboursSuffice(rs: seq<Range>)
    requires Sorted(rs) && NonEmpty(rs)
    ensures SomeOverlap(rs) <==> exists k: nat :: Clash(rs, k)
  {
    if forall k: nat :: !Clash(rs, k) {
      forall i, j | 0 <= i < j < |rs| ensures !Meet(rs[i], rs[j]) { assert !Clash(rs, i + 1); }
    } else {
      var i: nat :| Clash(rs, i);
      assert Meet(rs[i - 1], rs[i]);
    }
  }

  /** Stands for the library sort: any sorted rearrangement will do below. */
  method SortByBegin(rs: seq<Range>) returns (sorted: seq<Range>)
    ensures Sorted(sorted) && multiset(sorted) == multiset(rs)
  {
    sorted := [];
    for i := 0 to |rs|
      invariant Sorted(sorted) && multiset(sorted) == multiset(rs[..i])
    {
      assert rs[..i + 1] == rs[..i] + [rs[i]];
      sorted := Insert(sorted, rs[i]);
    }
    assert rs[..|rs|] == rs;
  }

  method Insert(rs: seq<Range>, r: Range) returns (out: seq<Range>)
    requires Sorted(rs)
    ensures Sorted(out) && multiset(out) == multiset(rs) + multiset{r}
  {
    var k := 0;
    while k < |rs| && rs[k].begin <= r.begin
      invariant 0 <= k <= |rs| && forall j :: 0 <= j < k ==> rs[j].begin <= r.begin
    {
      k := k + 1;
    }
    out := rs[..k] + [r] + rs[k..];
    InsertedSorted(rs, r, k);
    InsertedBag(rs, r, k);
  }

  lemma InsertedSorted(rs: seq<Range>, r: Range, k: nat)
    requires Sorted(rs) && k <= |rs| && (forall j :: 0 <= j < k ==> rs[j].begin <= r.begin)
    requires k < |rs| ==> r.begin <= rs[k].begin
    ensures Sorted(rs[..k] + [r] + rs[k..])
  {
    var out := rs[..k] + [r] + rs[k..];
    forall i, j | 0 <= i < j < |out| ensures out[i].begin <= out[j].begin {
      if j < k {
      } else if j == k {
      } else if i == k {
        assert out[j] == rs[j - 1];
      } else {
        assert out[j] == rs[j - 1] && out[i] == rs[if i < k then i else i - 1];
      }
    }
  }

  lemma InsertedBag(rs: seq<Range>, r: Range, k: nat)
    requires k <= |rs|
    ensures multiset(rs[..k] + [r] + rs[k..]) == multiset(rs) + multiset{r}
  {
    assert rs == rs[..k] + rs[k..];
  }

  /** The positions, after sorting, at which the validator reports an overlap with the neighbour.
      There is a report exactly when some two different parts of the container share a byte. */
  method FindOverlaps(parts: seq<Part>, ghost tableEnd: nat, ghost size: nat) returns (reports: seq<nat>)
    requires Inside(parts, tableEnd, size) && size < U32
    ensures reports != [] <==>
              exists i, j :: 0 <= i < j < |parts| && parts[i].offset < PartEnd(parts[j])
                && parts[j].offset < PartEnd(parts[i])
  {
    hide SomeOverlap, BagOverlap, Sorted, NonEmpty;
    var ranges := Ranges(parts, tableEnd, size);
    var sorted := SortByBegin(ranges);
    OverlapOfBag(ranges);
    OverlapOfBag(sorted);
    SortedNonEmpty(ranges, sorted);
    NeighboursSuffice(sorted);
    reports := ReportNeighbours(sorted);
    assert reports != [] ==> Clash(sorted, reports[0]);
  }

  /** The byte range of each part; the 32-bit end does not wrap for parts inside the container. */
  method Ranges(parts: seq<Part>, ghost tableEnd: nat, ghost size: nat) returns (ranges: seq<Range>)
    requires Inside(parts, tableEnd, size) && size < U32
    ensures NonEmpty(ranges)
    ensures SomeOverlap(ranges) <==>
              exists i, j :: 0 <= i < j < |parts| && parts[i].offset < PartEnd(parts[j])
                && parts[j].offset < PartEnd(parts[i])
  {
    ranges := [];
    for i := 0 to |parts|
      invariant |ranges| == i
      invariant forall k :: 0 <= k < i ==> ranges[k] == Range(parts[k].fourcc, parts[k].offset, PartEnd(parts[k]))
    {
      ranges := ranges + [Range(parts[i].fourcc, parts[i].offset, PartEnd(parts[i]) % U32)];
    }
  }

  predicate Clash(rs: seq<Range>, k: nat) { 0 < k < |rs| && rs[k].begin < rs[k - 1].end }

  method ReportNeighbours(sorted: seq<Range>) returns (reports: seq<nat>)
    ensures forall k: nat :: Clash(sorted, k) <==> k in reports
  {
    reports := [];
    var i := 1;
    while i < |sorted|
      invariant i >= 1 && forall k: nat :: k in reports <==> Clash(sorted, k) && k < i
    {
      if sorted[i].begin < sorted[i - 1].end {
        reports := reports + [i];
      }
      i := i + 1;
    }
  }

  lemma SortedNonEmpty(rs: seq<Range>, sorted: seq<Range>)
    requires NonEmpty(rs) && multiset(sorted) == multiset(rs)
    ensures NonEmpty(sorted)
  {
    forall i | 0 <= i < |sorted| ensures sorted[i].begin < sorted[i].end {
      assert sorted[i] in multiset(rs);
    }
  }
}
