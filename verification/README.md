# Shader-binary readers and layout: a Dafny model

This project models the self-contained algorithms of a Direct3D-to-Metal shader translator and
proves what they promise: the LLVM bitstream reader, the call-graph analysis behind validation, the
tokenised shader program parser, the RDAT tables, resource handle propagation, the argument-table
allocator, tessellation fitting, the container reader and the signature lookups. Verify it with
`dafny verify dfyconfig.toml`.

Code that moves a cursor, fills tables or updates records is modelled by classes, arrays and loops;
each such method is proved equal to a function of its input, and the theorems are about that
function. The main results:

* **Bitstream.** `Writer` is written from the LLVM Bitcode File Format (sections "Primitives",
  "Blocks", "Data Records", "Abbreviations", "BLOCKINFO Block") with its own notion of which
  abbreviations are available; `FileRoundTrip` and `ReadBack` say that every file it can write is
  parsed back from its bytes to the preorder block list, the stream-order record list and the
  registry exactly when it registers nothing for block id 0; `FileTables` has blocks and records read
  back whatever is registered, as long as no record of a BLOCKINFO block goes through an abbreviation.
  `FormedIsWritten` says in plain numbers which trees it can write, nesting up to 64 among them, and
  `ReadFormed` reads them back; `BlockRefused` says what lies beyond.
  On arbitrary bytes, `LaminarNesting`, `RecordsConserved`, `BlockRegistry` and `RunScoped` hold of
  every successful parse, and `VbrExact` says exactly when a variable-width integer is accepted and
  that no bit of it is lost.
* **Call graph.** Reachability and recursion flags are exact against paths of direct calls resolved by
  name, and a module reported valid has a rank that decreases along every such call between named
  functions. With every function named the flags are exact for the functions really called.
* **Tokens.** Operand parsing inverts the encoding with relative indices nested to any depth, and
  the instruction walk visits exactly the instruction boundaries. Which opcodes the walk parses is
  stated by name (`OpcodeClasses`).
* **RDAT, handles.** The tables parsed are exactly those the parts say, word by word
  (`TablesExact`), and every cross-table index is in range; the one forward pass gives each operation
  what its definition chain yields, down to the first resource at a binding, and is idempotent.
* **Layout and fitting.** Handed-out indices are exactly 0 up to the table size and survive
  demotion and rebuild, which changes the kinds of demoted elements only; the fitting search returns
  the first configuration that fits.
* **Container and signatures.** The container reader inverts a writer; checking sorted neighbours
  finds an overlap exactly when one exists; filtered and rotated searches equal the plain ones.

Where the code and its documentation, or the code and the format, disagree, the code is followed, an
input that shows it is given, and the exact condition under which they agree is proved:

* A BLOCKINFO definition under SETBID 0 stays local, because 0 also means "no SETBID". For every
  stream that parses, `RegistryMatchesFormat` says exactly when the registry is nevertheless the
  format's; `SetBidZeroIgnored` and `SetBidZeroRefused` are files that show the difference.
* The three-bit index representation field is read through a two-bit mask: a representation is
  recovered exactly when it is below 4, and 4 is read as 0 (`RepresentationExact`).
* The token header gives an immediate 64 bits per component (d3d12tokenizedprogramformat.hpp:918), the
  parser reads one token per component. For four components the library itself has two values in four
  tokens (the `COperand` constructors from two doubles or two integers, ShaderBinary.h:370-382 and
  427-436, over a record of two 64-bit values, :283-288), all of which are read; that is the form
  modelled. A one-component immediate has two tokens, of which the second is not read
  (`WideStopsShort`, `SecondWordLost`). The walk still always lands on the next instruction exactly
  when no operand but the last is such a one (`AlwaysLandsIff`).
* Functions are looked up by name and the empty name is never found, so cycles through unnamed
  functions are not marked (`UnnamedCycleMissed`); `RecursiveIffNamedCycle` says which are.
* A sampler takes three locations but neighbouring sampler slots are one location apart
  (`LocationsApart`, and for any slots `ApartIff`; `NeighbouringSamplersMeet`).
* The comment on `CanOutputTo` asks for a target identical to the beginning of the source; the code
  accepts swapped entries (`SwappedAccepted`). With no semantic twice in the source, the two agree
  exactly on the targets whose semantics stand in the order of the source (`PrefixIffFedInOrder`).
  The rule is always sufficient (`PrefixIsFed`); with a repeated semantic even the same order is not
  enough for the code to apply it (`RepeatedKeyAccepted`).
* An empty list on the very last word of the RDAT index arrays is refused (`ListReadBack`).
* Signature entries out of stream order are in no stream and no error is reported
  (`SegmentsCoverIff`, `OutOfOrderDropped`).
* Usage flags match by id without looking at the class (`FlagsStayInClassIff`, `SharedIdMarksBoth`).
* All functions share one map of handle names, though names are local to a function
  (`FunctionsSeparateIff`, `NameLeaks`).

## Model

| member | source | states |
|---|---|---|
| `Reader.BitReader.ReadBits` | libs/DXILParser/DXILParser.cpp:1532-1548 | or-ing bit after bit gives the little-endian value of the bits; fails, cursor unmoved, exactly when they do not fit |
| `Reader.BitReader.ReadVbrBits` | libs/DXILParser/DXILParser.cpp:1550-1573 | the loop with its 64-bit overflow test computes the recursive reader that VbrExact characterises |
| `Reader.BitReader.Align32` | libs/DXILParser/DXILParser.cpp:1575-1581 | moves to the next multiple of 32, or not at all when that is past the end |
| `Reader.BitReader.SkipBits` | libs/DXILParser/DXILParser.cpp:1583-1589 | advances by the count exactly when it stays within the stream |
| `Reader.BitReader.Seek` | libs/DXILParser/DXILParser.cpp:1591-1596 | moves to any offset up to the limit and to no other |
| `Primitives.VbrExact` | libs/DXILParser/DXILParser.cpp:1550-1573 | on any bits: success iff the chunks are complete, none starts at bit 64 or above and the sum of chunk·2^(i·(width−1)) is below 2^64; the result is that sum and the cursor moves by width per chunk |
| `Primitives.VbrRoundTrip` | libs/DXILParser/DXILParser.cpp:1550-1573 | every width 2..32, every 64-bit value, any offset: the encoding reads back and is consumed exactly |
| `Primitives.FixedRoundTrip` | libs/DXILParser/DXILParser.cpp:1532-1548 | a value that fits its width is read back from its bits at any offset |
| `Parser.BitcodeParser.Parse` | libs/DXILParser/DXILParser.cpp:1609-1617 | the parser object succeeds exactly when the specification parse does, with the same block, record and registry tables |
| `Parser.BitcodeParser.ParseBlock` | libs/DXILParser/DXILParser.cpp:1620-1731 | one block: tables extended by exactly what the block and its nested blocks contain, cursor at its end |
| `Parser.BitcodeParser.ParseChild` | libs/DXILParser/DXILParser.cpp:1648-1671 | the header of a nested block, its body, and the seek to the declared end |
| `Parser.BitcodeParser.ChildItem` | libs/DXILParser/DXILParser.cpp:1648-1671 | one loop round with a nested block keeps the loop invariant (lists in force, SETBID, tables) and advances the cursor |
| `Parser.BitcodeParser.DefineItem` | libs/DXILParser/DXILParser.cpp:1673-1682 | one loop round with a definition: into the registry under a SETBID, otherwise appended to the block's own list |
| `Parser.BitcodeParser.RecordItem` | libs/DXILParser/DXILParser.cpp:1684-1724 | one loop round with a record: count, record list and SETBID updated, cursor advanced |
| `Parser.BitcodeParser.EndItem` | libs/DXILParser/DXILParser.cpp:1641-1646 | END_BLOCK closes the block at the aligned offset, refused past its limit |
| `Parser.BitcodeParser.LimitReached` | libs/DXILParser/DXILParser.cpp:1727-1730 | a block may also stop exactly at its limit, and nowhere else |
| `Parser.BitcodeParser.ReadRecord` | libs/DXILParser/DXILParser.cpp:1684-1717 | code, operand count and the first sixteen values of a record, plain or abbreviated |
| `Parser.BitcodeParser.ReadAbbrevDef` | libs/DXILParser/DXILParser.cpp:1733-1767 | the operand list of a definition; reserved encodings are refused |
| `Parser.BitcodeParser.ReadUnabbreviatedRecord` | libs/DXILParser/DXILParser.cpp:1690-1704 | code and values of an unabbreviated record |
| `Parser.BitcodeParser.ReadAbbreviatedRecord` | libs/DXILParser/DXILParser.cpp:1769-1816 | literals, scalars, arrays and blobs in order, with the 32-bit count and the first sixteen values |
| `Parser.BitcodeParser.ReadEncodedValue` | libs/DXILParser/DXILParser.cpp:1818-1834 | one value in its encoding; arrays and blobs are not values |
| `Parser.BitcodeParser.PushRecordValue` | libs/DXILParser/DXILParser.cpp:1836-1841 | keeps the first sixteen values and the wrapped count of all |
| `Parser.BitcodeParser.FindBlockInfoAbbrevs` | libs/DXILParser/DXILParser.cpp:1843-1849 | the linear search agrees with the registry seen as a map |
| `Parser.BitcodeParser.AddBlockInfoAbbrev` | libs/DXILParser/DXILParser.cpp:1851-1859 | appends to the list of one block id and leaves the others alone |
| `Structure.LaminarNesting` | libs/DXILParser/DXILParser.cpp:1620-1731 | any successful parse: blocks nested or apart, start ≤ end ≤ limit, depth is the number of enclosing blocks (≤ 64), no block outruns its declared length |
| `Structure.RecordsConserved` | libs/DXILParser/DXILParser.cpp:1723-1724 | for any set of block ids the blocks' record counts add up to the records listed; over all ids, to the length of the list |
| `Structure.BlockRegistry` | libs/DXILParser/DXILParser.cpp:1673-1682 | over any block: registered lists only grow at the end, only BLOCKINFO blocks register, block id 0 never gets a list |
| `Scoping.InForceIsEntryThenOwn` | libs/DXILParser/DXILParser.cpp:1633-1682 | in every block the list in force is the list found on entry followed by its local definitions so far: all of them, but in a BLOCKINFO block those under no SETBID or SETBID 0 |
| `Scoping.IdsStable` | libs/DXILParser/DXILParser.cpp:1673-1682 | an abbreviation id never changes its meaning within a block |
| `Scoping.RunScoped` | libs/DXILParser/DXILParser.cpp:1620-1731 | over every successful run, nested blocks included: the registry is that of all definitions announced in BLOCKINFO blocks in stream order, except for block id 0, and every block at every depth found on entry exactly the definitions announced for its id before it |
| `Scoping.BlockScoped` | libs/DXILParser/DXILParser.cpp:1620-1682 | the same for one block, given the announcements before it |
| `Scoping.RegistryMatchesFormat` | libs/DXILParser/DXILParser.cpp:1677-1681 | for every stream that parses, the registry is the one the format asks for exactly when no definition in it, at any depth, stands under a SETBID naming block 0 |
| `Scoping.RegistriesCompared` | libs/DXILParser/DXILParser.cpp:1677-1681 | the list of every block id in both registries: the definitions announced for it in order, for the reader none at id 0 |
| `Scoping.FileRegistry` | libs/DXILParser/DXILParser.cpp:1677-1681 | a written file has the registry the format asks for, free of id 0 exactly when nothing in it is announced for id 0 |
| `BlockZero.SetBidZeroIgnored` | libs/DXILParser/DXILParser.cpp:1677-1681 | a witness in bytes: the file parses, the format registers an abbreviation for block id 0, the reader nothing |
| `BlockZero.SetBidZeroRefused` | libs/DXILParser/DXILParser.cpp:1677-1681 | a witness in bytes: a file valid in the format that uses such an abbreviation is refused |
| `RoundTrip.FileRoundTrip` | libs/DXILParser/DXILParser.cpp:1604-1731 | a file the writer can produce parses from its bytes to the preorder blocks (ids, widths, depths, record counts, bit ranges), the stream-order records (codes, operand counts) and the registry, exactly when it registers nothing for block id 0 |
| `RoundTrip.AbbreviationKeepsMeaning` | libs/DXILParser/DXILParser.cpp:1684-1841 | a record of fewer than 2^32 values written plainly or through any matching abbreviation reads back with the same values, code and operand count |
| `RoundTrip.FieldsRoundTrip` | libs/DXILParser/DXILParser.cpp:1769-1834 | the fields of an abbreviated record are read back, array and blob included |
| `RoundTrip.AbbrevRoundTrip` | libs/DXILParser/DXILParser.cpp:1733-1767 | an abbreviation definition is read back operand for operand |
| `RoundTrip.PlainRoundTrip` | libs/DXILParser/DXILParser.cpp:1690-1704 | an unabbreviated record is read back value for value |
| `RoundTrip.BlockRead` | libs/DXILParser/DXILParser.cpp:1620-1731 | a written block, wherever it stands, parses to the tables and registry the writer predicts |
| `RoundTrip.BlockMeans` | libs/DXILParser/DXILParser.cpp:1627-1724 | those tables are the preorder shapes and stream-order records of the tree |
| `RoundTrip.InForceAvailable` | libs/DXILParser/DXILParser.cpp:1633-1682 | the reader's list in force is the list the format makes available |
| `Format.FormedIsWritten` | libs/DXILParser/DXILParser.cpp:1620-1859 | every tree that meets the format's conditions in plain numbers (nesting at most 64, ids and counts below 2^32, widths 1 to 32 that hold every id used, records that fit plainly or through an abbreviation available there) has an encoding, if it is below 2^37 bits by a generous estimate; and every tree with an encoding meets them |
| `Format.FormedIsRead` | libs/DXILParser/DXILParser.cpp:1604-1731 | hence every such file with no BLOCKINFO record through an abbreviation is parsed from its bytes to its preorder blocks and stream-order records |
| `Format.BlockRefused` | libs/DXILParser/DXILParser.cpp:1620-1623 | a block at depth 65 or more, or with an abbreviation width of 0 or above 32, is refused whatever its bits |
| `Format.StartsWithMagic` | libs/DXILParser/DXILParser.cpp:1609-1612 | a file that does not start with the bytes 42 43 C0 DE is refused |
| `Tables.FileTables` | libs/DXILParser/DXILParser.cpp:1604-1731 | whatever a written file registers, its blocks and records are read back whenever no record of a BLOCKINFO block goes through an abbreviation |
| `Tables.BlockTables` | libs/DXILParser/DXILParser.cpp:1620-1731 | the same for a block anywhere, from registries that agree on every block id but 0, which they still do afterwards |
| `Tables.NoneForZeroIsPlain` | libs/DXILParser/DXILParser.cpp:1633-1717 | a body that leaves nothing registered for block id 0 has no such record, so this covers every file the registry theorem does |
| `EndToEnd.ReadBack` | libs/DXILParser/DXILParser.cpp:1604-1617 | the parser object run on the bytes of any such file returns its blocks and records |
| `EndToEnd.ReadFormed` | libs/DXILParser/DXILParser.cpp:1604-1617 | the parser object run on the bytes of every such file returns its blocks and records |
| `Bits.PackRoundTrip` | libs/DXILParser/DXILParser.cpp:1541-1545 | reading bits low bit first from packed bytes gives the bits back |
| `CallGraphBuilder.LlvmModule.BuildCallGraph` | libs/DXILParser/DXILParser.cpp:1239-1347 | edges, direct calls, indirect-call flags, reachability, recursion and unused intrinsics all exact |
| `CallGraphBuilder.LlvmModule.CollectFrom` | libs/DXILParser/DXILParser.cpp:1248-1267 | one edge per call; direct calls of known functions in order; whether it calls indirectly |
| `CallGraphBuilder.LlvmModule.ListUnused` | libs/DXILParser/DXILParser.cpp:1335-1346 | exactly the intrinsics that no intrinsic call names |
| `CallGraphBuilder.LlvmModule.InitialWorklist` | libs/DXILParser/DXILParser.cpp:1270-1282 | the named entry points, or else the first defined function that is no intrinsic |
| `CallGraph.RootsExact` | libs/DXILParser/DXILParser.cpp:1270-1282 | the names a search starts from, by index and fields: all named entry points, or the first function with a body that is no intrinsic |
| `CallGraphBuilder.LlvmModule.MarkReachable` | libs/DXILParser/DXILParser.cpp:1284-1300 | lists without repetition exactly the defined functions reachable by paths of direct non-intrinsic calls, resolved by name, through defined functions; ends by (unlisted functions, worklist length) |
| `CallGraphBuilder.LlvmModule.LeadsBack` | libs/DXILParser/DXILParser.cpp:1306-1332 | the search from a name finds a call back exactly when a non-empty path of direct non-intrinsic calls, resolved by name, returns to it |
| `CallGraphBuilder.LlvmModule.MarkRecursive` | libs/DXILParser/DXILParser.cpp:1302-1333 | a defined function is marked recursive iff some such path leads back to its name; the list has each once |
| `CallGraphNames.RecursiveIffNamedCycle` | libs/DXILParser/DXILParser.cpp:1228-1236 | with calls followed to the function called: what is marked are exactly the functions that call themselves through named functions only |
| `CallGraphNames.NamedModuleExact` | libs/DXILParser/DXILParser.cpp:1228-1236 | with every function named, exactly the functions that call themselves |
| `CallGraphNames.UnnamedCycleMissed` | libs/DXILParser/DXILParser.cpp:1228-1236 | a witness: an unnamed function that calls itself is not marked |
| `CallGraphNames.AnalyseNamed` | libs/DXILParser/DXILParser.cpp:1239-1333 | the analysis run on a module whose functions are all named sets the flag of exactly the defined functions that call themselves |
| `CallGraphBuilder.ExploringDone` | libs/DXILParser/DXILParser.cpp:1284-1300 | an empty worklist with the loop invariant means listed iff reachable |
| `CallGraphBuilder.SearchingDone` | libs/DXILParser/DXILParser.cpp:1306-1332 | an exhausted search means no call path back to the start |
| `CallGraphBuilder.ValidateFlow` | libs/DXILParser/DXILParser.cpp:5247-5272 | a recursive-call error for exactly the defined recursive functions and no other error; unreachable-function warnings exactly for the unreachable ones |
| `CallGraphBuilder.ValidateDxil` | libs/DXILParser/DXILParser.cpp:5981-5993 | a module reported valid has a rank decreasing along every direct non-intrinsic call between named defined functions, and conversely when nothing else complains |
| `CallGraph.AcyclicIffRanked` | libs/DXILParser/DXILParser.cpp:1302-1333 | no recursion exactly when such a rank exists |
| `CallGraph.NoRecursionGivesRank` | libs/DXILParser/DXILParser.cpp:5247-5261 | the number of functions called below is such a rank |
| `TokenRoundTrip.OperandRoundTrip` | libs/DXBCParser/ShaderBinary.cpp:432-532 | parsing an encoded operand anywhere consumes exactly its tokens and returns its fields, relative indices of any depth flattened, 32-bit immediates and four-component 64-bit immediates included; only of a one-component 64-bit immediate the second word is left |
| `TokenRoundTrip.OperandFitsExact` | libs/DXBCParser/d3d12tokenizedprogramformat.hpp:691-1134 | which operands that covers, field by field: any type but those of the immediates, up to three indices of any representation, nested operands that fit in turn |
| `TokenRoundTrip.WideStopsShort` | libs/DXBCParser/ShaderBinary.cpp:513-522 | the cursor stops at the end of the encoding exactly when the operand is no one-component 64-bit immediate, else one token early |
| `TokenRoundTrip.SecondWordLost` | libs/DXBCParser/ShaderBinary.cpp:513-522 | a witness: two one-component 64-bit immediates with different second words parse alike, one token early |
| `TokenRoundTrip.IndexRoundTrip` | libs/DXBCParser/ShaderBinary.cpp:390-430 | one index of each representation 0..3 is read back |
| `TokenRoundTrip.FlattenMeaning` | libs/DXBCParser/ShaderBinary.cpp:405-426 | what a relative index keeps: type, register numbers, dimension, component and precision of its operand |
| `TokenRoundTrip.HeadRoundTrip` | libs/DXBCParser/ShaderBinary.cpp:432-499 | operand token 0 is decoded to the fields it was encoded from |
| `TokenRoundTrip.Token0Decodes` | libs/DXBCParser/d3d12tokenizedprogramformat.hpp:691-1009 | the decoding masks and shifts undo the encoding of token 0, the representation only modulo 4 |
| `TokenRoundTrip.SelectionDecodes` | libs/DXBCParser/d3d12tokenizedprogramformat.hpp:772-855 | mask, swizzle and select-1 fields are decoded back |
| `TokenRoundTrip.ExtensionRoundTrip` | libs/DXBCParser/d3d12tokenizedprogramformat.hpp:1062-1134 | modifier, precision and non-uniform flag are decoded back; other extensions are ignored |
| `TokenRoundTrip.ModifierFields` | libs/DXBCParser/d3d12tokenizedprogramformat.hpp:1062-1134 | the same on any modifier token, whatever its reserved bits |
| `TokenRoundTrip.RepresentationExact` | libs/DXBCParser/d3d12tokenizedprogramformat.hpp:986-1009 | a representation is recovered exactly when it is below 4; 4 is read as 0 |
| `Instructions.InstructionRoundTrip` | libs/DXBCParser/ShaderBinary.cpp:534-605 | an instruction of up to 127 tokens, of any opcode below 236 that is not one of the 51 listed by name, with no one-component 64-bit immediate before its last operand, is read back; its operands end at the declared length, so the resync does not move the cursor, unless the last is such an immediate: then they end one token early and the resync makes up for it |
| `Instructions.AlwaysLandsIff` | libs/DXBCParser/ShaderBinary.cpp:1092-1101 | the parser lands on the next boundary whatever the 64-bit values are exactly when no operand but the last is a one-component 64-bit immediate |
| `Instructions.ExtendedDecodes` | libs/DXBCParser/ShaderBinary.cpp:562-604 | each kind of extended token is decoded to its fields, and its continuation bit |
| `Instructions.OffsetRoundTrip` | libs/DXBCParser/ShaderBinary.cpp:570-583 | texel offsets −8..7 survive their four-bit field |
| `Instructions.OpcodeDecodes` | libs/DXBCParser/d3d12tokenizedprogramformat.hpp:418-480 | opcode, saturate, precise mask, length and extended bit are decoded back |
| `Instructions.OwnCaseByName` | libs/DXBCParser/ShaderBinary.cpp:606-1091 | the opcodes with a case of their own are 51 opcodes of the enumeration, listed by name |
| `Instructions.OpcodeClasses` | libs/DXBCParser/ShaderBinary.cpp:553-1101 | at a token of an opcode below 236 the parser parses operands to the declared length exactly when the opcode is not listed, hands it back when it is, and throws on 236 and above |
| `ShaderCodeParser.CodeParser.ParseIndex` | libs/DXBCParser/ShaderBinary.cpp:390-430 | the cursor-moving method computes the index function, cursor at its end |
| `ShaderCodeParser.CodeParser.ParseOperand` | libs/DXBCParser/ShaderBinary.cpp:432-532 | the mutually recursive method computes the operand function on any tokens |
| `ShaderCodeParser.CodeParser.ParseInstruction` | libs/DXBCParser/ShaderBinary.cpp:534-1101 | invalid opcodes are refused, opcodes with a case of their own handed back, all others parsed as the instruction function says, on any tokens |
| `ShaderCodeParser.CodeParser.ParseDefault` | libs/DXBCParser/ShaderBinary.cpp:561-1101 | the extended-token loop, the default operand loop and the resync |
| `ShaderCodeParser.WalkStep` | libs/DXBCParser/ShaderBinary.cpp:1092-1101 | one call at a boundary returns the instruction there and stops at the next boundary |
| `ShaderCodeParser.WalkProgram` | libs/DXBCParser/ShaderBinary.h:1433 | calling the parser until the end of the shader visits exactly the boundaries and every instruction, whatever tokens follow, for default-case instructions with one-component 64-bit immediates only as last operands |
| `RdatParser.RuntimeData.ParseCoreTables` | libs/DXILParser/DXILParser.cpp:3704-3747 | succeeds exactly when the parts say some tables, and then stores exactly those; whatever the parts hold, success leaves every cross-table index in range of the final table it names |
| `RdatFormat.TablesExact` | libs/DXILParser/DXILParser.cpp:2936-3747 | the parse yields thirteen tables iff the parts say them: each table is the first part of its number, record by record in order, each field the word, byte or half word at its place, each string, list and byte range what stands at the offset its word gives |
| `RdatFormat.ListExact` | libs/DXILParser/DXILParser.cpp:2037-2060 | at any offset exactly the list that stands there is read, its length first and then its elements |
| `RdatFormat.ListRefused` | libs/DXILParser/DXILParser.cpp:1373-1377 | a list is refused exactly when the offset is not null and there is no index part, no word follows the length, or the length overruns |
| `RdatFormat.ListReadBack` | libs/DXILParser/DXILParser.cpp:2037-2060 | a written list is read back wherever it stands, except an empty one on the very last word, which is refused |
| `RdatFormat.TextExact` | libs/DXILParser/DXILParser.cpp:2031-2034 | at any offset exactly the characters up to the next zero are read |
| `RdatFormat.BytesExact` | libs/DXILParser/DXILParser.cpp:2062-2074 | at any offset exactly the bytes of the range are read, none for size zero |
| `RdatFormat.ResourceExact` | libs/DXILParser/DXILParser.cpp:2951-2965 | a resource record is read as its eight words say |
| `RdatFormat.SubobjectExact` | libs/DXILParser/DXILParser.cpp:2988-3042 | a subobject is read as its words say, by kind |
| `RdatFormat.FuncAttribExact` | libs/DXILParser/DXILParser.cpp:3099-3122 | a node function attribute is read as its kind says |
| `RdatFormat.IoAttribExact` | libs/DXILParser/DXILParser.cpp:3149-3178 | an io attribute is read as its kind says, the dispatch grid from its half words |
| `RdatFormat.NodeShaderExact` | libs/DXILParser/DXILParser.cpp:3232-3249 | a node shader is read as its five words say |
| `RdatFormat.SignatureExact` | libs/DXILParser/DXILParser.cpp:3390-3418 | a signature element is read as its words and packed bytes say |
| `RdatFormat.ShaderExact` | libs/DXILParser/DXILParser.cpp:3426-3585 | a record of each of the eight shader-info tables, numbers 14 to 21, is read as its words say |
| `RdatFormat.FunctionExact` | libs/DXILParser/DXILParser.cpp:3271-3366 | a function is read as its words say: resources from word 2, dependencies from word 3, and its shader info from word 12 of the longer record, in the table its kind names |
| `RdatFormat.PdbExact` | libs/DXILParser/DXILParser.cpp:3663-3684 | a PDB record is read as its eleven words say |
| `RdatParser.ScanText` | libs/DXILParser/DXILParser.cpp:79-91 | the scan for the terminator reads exactly that string and fails exactly when no zero follows |
| `Rdat.StagesIntact` | libs/DXILParser/DXILParser.cpp:3704-3747 | after any number of stages all references are in range and later tables are still empty |
| `Rdat.NodeStagesKeep` | libs/DXILParser/DXILParser.cpp:3704-3732 | each stage up to the node shaders keeps that |
| `Rdat.LateStagesKeep` | libs/DXILParser/DXILParser.cpp:3734-3747 | each stage from the signature table on keeps that |
| `Rdat.ReadTable` | libs/DXILParser/DXILParser.cpp:2936-2968 | the loop all tables share: every record parsed in order, or the table refused |
| `Rdat.ReadRecordArray` | libs/DXILParser/DXILParser.cpp:1398-1409 | an accepted index array has every element below the record count |
| `Rdat.ParseFuncAttrib` | libs/DXILParser/DXILParser.cpp:3075-3125 | an attribute that names a node id names an existing one |
| `Rdat.ParseIoAttrib` | libs/DXILParser/DXILParser.cpp:3128-3181 | likewise for input and output attributes |
| `Rdat.ParseIoNode` | libs/DXILParser/DXILParser.cpp:3184-3213 | an io node's attributes exist |
| `Rdat.ParseNodeShader` | libs/DXILParser/DXILParser.cpp:3216-3252 | a node shader's attributes and io nodes exist |
| `Rdat.ParseShaderInfo` | libs/DXILParser/DXILParser.cpp:3426-3560 | the signature elements a shader info names exist |
| `Rdat.ParseFunction` | libs/DXILParser/DXILParser.cpp:3255-3370 | a function's resources exist, and so does the shader or node info it points to |
| `Rdat.ParsePdb` | libs/DXILParser/DXILParser.cpp:3648-3689 | the sources and libraries a PDB record names exist |
| `RdatParser.ReflectResources` | libs/DXILParser/DXILParser.cpp:5771-5774 | after a successful parse the unguarded indexing is in range and yields the named resources |
| `RdatParser.CopySignature` | libs/DXILParser/DXILParser.cpp:4231-4241 | keeps every element, in order, exactly when all indices are in range |
| `RdatParser.ReflectSignatures` | libs/DXILParser/DXILParser.cpp:4270-4281 | after a successful parse none of the input, output, patch-constant and primitive signatures loses an element |
| `Handles.ResourceUseHandle` | libs/DXILParser/DXILParser.cpp:4790-4833 | by its own id; or by binding: it has an id iff some resource has its class, space and lower bound, and then that of the first such resource, no earlier one agreeing in all three; or the stored handle of operand 0 |
| `Handles.PropagateResourceUses` | libs/DXILParser/DXILParser.cpp:4835-4871 | the single pass with its map gives every operation what the map-free recursive definition gives; which fields change and how is stated field by field |
| `Handles.ChainResolves` | libs/DXILParser/DXILParser.cpp:4790-4871 | with names defined once and before use, an operation gets what the root of its definition chain yields: the root's own id, or that of the first resource at its binding |
| `Handles.YieldExact` | libs/DXILParser/DXILParser.cpp:4790-4861 | what a root yields, by the fields of operation and resources, and when it is valid |
| `Handles.UseTakesRoot` | libs/DXILParser/DXILParser.cpp:4790-4871 | hence after the pass the operation carries the id and class its root names or finds by binding, whichever operations passed the handle on |
| `Handles.DefinesExact` | libs/DXILParser/DXILParser.cpp:4760-4772 | which names an operation defines: its result's name or text, without a leading percent sign |
| `Handles.ValidHasChain` | libs/DXILParser/DXILParser.cpp:4790-4871 | an operation with a valid handle has such a chain, on any operations |
| `Handles.PassIdempotent` | libs/DXILParser/DXILParser.cpp:4835-4871 | running the pass again changes nothing |
| `Handles.FlagsExact` | libs/DXILParser/DXILParser.cpp:4421-4462 | each usage flag is set iff it was, or some matching operation sets it |
| `Handles.MarkedExact` | libs/DXILParser/DXILParser.cpp:4421-4462 | which operations mark which resource, flag by flag, in the fields of both: by id or by binding, by kind, counter updates and the six comparing samples by name |
| `Handles.FlagsOrderFree` | libs/DXILParser/DXILParser.cpp:5892-5896 | the final flags do not depend on order or repetition of the operations |
| `Handles.FlagsStayInClassIff` | libs/DXILParser/DXILParser.cpp:4424-4434 | operations addressing a resource by class and id leave the flags of other classes alone exactly when resources with equal ids have equal classes |
| `Handles.SharedIdMarksBoth` | libs/DXILParser/DXILParser.cpp:4424-4434 | a witness: reading the SRV with id 0 marks the constant buffer with id 0 |
| `Handles.HeldIffChain` | libs/DXILParser/DXILParser.cpp:4790-4871 | on any operations, a name is held after the first n exactly when a definition chain among them leads from it to a root with a valid handle |
| `Handles.FunctionsSeparateIff` | libs/DXILParser/DXILParser.cpp:4835-4871 | after the operations of earlier functions, those of the next get the handles they would get alone exactly when none has an operand with a definition chain in the earlier ones and none before it in its own |
| `Handles.FunctionsSeparate` | libs/DXILParser/DXILParser.cpp:4835-4871 | in particular, with no operand name defined in the earlier functions the pass leaves the later operations as alone |
| `Handles.NameLeaks` | libs/DXILParser/DXILParser.cpp:4835-4871 | a witness: a use in one function takes the handle made under the same name in another |
| `Handles.CollectFlags` | libs/DXILParser/DXILParser.cpp:5892-5896 | the double loop sets exactly those flags in place, stated flag by flag as well |
| `Bindings.ListCovers` | src/airconv/air_signature.cpp:72-144 | for any entries the indices handed out, in order, are exactly the run of table positions: pairwise distinct, none missing |
| `Bindings.ListReproduced` | src/airconv/dxbc_converter.cpp:31-154 | laying out again after demoting any SRVs reproduces every index, name and location |
| `Bindings.ListRekinded` | src/airconv/dxbc_converter.cpp:31-154 | and the element at the index of each demoted SRV, a multisampled texture before, is a plain one of the same shape, every other element being the same in all respects |
| `Bindings.ApartIff` | src/airconv/airconv_public.h:177-189 | for any two entries with any slots, in 32-bit arithmetic: their locations are apart exactly when each starts at least the width of the other ahead of it |
| `Bindings.LocationsApart` | src/airconv/airconv_public.h:177-189 | within shader model 5 slots two entries occupy different locations, except exactly samplers less than three slots apart |
| `Bindings.NeighbouringSamplersMeet` | src/airconv/airconv_public.h:177-189 | a witness: samplers 0 and 1 both have an element at location 33 |
| `Bindings.FieldsAtLocations` | src/airconv/dxbc_converter.cpp:1318-1432 | for any slot, the elements of an entry stand at its location, in numbers slot, slot + 32, 3·slot + 128 or 3·slot + 512 by class, and the ones after it, modulo 2^32; the unset location is replaced by the index |
| `Bindings.ArgumentBufferBuilder.Define` | src/airconv/air_signature.cpp:72-144 | appends one element and returns its index; an unset location becomes the index |
| `Bindings.PublishConstants` | src/airconv/dxbc_converter.cpp:1296-1317 | one element per constant buffer, its index recorded and published |
| `Bindings.PublishSamplers` | src/airconv/dxbc_converter.cpp:1318-1340 | three elements per sampler, their indices recorded, the first published |
| `Bindings.PublishSrvs` | src/airconv/dxbc_converter.cpp:1341-1403 | two elements per SRV, texture or buffer, the first published |
| `Bindings.PublishUavs` | src/airconv/dxbc_converter.cpp:1404-1467 | two elements per UAV and a third with a counter, the first published |
| `Bindings.RebuildConstants` | src/airconv/dxbc_converter.cpp:81-88 | the second layout of constant buffers equals the first |
| `Bindings.RebuildSamplers` | src/airconv/dxbc_converter.cpp:90-100 | likewise for samplers |
| `Bindings.RebuildSrvs` | src/airconv/dxbc_converter.cpp:102-122 | likewise for SRVs |
| `Bindings.RebuildUavs` | src/airconv/dxbc_converter.cpp:124-153 | likewise for UAVs |
| `Bindings.ShaderInfo.Initialize` | src/airconv/dxbc_converter.cpp:1296-1475 | samplers, SRVs and UAVs laid out in order and published; recorded indices are exactly 0 up to the table size, and so are those of the constant buffers |
| `Bindings.ShaderInfo.Rebuild` | src/airconv/dxbc_converter.cpp:70-154 | the separately written layout gives the same table for the same maps |
| `Bindings.ShaderInfo.DemoteSrvs` | src/airconv/dxbc_converter.cpp:31-68 | entry by entry: an SRV named by bit k of the first mask (key k) or of the second (key 64 + k) becomes Texture2D if it was Texture2DMultisampled and Texture2DArray if it was Texture2DMultisampledArray; everything else is unchanged |
| `Bindings.PublishThenRebuild` | src/airconv/dxbc_converter.cpp:625-631 | after publishing, demoting and rebuilding, every published argument, recorded index, element name and location is reproduced, the elements of demoted SRVs are of exactly the plain kind and all others as published, and the constant-buffer table exactly |
| `Tessellation.NextPow2Least` | src/airconv/dxbc_converter.cpp:208-210 | the least power of two not below its argument |
| `Tessellation.Fit` | src/airconv/dxbc_converter.cpp:1508-1532 | ends at the first configuration whose estimate is within 16384, all earlier ones exceeding it; fails exactly when all exceed it or over 32 threads are asked for; 32 threads in all, at least those requested, factor never raised and lowered only at one patch |
| `Tessellation.ReductionsExact` | src/airconv/dxbc_converter.cpp:1519-1521 | how often the factor can be lowered and what it is each time |
| `Tessellation.MaxPotentialFactor` | src/airconv/dxbc_converter.cpp:1542-1553 | the largest factor up to 64 with no factor up to it over the mesh limit, and one at least |
| `Container.ContainerParser.ParseContainer` | libs/DXILParser/DXILParser.cpp:2224-2269 | succeeds exactly when header and all parts are in bounds, parts in table order and between index table and container end; otherwise the status of the header or of the first bad part |
| `Container.ContainerParser.ReadHeader` | libs/DXILParser/DXILParser.cpp:2225-2244 | the header checks in order and the fields they guard |
| `Container.ContainerParser.ReadPart` | libs/DXILParser/DXILParser.cpp:2247-2266 | one part: appended exactly when its header and payload are in bounds |
| `Container.WriteThenParse` | libs/DXILParser/DXILParser.cpp:2224-2269 | any chunks written in the layout, followed by any bytes, are read back with their payloads, end to end |
| `Container.FindOverlaps` | libs/DXILParser/DXILParser.cpp:5092-5116 | for parts inside a container, some overlap is reported iff some two different parts share a byte |
| `Container.NeighboursSuffice` | libs/DXILParser/DXILParser.cpp:5109-5116 | in begin order ranges overlap somewhere iff two neighbours do |
| `Container.OverlapOfBag` | libs/DXILParser/DXILParser.cpp:5105-5108 | having an overlap does not depend on the order of the ranges, so any sort will do |
| `Signatures.SignatureParser.FindParameter` | libs/DXBCParser/DXBCUtils.cpp:1166-1182 | the checksum-filtered search returns the first entry with the index and, up to case, the name; fails iff there is none |
| `Signatures.SameNameSameSum` | libs/DXBCParser/DXBCUtils.cpp:1150-1162 | names equal up to case have equal 32-bit sums of signed characters |
| `Signatures.SameNameExact` | libs/DXBCParser/DXBCUtils.cpp:1172-1174 | which names are one: the same bytes, or one ASCII letter in its two cases |
| `Signatures.CharSumExact` | libs/DXBCParser/DXBCUtils.cpp:1150-1162 | keeping 32 bits at every step keeps 32 bits of the whole signed sum |
| `Signatures.LowerCaseCharSum` | libs/DXBCParser/DXBCUtils.cpp:1150-1162 | the running sum is that sum |
| `Signatures.SignatureParser.ReadSignature` | libs/DXBCParser/DXBCUtils.cpp:592-663 | accepted iff registers never decrease; every name then has its sum beside it |
| `Signatures.SignatureParser.CanOutputTo` | libs/DXBCParser/DXBCUtils.cpp:1217-1261 | true iff the target is no longer than the source and every target entry has a compatible source entry |
| `Signatures.SignatureParser.SearchFrom` | libs/DXBCParser/DXBCUtils.cpp:1232-1252 | the rotated, filtered search finds a compatible entry iff there is one |
| `Signatures.MasksAreComponents` | libs/DXBCParser/DXBCUtils.cpp:1243-1246 | the mask test says, component by component, that what the target has is provided and nothing it always reads is never written |
| `Signatures.PrefixIffFedInOrder` | libs/DXBCParser/DXBCUtils.h:117-120 | with no semantic twice in the source: the target links entry by entry to the beginning of the source exactly when the code accepts it and its semantics stand in the order of the source |
| `Signatures.PrefixIsFed` | libs/DXBCParser/DXBCUtils.h:117-120 | on all signatures, what the documented rule accepts the code accepts |
| `Signatures.SwappedAccepted` | libs/DXBCParser/DXBCUtils.h:117-120 | a witness: two entries swapped are accepted and are not the beginning of the source |
| `Signatures.RepeatedKeyAccepted` | libs/DXBCParser/DXBCUtils.h:117-120 | a witness: with a semantic twice in the source, the same order is not enough |
| `Signatures.PermutedTargetAccepted` | libs/DXBCParser/DXBCUtils.cpp:1217-1261 | source entries picked at any places, in any order, are an acceptable target once masks are cleared |
| `Signatures.SignatureParser.ClearAlwaysReadsNeverWritesMask` | libs/DXBCParser/DXBCUtils.cpp:1267-1273 | clears that mask in every entry and changes nothing else |
| `Signatures.SignatureParser5.ReadSignature` | libs/DXBCParser/DXBCUtils.cpp:886-978 | accepted iff registers never decrease within a stream's run; each stream holds its run with valid sums |
| `Signatures.SegmentsCoverIff` | libs/DXBCParser/DXBCUtils.cpp:888-925 | the four runs hold every entry exactly when entries come in stream order |
| `Signatures.SegmentIsStream` | libs/DXBCParser/DXBCUtils.cpp:888-925 | in stream order a stream's run is exactly the entries of that stream |
| `Signatures.OutOfOrderDropped` | libs/DXBCParser/DXBCUtils.cpp:888-925 | the witness: an entry of stream 0 after one of stream 1 is in no run |

## Left out

- Everything that drives LLVM or AIR code generation, the LLVM object readers, opcode and name tables, the CLI and error strings: foreign calls or finite tables.
- The bitcode wrapper header, the DXIL program header, PSV0, legacy signature blobs and their precedence in the translation info: bounds checks and copies.
- Interning of inputs and outputs in the function signature builder: a search before a push.
- Memory: allocation failure, `reserve` on declared counts, ownership and string copies in the signature readers.
- Reads past the end of the token buffer are undefined in the source; the token model stops with `Overrun` there.
- Instructions.ParseInstruction: opcodes with their own case (declarations, custom data, calls, tests, queries, sync) are handed back unparsed; the operand count table is a parameter.
- TokenRoundTrip.OperandRoundTrip: index representations are 0..3, and the operand inside a relative index is no one-component 64-bit immediate; one there is not in the round trip, since after it the parser may resume on any value token.
- Operand and instruction records are values returned by the token parser, not objects filled in place; the union of write mask and swizzle is kept as two fields.
- Structure.RecordsConserved: record counts are unbounded, not 32-bit.
- Format.FormedIsWritten: the size bound keeps the 32-bit block lengths in range with room to spare; files above it that still fit are covered by RoundTrip.FileRoundTrip only.
- Operand counts wrap at 32 bits in the reader model; the writer refuses records of 2^32 values or more, and definitions in a BLOCKINFO block before any SETBID, which the format forbids.
- RdatParser.RuntimeData.ParseCoreTables: starts from the part list with records as 32-bit words, each as long as its table's stride; splitting the RDAT bytes into parts and words is not modelled.
- Handles: operation records carry only the fields the pass reads and writes.
- Functions and instructions of the call graph are given records; names, where there are any, are unique, as LLVM guarantees.
- Bindings.ShaderInfo.Initialize: resource maps are sequences in key order; access, sample type and raster-order attributes of elements, slot masks and, in reflection entries, all but type, slot and index are not modelled.
- Tessellation.Fit: requested counts of 0 or above 2^31 make the source shift by 32, which is undefined; the model asks for at least 1 and has no upper bound. Factors are real numbers; subtracting two is exact in single precision up to the largest declared factor, 64. The payload and mesh estimates are arbitrary functions.
- Container.FindOverlaps: the library sort is represented by an insertion sort, and the proof uses only that its result is a sorted rearrangement.
- Signatures.SignatureParser.ReadSignature: starts from parameter records with their names; the blob's offsets and sizes are not modelled.
