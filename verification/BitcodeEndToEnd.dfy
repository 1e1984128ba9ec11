/** The parser object run on the bytes of a written file. */
module EndToEnd {
  import opened Options
  import opened Bits
  import opened Bitcode
  import opened Writer
  import opened RoundTrip
  import opened Tables
  import opened Format
  import opened Parser

  method ReadBack(file: seq<Block>) returns (ok: bool, blocks: seq<BlockInfo>, records: seq<RecordInfo>)
    requires EncFile(file).Some?
    requires NoneForZero(EncFile(file).value.out.reg) || PlainInfo(0xffff_ffff, AsElements(file))
    ensures ok && Shapes(blocks) == [Shape(0xffff_ffff, 2, 0, 0)] + InnerShapes(1, AsElements(file))
    ensures records == TreeRecords(0xffff_ffff, AsElements(file))
    ensures blocks == EncFile(file).value.out.blocks
  {
    hide EncFile, Bitcode.Parse, InnerShapes, TreeRecords, PlainInfo, NoneForZero, AsElements;
    FileRoundTrip(file);
    if PlainInfo(0xffff_ffff, AsElements(file)) { FileTables(file); }
    var bytes := Pack(EncFile(file).value.bits);
    var parser := new BitcodeParser(bytes);
    ok := parser.Parse();
    blocks, records := parser.blocks, parser.records;
  }

  /** The same for every file that the format allows, is below the size bound and writes no BLOCKINFO
      record through an abbreviation. */
  method ReadFormed(file: seq<Block>) returns (ok: bool, blocks: seq<BlockInfo>, records: seq<RecordInfo>)
    requires FileFormed(file) && BodyWeight(AsElements(file)) < 0x20_0000_0000
    requires PlainInfo(0xffff_ffff, AsElements(file))
    ensures ok && Shapes(blocks) == [Shape(0xffff_ffff, 2, 0, 0)] + InnerShapes(1, AsElements(file))
    ensures records == TreeRecords(0xffff_ffff, AsElements(file))
  {
    hide FileFormed, BodyWeight, EncFile, PlainInfo, AsElements, InnerShapes, TreeRecords, Shapes;
    FormedIsWritten(file);
    ok, blocks, records := ReadBack(file);
  }
}
