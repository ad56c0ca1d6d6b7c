/** One OSD frame: the 8-byte frame header and the 60x22 grid of glyph codes,
    with the grid accessors (Frame.cell, Frame.line, Frame.sline,
    Frame.__getitem__) and the text dump (Frame.__str__). */
module OsdFrame {
  import opened Osd

  /** The grid in column-major order: the glyph of column x, row y is at x * MAX_Y + y. */
  type Grid = s: seq<Glyph> | |s| == MAX_T witness seq(MAX_T, (_: int) => 0 as Glyph)

  /** A decoded frame; `variant` records which Frame subclass decoded it. */
  datatype Frame = Frame(variant: Variant, frameIdx: u32, size: u32, ar: Grid)

  /** struct.calcsize('<II'). */
  const FRAME_HEADER_SIZE: int := 8

  /** The size of one frame block in the file: header and 1320 16-bit codes. */
  const FRAME_BLOCK_SIZE: int := FRAME_HEADER_SIZE + MAX_T * 2

  /** The little-endian 32-bit word at `off`. */
  function Word32(block: seq<byte>, off: nat): (w: u32)
    requires off + 4 <= |block|
    ensures w == LittleEndian(block[off..off + 4])
  {
    assert Pow256(4) == 0x1_0000_0000;
    LittleEndian(block[off..off + 4])
  }

  /** The glyph codes of a block's payload, two little-endian bytes each. */
  function DecodeGrid(payload: seq<byte>): (ar: seq<Glyph>)
    requires |payload| % 2 == 0
    ensures |ar| == |payload| / 2
    ensures forall k :: 0 <= k < |ar| ==> ar[k] == LittleEndian(payload[2 * k..2 * k + 2])
  {
    seq(|payload| / 2, k requires 0 <= k < |payload| / 2 => payload[2 * k] as int + 0x100 * payload[2 * k + 1] as int)
  }

  /** Frame.__init__: unpack '<II' and read the rest of the block as an array('H'),
      taken as little-endian. */
  function DecodeFrame(variant: Variant, block: seq<byte>): (f: Frame)
    requires |block| == FRAME_BLOCK_SIZE
    ensures f.variant == variant
    ensures f.frameIdx == LittleEndian(block[0..4]) && f.size == LittleEndian(block[4..8])
    ensures forall x, y :: 0 <= x < MAX_X && 0 <= y < MAX_Y ==>
      Cell(f, x, y) == Ok(LittleEndian(block[FRAME_HEADER_SIZE + 2 * (x * MAX_Y + y)..FRAME_HEADER_SIZE + 2 * (x * MAX_Y + y) + 2]))
  {
    var ar := DecodeGrid(block[FRAME_HEADER_SIZE..]);
    var f := Frame(variant, Word32(block, 0), Word32(block, 4), ar);
    assert forall x, y :: 0 <= x < MAX_X && 0 <= y < MAX_Y ==> Cell(f, x, y) == Ok(ar[x * MAX_Y + y]);
    f
  }

  /** The bytes of the glyph codes, low byte first. */
  function EncodeGrid(ar: seq<Glyph>): (bs: seq<byte>)
    ensures |bs| == 2 * |ar|
    ensures forall k :: 0 <= k < |ar| ==> bs[2 * k] == ar[k] % 0x100 && bs[2 * k + 1] == ar[k] / 0x100
  {
    if ar == [] then []
    else
      var rest := EncodeGrid(ar[1..]);
      var bs := [ar[0] % 0x100, ar[0] / 0x100] + rest;
      assert forall k :: 1 <= k < |ar| ==> bs[2 * k] == rest[2 * (k - 1)] && bs[2 * k + 1] == rest[2 * (k - 1) + 1];
      bs
  }

  /** The frame block a recorder writes for `f`: the inverse of DecodeFrame. */
  function EncodeFrame(f: Frame): (block: seq<byte>)
    ensures |block| == FRAME_BLOCK_SIZE
  {
    assert Pow256(4) == 0x1_0000_0000;
    ToLittleEndian(f.frameIdx, 4) + ToLittleEndian(f.size, 4) + EncodeGrid(f.ar)
  }

  /** Decoding what was encoded gives the frame back. */
  lemma DecodeEncodeFrame(f: Frame)
    ensures DecodeFrame(f.variant, EncodeFrame(f)) == f
  {
    var block := EncodeFrame(f);
    assert Pow256(4) == 0x1_0000_0000;
    assert block[0..4] == ToLittleEndian(f.frameIdx, 4);
    assert block[4..8] == ToLittleEndian(f.size, 4);
    var g := DecodeFrame(f.variant, block);
    var payload := block[FRAME_HEADER_SIZE..];
    assert payload == EncodeGrid(f.ar);
    forall k | 0 <= k < MAX_T ensures g.ar[k] == f.ar[k] {
      assert g.ar[k] == payload[2 * k] as int + 0x100 * payload[2 * k + 1] as int;
    }
  }

  lemma ByteSplit(lo: byte, hi: byte)
    ensures (lo + 0x100 * hi) % 0x100 == lo && (lo + 0x100 * hi) / 0x100 == hi
  {
  }

  lemma EncodeDecodeGrid(payload: seq<byte>)
    requires |payload| % 2 == 0
    ensures EncodeGrid(DecodeGrid(payload)) == payload
  {
    var ar := DecodeGrid(payload);
    var e := EncodeGrid(ar);
    forall i | 0 <= i < |payload| ensures e[i] == payload[i] {
      var k := i / 2;
      ByteSplit(payload[2 * k], payload[2 * k + 1]);
      assert ar[k] == payload[2 * k] as int + 0x100 * payload[2 * k + 1] as int;
      assert i == 2 * k || i == 2 * k + 1;
    }
  }

  /** Every block is the encoding of the frame it decodes to. */
  lemma EncodeDecodeFrame(variant: Variant, block: seq<byte>)
    requires |block| == FRAME_BLOCK_SIZE
    ensures EncodeFrame(DecodeFrame(variant, block)) == block
  {
    var f := DecodeFrame(variant, block);
    ToLittleEndianOfBytes(block[0..4]);
    ToLittleEndianOfBytes(block[4..8]);
    EncodeDecodeGrid(block[FRAME_HEADER_SIZE..]);
    assert block == block[0..4] + block[4..8] + block[FRAME_HEADER_SIZE..];
  }

  /** Frame.cell: only the upper bounds are checked, so a negative coordinate
      reaches another cell through Python's negative indexing. */
  function Cell(f: Frame, x: int, y: int): (r: Result<Glyph>)
    ensures r.Err? <==> x >= MAX_X || y >= MAX_Y || x * MAX_Y + y < -MAX_T
    ensures r.Err? ==> r.error == if x >= MAX_X || y >= MAX_Y then ValueError else IndexError
    ensures 0 <= x < MAX_X && 0 <= y < MAX_Y ==> r == Ok(f.ar[x * MAX_Y + y])
    ensures r.Ok? ==> r.value == f.ar[(x * MAX_Y + y) % MAX_T]
  {
    if x >= MAX_X || y >= MAX_Y then Err(ValueError) else PyIndex(f.ar, x * MAX_Y + y)
  }

  /** The argument of Frame.__getitem__: a tuple of ints, or anything else. */
  datatype Key = TupleKey(items: seq<int>) | OtherKey

  /** Frame.__getitem__: f[x, y] is f.cell(x, y); any other key is a ValueError. */
  function GetItem(f: Frame, key: Key): (r: Result<Glyph>)
    ensures !(key.TupleKey? && |key.items| == 2) ==> r == Err(ValueError)
    ensures forall x, y :: key == TupleKey([x, y]) ==> r == Cell(f, x, y)
  {
    if key.TupleKey? && |key.items| == 2 then Cell(f, key.items[0], key.items[1]) else Err(ValueError)
  }

  /** The 60 glyphs of row y, read left to right. */
  function Row(f: Frame, y: int): (row: seq<Glyph>)
    requires 0 <= y < MAX_Y
    ensures |row| == MAX_X
    ensures forall x :: 0 <= x < MAX_X ==> row[x] == f.ar[x * MAX_Y + y]
  {
    seq(MAX_X, x requires 0 <= x < MAX_X => f.ar[x * MAX_Y + y])
  }

  /** Frame.line: the row y as a tuple of 60 codes. */
  function Line(f: Frame, y: int): (r: Result<seq<Glyph>>)
    ensures r.Err? <==> !(0 <= y < MAX_Y)
    ensures r.Err? ==> r.error == ValueError
    ensures r.Ok? ==> |r.value| == MAX_X && forall x :: 0 <= x < MAX_X ==> Cell(f, x, y) == Ok(r.value[x])
  {
    if y < 0 || y >= MAX_Y then Err(ValueError) else Ok(Row(f, y))
  }

  /** Frame.sline: the row y rendered as text. */
  function SLine(f: Frame, y: int): (r: Result<string>)
    ensures r.Err? <==> !(0 <= y < MAX_Y)
    ensures r.Err? ==> r.error == ValueError
    ensures r.Ok? ==> |r.value| == MAX_X && forall x :: 0 <= x < MAX_X ==> r.value[x] == CodeToChar(Cell(f, x, y).value)
  {
    match Line(f, y)
    case Err(e) => Err(e)
    case Ok(line) => Ok(seq(|line|, i requires 0 <= i < |line| => CodeToChar(line[i])))
  }

  /** The position of the newline that ends line y of the text dump. */
  function LineEnd(y: int): int {
    y * (MAX_X + 1) + MAX_X
  }

  /** Frame.__str__: the grid as 22 lines of 60 rendered glyphs, each line ended by a newline. */
  method Render(f: Frame) returns (s: string)
    ensures |s| == MAX_Y * (MAX_X + 1)
    ensures forall y, x :: 0 <= y < MAX_Y && 0 <= x < MAX_X ==>
      s[y * (MAX_X + 1) + x] == CodeToChar(Cell(f, x, y).value)
    ensures forall y :: 0 <= y < MAX_Y ==> s[LineEnd(y)] == '\n'
  {
    var sl: seq<char> := [];
    var row := 0;
    while row < MAX_Y
      invariant 0 <= row <= MAX_Y
      invariant |sl| == row * (MAX_X + 1)
      invariant forall y, x :: 0 <= y < row && 0 <= x < MAX_X ==>
        sl[y * (MAX_X + 1) + x] == CodeToChar(Cell(f, x, y).value)
      invariant forall y :: 0 <= y < row ==> sl[LineEnd(y)] == '\n'
    {
      var col := 0;
      while col < MAX_X
        invariant 0 <= col <= MAX_X
        invariant |sl| == row * (MAX_X + 1) + col
        invariant forall y, x :: 0 <= y < row && 0 <= x < MAX_X ==>
          sl[y * (MAX_X + 1) + x] == CodeToChar(Cell(f, x, y).value)
        invariant forall y :: 0 <= y < row ==> sl[LineEnd(y)] == '\n'
        invariant forall x :: 0 <= x < col ==> sl[row * (MAX_X + 1) + x] == CodeToChar(Cell(f, x, row).value)
      {
        var i := col * MAX_Y + row;
        var ch := CodeToChar(f.ar[i]);
        sl := sl + [ch];
        col := col + 1;
      }
      sl := sl + ['\n'];
      row := row + 1;
    }
    s := sl;
  }
}
